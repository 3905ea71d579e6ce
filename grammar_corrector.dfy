/**
 * The edit applicator of `GrammarCorrector.correct`: the matches are spliced
 * into a working string one at a time, in the order given, and a running
 * offset adjustment maps each match's original offset into the coordinates
 * of the working string. The network request that produces the matches is
 * replaced by the `matches` parameter.
 */
module GrammarCorrector {
  import opened GrammarTypes
  import opened JsString
  import opened EditSpec
  import opened Wrappers

  /** The state the loop threads through the matches. */
  datatype Progress = Progress(corrected: string, offsetAdjustment: int, issues: seq<GrammarIssue>)

  /** The effective span of `m` lies inside the working string. */
  predicate Fits(p: Progress, m: Match) {
    0 <= m.offset + p.offsetAdjustment && m.offset + p.offsetAdjustment + m.length <= |p.corrected|
  }

  /** What the loop body does with one match. */
  function Step(p: Progress, m: Match): (r: Progress)
    // a match without a replacement changes nothing
    ensures !HasReplacement(m) ==> r == p
    // otherwise one issue is appended, naming the match's message and first replacement
    ensures HasReplacement(m) ==>
      && |r.issues| == |p.issues| + 1
      && r.issues[..|p.issues|] == p.issues
      && r.issues[|p.issues|].kind == GrammarError
      && r.issues[|p.issues|].description == m.message
      && r.issues[|p.issues|].corrected == FirstReplacement(m)
      && r.offsetAdjustment == p.offsetAdjustment + |FirstReplacement(m)| - m.length
  {
    var offset := m.offset + p.offsetAdjustment;
    var length := m.length;
    if HasReplacement(m) then
      var replacement := FirstReplacement(m);
      var issue := GrammarIssue(GrammarError, m.message, Substring(p.corrected, offset, offset + length), replacement);
      Progress(
        Substring(p.corrected, 0, offset) + replacement + SubstringFrom(p.corrected, offset + length),
        p.offsetAdjustment + |replacement| - length,
        p.issues + [issue])
    else
      p
  }

  /**
   * A match with a replacement whose effective span lies inside the working
   * string: the text before the span and the text after it stay, the
   * replacement sits between them, the issue quotes exactly the removed
   * text, and the working string's length keeps step with the adjustment.
   */
  lemma StepSplices(p: Progress, m: Match)
    requires HasReplacement(m) && Fits(p, m)
    ensures
      var r := Step(p, m);
      var o := m.offset + p.offsetAdjustment;
      var n := |FirstReplacement(m)|;
      && r.corrected == Splice(p.corrected, o, m.length, FirstReplacement(m))
      && |r.corrected| == |p.corrected| + n - m.length
      && r.corrected[..o] == p.corrected[..o]
      && r.corrected[o..o + n] == FirstReplacement(m)
      && r.corrected[o + n..] == p.corrected[o + m.length..]
      && r.issues[|p.issues|].original == p.corrected[o..o + m.length]
      && |r.corrected| - r.offsetAdjustment == |p.corrected| - p.offsetAdjustment
  {
  }

  /** The state after the loop has visited the first `n` matches, starting from `text`. */
  function RunFirst(text: string, ms: seq<Match>, n: nat): Progress
    requires n <= |ms|
  {
    if n == 0 then Progress(text, 0, [])
    else Step(RunFirst(text, ms, n - 1), ms[n - 1])
  }

  /** The state after the loop has visited all of `ms`. */
  function Run(text: string, ms: seq<Match>): Progress {
    RunFirst(text, ms, |ms|)
  }

  /** A step with a replacement appends exactly one issue. */
  lemma StepAppendsIssue(p: Progress, m: Match)
    requires HasReplacement(m)
    ensures Step(p, m).issues == p.issues + [Step(p, m).issues[|p.issues|]]
  {
  }

  /**
   * Issues come out in match order, one per match with a replacement, each
   * naming that match's message and first replacement.
   */
  lemma {:induction false} IssuesFollowMatches(text: string, ms: seq<Match>, n: nat)
    requires n <= |ms|
    ensures Reports(AppliedFirst(ms, n), RunFirst(text, ms, n).issues)
  {
    if n > 0 {
      var k := n - 1;
      IssuesFollowMatches(text, ms, k);
      var m := ms[k];
      var p := RunFirst(text, ms, k);
      assert RunFirst(text, ms, n) == Step(p, m);
      if HasReplacement(m) {
        StepAppendsIssue(p, m);
        assert AppliedFirst(ms, n) == AppliedFirst(ms, k) + [m];
        ReportsOneMore(AppliedFirst(ms, k), p.issues, m, Step(p, m).issues[|p.issues|]);
      } else {
        assert AppliedFirst(ms, n) == AppliedFirst(ms, k);
      }
    }
  }

  /** The running adjustment is the net length change of the matches applied so far. */
  lemma {:induction false} AdjustmentIsDelta(text: string, ms: seq<Match>, n: nat)
    requires n <= |ms|
    ensures RunFirst(text, ms, n).offsetAdjustment == DeltaFirst(ms, n)
  {
    if n > 0 {
      var k := n - 1;
      AdjustmentIsDelta(text, ms, k);
    }
  }

  /**
   * A step whose effective offset falls on the boundary between an edited
   * `head` and a `tail` not yet touched: the match reads the front of the
   * tail and, when it has a replacement, puts it in that place.
   */
  lemma StepAtBoundary(p: Progress, m: Match, head: string, tail: string)
    requires p.corrected == head + tail
    requires |head| == m.offset + p.offsetAdjustment
    requires m.length <= |tail|
    ensures Fits(p, m)
    ensures p.corrected[|head|..|head| + m.length] == tail[..m.length]
    ensures Step(p, m).corrected == if HasReplacement(m) then head + FirstReplacement(m) + tail[m.length..] else p.corrected
  {
    var o := |head|;
    assert p.corrected[..o] == head;
    assert p.corrected[o..o + m.length] == tail[..m.length];
    assert p.corrected[o + m.length..] == tail[m.length..];
  }

  /**
   * One step of the loop over a well-placed list, given that the working
   * string so far is the right-to-left application of the earlier matches:
   * match `n`'s span fits the working string, covers there exactly the
   * original text of that span, and splicing it in keeps the agreement.
   */
  lemma StepOnOriginal(text: string, ms: seq<Match>, n: nat)
    requires WellPlaced(text, ms) && n < |ms|
    requires RunFirst(text, ms, n).corrected == ApplyRightToLeftFirst(text, ms, n)
    ensures Fits(RunFirst(text, ms, n), ms[n])
    ensures
      var o := ms[n].offset + RunFirst(text, ms, n).offsetAdjustment;
      RunFirst(text, ms, n).corrected[o..o + ms[n].length] == text[ms[n].offset..ms[n].offset + ms[n].length]
    ensures RunFirst(text, ms, n + 1).corrected == ApplyRightToLeftFirst(text, ms, n + 1)
  {
    var m := ms[n];
    var p := RunFirst(text, ms, n);
    var o := m.offset;
    EarlierEndBy(text, ms, n);
    var head := ApplyRightToLeftFirst(text[..o], ms, n);
    AdjustmentIsDelta(text, ms, n);
    WorkingStringAt(text, ms, n, head);
    var b := ApplyRightToLeftFirst(text, ms, n + 1);
    assert !HasReplacement(m) ==> b == p.corrected;
    Glue(p, m, text, head, b);
    assert RunFirst(text, ms, n + 1) == Step(p, m);
  }

  /**
   * The step itself, once the working string is known to be an edited head
   * followed by the original text from the match's offset on.
   */
  lemma Glue(p: Progress, m: Match, text: string, head: string, b: string)
    requires m.offset + m.length <= |text|
    requires p.corrected == head + text[m.offset..]
    requires |head| == m.offset + p.offsetAdjustment
    requires b == if HasReplacement(m) then head + FirstReplacement(m) + text[m.offset + m.length..] else p.corrected
    ensures Fits(p, m)
    ensures
      var o := m.offset + p.offsetAdjustment;
      p.corrected[o..o + m.length] == text[m.offset..m.offset + m.length]
    ensures Step(p, m).corrected == b
  {
    var tail := text[m.offset..];
    StepAtBoundary(p, m, head, tail);
    assert tail[..m.length] == text[m.offset..m.offset + m.length];
    assert tail[m.length..] == text[m.offset + m.length..];
  }

  /**
   * With matches sorted, non-overlapping and inside the text, the loop
   * computes what applying them right to left in original coordinates
   * computes, and the length of the working string is the original length
   * plus the adjustment.
   */
  lemma {:induction false} RunAgreesWithOriginal(text: string, ms: seq<Match>, n: nat)
    requires WellPlaced(text, ms) && n <= |ms|
    ensures RunFirst(text, ms, n).corrected == ApplyRightToLeftFirst(text, ms, n)
    ensures |RunFirst(text, ms, n).corrected| == |text| + RunFirst(text, ms, n).offsetAdjustment
  {
    if n > 0 {
      var k := n - 1;
      RunAgreesWithOriginal(text, ms, k);
      StepOnOriginal(text, ms, k);
    }
    AdjustmentIsDelta(text, ms, n);
    ApplyRightToLeftLength(text, ms, n);
  }

  /**
   * What the loop meets at match `n` of a well-placed list: the match lies
   * inside the text, its effective span fits the working string, the
   * adjustment is the net length change so far, and an issue it emits
   * quotes the original text the match covers.
   */
  lemma NextMatch(text: string, ms: seq<Match>, n: nat)
    requires WellPlaced(text, ms) && n < |ms|
    ensures ms[n].offset + ms[n].length <= |text|
    ensures Fits(RunFirst(text, ms, n), ms[n])
    ensures RunFirst(text, ms, n).offsetAdjustment == DeltaFirst(ms, n)
    ensures HasReplacement(ms[n]) ==>
      var p := RunFirst(text, ms, n);
      Step(p, ms[n]).issues[|p.issues|].original == text[ms[n].offset..ms[n].offset + ms[n].length]
  {
    RunAgreesWithOriginal(text, ms, n);
    StepOnOriginal(text, ms, n);
    EarlierEndBy(text, ms, n);
    AdjustmentIsDelta(text, ms, n);
    if HasReplacement(ms[n]) {
      StepSplices(RunFirst(text, ms, n), ms[n]);
    }
  }

  /**
   * With matches sorted, non-overlapping and inside the text, every issue
   * quotes exactly the original text its match covers (empty for an
   * insertion), although earlier edits have moved that text.
   */
  lemma {:induction false} IssuesQuoteOriginal(text: string, ms: seq<Match>, n: nat)
    requires WellPlaced(text, ms) && n <= |ms|
    ensures Quotes(text, AppliedFirst(ms, n), RunFirst(text, ms, n).issues)
  {
    if n > 0 {
      var k := n - 1;
      IssuesQuoteOriginal(text, ms, k);
      QuotesStep(text, ms, k);
    }
  }

  /** One step of `IssuesQuoteOriginal`. */
  lemma QuotesStep(text: string, ms: seq<Match>, n: nat)
    requires WellPlaced(text, ms) && n < |ms|
    requires Quotes(text, AppliedFirst(ms, n), RunFirst(text, ms, n).issues)
    ensures Quotes(text, AppliedFirst(ms, n + 1), RunFirst(text, ms, n + 1).issues)
  {
    var m := ms[n];
    var p := RunFirst(text, ms, n);
    assert RunFirst(text, ms, n + 1) == Step(p, m);
    if HasReplacement(m) {
      NextMatch(text, ms, n);
      StepAppendsIssue(p, m);
      assert AppliedFirst(ms, n + 1) == AppliedFirst(ms, n) + [m];
      QuotesOneMore(text, AppliedFirst(ms, n), p.issues, m, Step(p, m).issues[|p.issues|]);
    } else {
      assert AppliedFirst(ms, n + 1) == AppliedFirst(ms, n);
    }
  }

  /**
   * Replaying the issue a fitting step emits, at the step's effective offset,
   * has the effect of the step.
   */
  lemma ReplayStep(text: string, at: seq<int>, p: Progress, m: Match)
    requires |at| == |p.issues| && Replay(text, p.issues, at) == Some(p.corrected)
    requires HasReplacement(m) && Fits(p, m)
    ensures Replay(text, Step(p, m).issues, at + [m.offset + p.offsetAdjustment]) == Some(Step(p, m).corrected)
  {
    var o := m.offset + p.offsetAdjustment;
    var issues := Step(p, m).issues;
    var issue := issues[|p.issues|];
    StepSplices(p, m);
    assert issues == p.issues + [issue];
    assert issues[..|p.issues|] == p.issues;
    assert (at + [o])[..|at|] == at;
  }

  /**
   * Replaying each issue's `original -> corrected` at its effective offset,
   * in order and starting from the input, rebuilds the corrected text.
   */
  lemma {:induction false} ReplayReconstructs(text: string, ms: seq<Match>, n: nat)
    requires WellPlaced(text, ms) && n <= |ms|
    ensures |EffectiveOffsetsFirst(ms, n)| == |RunFirst(text, ms, n).issues|
    ensures Replay(text, RunFirst(text, ms, n).issues, EffectiveOffsetsFirst(ms, n)) == Some(RunFirst(text, ms, n).corrected)
  {
    if n > 0 {
      var k := n - 1;
      var m := ms[k];
      ReplayReconstructs(text, ms, k);
      var p := RunFirst(text, ms, k);
      if HasReplacement(m) {
        NextMatch(text, ms, k);
        assert EffectiveOffsetsFirst(ms, n) == EffectiveOffsetsFirst(ms, k) + [m.offset + p.offsetAdjustment];
        ReplayStep(text, EffectiveOffsetsFirst(ms, k), p, m);
      } else {
        assert EffectiveOffsetsFirst(ms, n) == EffectiveOffsetsFirst(ms, k);
      }
      assert RunFirst(text, ms, n) == Step(p, m);
    }
    IssuesFollowMatches(text, ms, n);
  }

  /** What a caller of the applicator may rely on, gathered from the lemmas above. */
  lemma RunSummary(text: string, ms: seq<Match>)
    ensures Reports(Applied(ms), Run(text, ms).issues)
    ensures WellPlaced(text, ms) ==>
      && Run(text, ms).corrected == ApplyRightToLeft(text, ms)
      && |Run(text, ms).corrected| == |text| + Run(text, ms).offsetAdjustment
      && Quotes(text, Applied(ms), Run(text, ms).issues)
      && Replay(text, Run(text, ms).issues, EffectiveOffsets(ms)) == Some(Run(text, ms).corrected)
  {
    IssuesFollowMatches(text, ms, |ms|);
    if WellPlaced(text, ms) {
      RunAgreesWithOriginal(text, ms, |ms|);
      IssuesQuoteOriginal(text, ms, |ms|);
      ReplayReconstructs(text, ms, |ms|);
    }
  }

  /**
   * The loop body's statements for a match with a replacement, written on
   * the loop's variables before (`c`, `a`, `iss`) and after (`c'`, `a'`,
   * `iss'`), perform `Step`.
   */
  lemma BodyIsStep(c: string, a: int, iss: seq<GrammarIssue>, m: Match, o: int, l: nat, r: string, c': string, a': int, iss': seq<GrammarIssue>)
    requires |m.replacements| > 0 && r == m.replacements[0].value && o == m.offset + a && l == m.length
    requires iss' == iss + [GrammarIssue(GrammarError, m.message, Substring(c, o, o + l), r)]
    requires c' == Substring(c, 0, o) + r + SubstringFrom(c, o + l)
    requires a' == a + |r| - l
    ensures Step(Progress(c, a, iss), m) == Progress(c', a', iss')
  {
  }

  /**
   * The loop of `GrammarCorrector.correct`: it keeps the working string, the
   * adjustment and the issues it has pushed equal to the state after the
   * matches visited so far.
   */
  method ApplyMatches(text: string, matches: seq<Match>) returns (p: Progress)
    ensures p == Run(text, matches)
    ensures p.offsetAdjustment == DeltaFirst(matches, |matches|)
    ensures WellPlaced(text, matches) ==> |p.corrected| == |text| + p.offsetAdjustment
  {
    var corrected := text;
    var issues: seq<GrammarIssue> := [];
    var offsetAdjustment: int := 0;
    var i := 0;
    while i < |matches|
      invariant 0 <= i <= |matches|
      invariant RunFirst(text, matches, i) == Progress(corrected, offsetAdjustment, issues)
    {
      ghost var c, a, iss := corrected, offsetAdjustment, issues;
      var m := matches[i];
      var offset := m.offset + offsetAdjustment;
      var length := m.length;
      if |m.replacements| > 0 {
        var replacement := m.replacements[0].value;
        issues := issues + [GrammarIssue(GrammarError, m.message, Substring(corrected, offset, offset + length), replacement)];
        corrected := Substring(corrected, 0, offset) + replacement + SubstringFrom(corrected, offset + length);
        offsetAdjustment := offsetAdjustment + |replacement| - length;
        BodyIsStep(c, a, iss, m, offset, length, replacement, corrected, offsetAdjustment, issues);
      }
      assert RunFirst(text, matches, i + 1) == Step(Progress(c, a, iss), m);
      i := i + 1;
    }
    p := Progress(corrected, offsetAdjustment, issues);
    AdjustmentIsDelta(text, matches, |matches|);
    if WellPlaced(text, matches) {
      RunAgreesWithOriginal(text, matches, |matches|);
    }
  }

  /**
   * `GrammarCorrector.correct` once the matches are in hand. Every run
   * reports the matches with a replacement in order; on a well-placed list
   * the result is the right-to-left application, each issue quotes the
   * original text, and replaying the issues rebuilds the corrected text.
   */
  method Correct(text: string, matches: seq<Match>) returns (result: CorrectionResult)
    ensures result.original == text
    ensures result.corrected == Run(text, matches).corrected
    ensures result.issues == Run(text, matches).issues
    ensures matches == [] ==> result.corrected == text && result.issues == []
    ensures Reports(Applied(matches), result.issues)
    ensures WellPlaced(text, matches) ==>
      && result.corrected == ApplyRightToLeft(text, matches)
      && Quotes(text, Applied(matches), result.issues)
      && Replay(text, result.issues, EffectiveOffsets(matches)) == Some(result.corrected)
  {
    var p := ApplyMatches(text, matches);
    result := CorrectionResult(text, p.corrected, p.issues);
    RunSummary(text, matches);
  }
}
