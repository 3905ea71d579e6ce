/**
 * Reference definitions for a list of matches, stated in original-text
 * coordinates and independent of how the applicator threads its running
 * offset adjustment through the loop. Most are given for the first `n`
 * matches of a list, which is the shape the loop's invariant needs.
 */
module EditSpec {
  import opened GrammarTypes
  import opened Wrappers

  /** The matches among the first `n` that take part, in order: those with a replacement. */
  function AppliedFirst(ms: seq<Match>, n: nat): (r: seq<Match>)
    requires n <= |ms|
    ensures |r| <= n
    ensures forall k :: 0 <= k < |r| ==> HasReplacement(r[k])
  {
    if n == 0 then []
    else if HasReplacement(ms[n - 1]) then AppliedFirst(ms, n - 1) + [ms[n - 1]]
    else AppliedFirst(ms, n - 1)
  }

  /** The matches that take part are exactly those among the first `n` with a replacement. */
  lemma {:induction false} AppliedFirstMembers(ms: seq<Match>, n: nat)
    requires n <= |ms|
    ensures forall x :: x in AppliedFirst(ms, n) <==> x in ms[..n] && HasReplacement(x)
  {
    if n > 0 {
      var k := n - 1;
      AppliedFirstMembers(ms, k);
      assert ms[..n] == ms[..k] + [ms[k]];
    }
  }

  /** The matches of `ms` that take part. */
  function Applied(ms: seq<Match>): seq<Match> {
    AppliedFirst(ms, |ms|)
  }

  /** The net change in length the first `n` matches with a replacement cause. */
  function DeltaFirst(ms: seq<Match>, n: nat): int
    requires n <= |ms|
  {
    if n == 0 then 0
    else
      var m := ms[n - 1];
      DeltaFirst(ms, n - 1) + (if HasReplacement(m) then |FirstReplacement(m)| - m.length else 0)
  }

  /** Each of the first `n` matches ends at or before position `b`. */
  predicate EndsBy(ms: seq<Match>, n: nat, b: nat)
    requires n <= |ms|
  {
    forall i :: 0 <= i < n ==> ms[i].offset + ms[i].length <= b
  }

  /** Each match starts at or after the end of every earlier one. */
  predicate Ordered(ms: seq<Match>) {
    forall i, j :: 0 <= i < j < |ms| ==> ms[i].offset + ms[i].length <= ms[j].offset
  }

  /** Sorted by offset, non-overlapping and inside `text`. */
  predicate WellPlaced(text: string, ms: seq<Match>) {
    Ordered(ms) && EndsBy(ms, |ms|, |text|)
  }

  /** `s` with the code units [offset, offset + length) replaced by `r`. */
  function Splice(s: string, offset: nat, length: nat, r: string): (t: string)
    requires offset + length <= |s|
    ensures |t| == |s| - length + |r|
    ensures t[..offset] == s[..offset]
    ensures t[offset..offset + |r|] == r
    ensures t[offset + |r|..] == s[offset + length..]
  {
    s[..offset] + r + s[offset + length..]
  }

  /**
   * The first `n` matches applied last to first, each at its own original
   * offset: an edit never moves the text in front of it, so no adjustment
   * is needed.
   */
  function ApplyRightToLeftFirst(text: string, ms: seq<Match>, n: nat): string
    requires n <= |ms| && Ordered(ms) && EndsBy(ms, n, |text|)
    decreases n
  {
    if n == 0 then text
    else
      var m := ms[n - 1];
      if HasReplacement(m) then
        ApplyRightToLeftFirst(Splice(text, m.offset, m.length, FirstReplacement(m)), ms, n - 1)
      else
        ApplyRightToLeftFirst(text, ms, n - 1)
  }

  /** All matches of a well-placed list applied right to left. */
  function ApplyRightToLeft(text: string, ms: seq<Match>): string
    requires WellPlaced(text, ms)
  {
    ApplyRightToLeftFirst(text, ms, |ms|)
  }

  /**
   * For each issue in order, its effective offset is where its `original`
   * must stand in the text of the moment; it is replaced there by its
   * `corrected`. None when some issue's `original` is not found there.
   */
  function Replay(s: string, issues: seq<GrammarIssue>, at: seq<int>): Option<string>
    requires |at| == |issues|
  {
    if issues == [] then Some(s)
    else
      match Replay(s, issues[..|issues| - 1], at[..|at| - 1])
      case None => None
      case Some(w) =>
        var issue := issues[|issues| - 1];
        var o := at[|at| - 1];
        if 0 <= o && o + |issue.original| <= |w| && w[o..o + |issue.original|] == issue.original
        then Some(Splice(w, o, |issue.original|, issue.corrected))
        else None
  }

  /**
   * The effective offset of each of the first `n` matches with a
   * replacement: its original offset shifted by the length change of the
   * matches before it.
   */
  function EffectiveOffsetsFirst(ms: seq<Match>, n: nat): (r: seq<int>)
    requires n <= |ms|
    ensures |r| == |AppliedFirst(ms, n)|
  {
    if n == 0 then []
    else
      var m := ms[n - 1];
      if HasReplacement(m) then EffectiveOffsetsFirst(ms, n - 1) + [m.offset + DeltaFirst(ms, n - 1)]
      else EffectiveOffsetsFirst(ms, n - 1)
  }

  /** The effective offsets of all matches with a replacement. */
  function EffectiveOffsets(ms: seq<Match>): seq<int> {
    EffectiveOffsetsFirst(ms, |ms|)
  }

  /**
   * `issues` reports `applied` one for one and in order: each issue carries
   * the category, the match's message and the match's first replacement.
   */
  predicate Reports(applied: seq<Match>, issues: seq<GrammarIssue>) {
    && |issues| == |applied|
    && forall k :: 0 <= k < |issues| ==>
      && HasReplacement(applied[k])
      && issues[k].kind == GrammarError
      && issues[k].description == applied[k].message
      && issues[k].corrected == FirstReplacement(applied[k])
  }

  /** Each issue quotes the original text its match covers. */
  predicate Quotes(text: string, applied: seq<Match>, issues: seq<GrammarIssue>) {
    && |issues| == |applied|
    && forall k :: 0 <= k < |issues| ==>
      && applied[k].offset + applied[k].length <= |text|
      && issues[k].original == text[applied[k].offset..applied[k].offset + applied[k].length]
  }

  lemma ReportsOneMore(applied: seq<Match>, issues: seq<GrammarIssue>, m: Match, issue: GrammarIssue)
    requires Reports(applied, issues) && HasReplacement(m)
    requires issue.kind == GrammarError && issue.description == m.message && issue.corrected == FirstReplacement(m)
    ensures Reports(applied + [m], issues + [issue])
  {
  }

  lemma QuotesOneMore(text: string, applied: seq<Match>, issues: seq<GrammarIssue>, m: Match, issue: GrammarIssue)
    requires Quotes(text, applied, issues)
    requires m.offset + m.length <= |text| && issue.original == text[m.offset..m.offset + m.length]
    ensures Quotes(text, applied + [m], issues + [issue])
  {
  }

  /** In a well-placed list, the matches before match `n` end where it starts. */
  lemma EarlierEndBy(text: string, ms: seq<Match>, n: nat)
    requires WellPlaced(text, ms) && n < |ms|
    ensures EndsBy(ms, n, ms[n].offset)
    ensures ms[n].offset + ms[n].length <= |text|
  {
  }

  /** Applying the edits changes the length of the text by exactly the net change. */
  lemma {:induction false} ApplyRightToLeftLength(text: string, ms: seq<Match>, n: nat)
    requires n <= |ms| && Ordered(ms) && EndsBy(ms, n, |text|)
    ensures |ApplyRightToLeftFirst(text, ms, n)| == |text| + DeltaFirst(ms, n)
    decreases n
  {
    if n > 0 {
      var k := n - 1;
      var m := ms[k];
      if HasReplacement(m) {
        ApplyRightToLeftLength(Splice(text, m.offset, m.length, FirstReplacement(m)), ms, k);
      } else {
        ApplyRightToLeftLength(text, ms, k);
      }
    }
  }

  /** Splicing before position `b` treats `text` and `text[..b]` alike up to `b`. */
  lemma SpliceBefore(text: string, b: nat, o: nat, l: nat, r: string)
    requires o + l <= b <= |text|
    ensures Splice(text, o, l, r)[..o] == Splice(text[..b], o, l, r)[..o]
    ensures Splice(text, o, l, r)[o..] == Splice(text[..b], o, l, r)[o..] + text[b..]
  {
    var t := Splice(text, o, l, r);
    var u := Splice(text[..b], o, l, r);
    assert t[o..] == r + text[o + l..];
    assert u[o..] == r + text[o + l..b];
    assert text[o + l..] == text[o + l..b] + text[b..];
  }

  /**
   * Edits that all end by position `b` leave the text from `b` on alone:
   * applying them to `text` is applying them to `text[..b]` and appending
   * the untouched tail.
   */
  lemma {:induction false} ApplyRightToLeftTail(text: string, ms: seq<Match>, n: nat, b: nat)
    requires n <= |ms| && b <= |text| && Ordered(ms) && EndsBy(ms, n, b)
    ensures EndsBy(ms, n, |text|)
    ensures ApplyRightToLeftFirst(text, ms, n) == ApplyRightToLeftFirst(text[..b], ms, n) + text[b..]
    decreases n
  {
    if n > 0 {
      var k := n - 1;
      var m := ms[k];
      var o := m.offset;
      if HasReplacement(m) {
        var r := FirstReplacement(m);
        var t := Splice(text, o, m.length, r);
        var u := Splice(text[..b], o, m.length, r);
        ApplyRightToLeftTail(t, ms, k, o);
        ApplyRightToLeftTail(u, ms, k, o);
        SpliceBefore(text, b, o, m.length, r);
        assert ApplyRightToLeftFirst(text, ms, n) == ApplyRightToLeftFirst(t, ms, k);
        assert ApplyRightToLeftFirst(text[..b], ms, n) == ApplyRightToLeftFirst(u, ms, k);
      } else {
        ApplyRightToLeftTail(text, ms, k, b);
      }
    }
  }

  /**
   * Where the right-to-left application stands when match `n` of a
   * well-placed list is reached: the edited original text before that
   * match's offset, followed by the untouched original text; applying match
   * `n` as well puts its replacement in place of its span.
   */
  lemma WorkingStringAt(text: string, ms: seq<Match>, n: nat, head: string)
    requires WellPlaced(text, ms) && n < |ms|
    requires EndsBy(ms, n, ms[n].offset)
    requires head == ApplyRightToLeftFirst(text[..ms[n].offset], ms, n)
    ensures |head| == ms[n].offset + DeltaFirst(ms, n)
    ensures ApplyRightToLeftFirst(text, ms, n) == head + text[ms[n].offset..]
    ensures HasReplacement(ms[n]) ==>
      ApplyRightToLeftFirst(text, ms, n + 1) == head + FirstReplacement(ms[n]) + text[ms[n].offset + ms[n].length..]
  {
    var m := ms[n];
    ApplyRightToLeftLength(text[..m.offset], ms, n);
    ApplyRightToLeftTail(text, ms, n, m.offset);
    if HasReplacement(m) {
      var t := Splice(text, m.offset, m.length, FirstReplacement(m));
      ApplyRightToLeftTail(t, ms, n, m.offset);
      assert t[..m.offset] == text[..m.offset];
    }
  }
}
