/**
 * Concrete runs of the applicator on small inputs: a single substitution, a
 * later match read correctly after an earlier one grew the text, an
 * insertion, a match without replacements, and a match past the end of the
 * text, which `substring` clamps rather than rejects.
 */
module CorrectorExamples {
  import opened GrammarTypes
  import opened GrammarCorrector
  import opened JsString

  const Msg: string := "Possible agreement error."

  lemma SingleSubstitution()
    ensures
      var r := Run("I has a cat", [Match(2, 3, [Replacement("have")], Msg)]);
      r.corrected == "I have a cat" && r.issues == [GrammarIssue(GrammarError, Msg, "has", "have")]
  {
    var ms := [Match(2, 3, [Replacement("have")], Msg)];
    var t := "I has a cat";
    var r := Step(Progress(t, 0, []), ms[0]);
    assert RunFirst(t, ms, 1) == r;
    assert r.corrected == "I have a cat" by {
      assert Substring(t, 0, 2) == "I " by { assert t[0..2] == "I "; }
      assert SubstringFrom(t, 5) == " a cat" by { assert t[5..] == " a cat"; }
      assert "I " + "have" + " a cat" == "I have a cat";
    }
    assert r.issues == [GrammarIssue(GrammarError, Msg, "has", "have")] by {
      assert Substring(t, 2, 5) == "has" by { assert t[2..5] == "has"; }
    }
  }

  lemma LaterMatchAfterGrowth()
    ensures
      var ms := [Match(3, 1, [Replacement("XX")], "m1"), Match(6, 1, [Replacement("Y")], "m2")];
      var r := Run("a bx cy", ms);
      && r.corrected == "a bXX cY"
      && |r.issues| == 2
      && r.issues[0].original == "x"
      && r.issues[1].original == "y"
      && r.offsetAdjustment == 1
  {
    var ms := [Match(3, 1, [Replacement("XX")], "m1"), Match(6, 1, [Replacement("Y")], "m2")];
    var t := "a bx cy";
    var p := Step(Progress(t, 0, []), ms[0]);
    assert RunFirst(t, ms, 1) == p;
    assert Run(t, ms) == Step(p, ms[1]);
    assert Substring(t, 3, 4) == "x" by { assert t[3..4] == "x"; }
    assert Substring(t, 0, 3) == "a b" by { assert t[0..3] == "a b"; }
    assert SubstringFrom(t, 4) == " cy" by { assert t[4..] == " cy"; }
    var u := "a bXX cy";
    assert p.corrected == u;
    assert Substring(u, 7, 8) == "y" by { assert u[7..8] == "y"; }
    assert Substring(u, 0, 7) == "a bXX c" by { assert u[0..7] == "a bXX c"; }
    assert SubstringFrom(u, 8) == [] by { assert u[8..] == []; }
    assert "a bXX c" + "Y" + [] == "a bXX cY";
  }

  lemma InsertionQuotesNothing()
    ensures
      var r := Run("a cat", [Match(1, 0, [Replacement(" big")], Msg)]);
      r.corrected == "a big cat" && r.issues == [GrammarIssue(GrammarError, Msg, "", " big")]
  {
    var ms := [Match(1, 0, [Replacement(" big")], Msg)];
    var t := "a cat";
    var r := Step(Progress(t, 0, []), ms[0]);
    assert RunFirst(t, ms, 1) == r;
    assert r.corrected == "a big cat" by {
      assert Substring(t, 0, 1) == "a" by { assert t[0..1] == "a"; }
      assert SubstringFrom(t, 1) == " cat" by { assert t[1..] == " cat"; }
      assert "a" + " big" + " cat" == "a big cat";
    }
    assert r.issues == [GrammarIssue(GrammarError, Msg, "", " big")] by {
      assert Substring(t, 1, 1) == [];
    }
  }

  lemma NoReplacementIsSkipped()
    ensures
      var r := Run("a cat", [Match(0, 1, [], Msg)]);
      r.corrected == "a cat" && r.issues == [] && r.offsetAdjustment == 0
  {
    var ms := [Match(0, 1, [], Msg)];
    assert RunFirst("a cat", ms, 1) == Step(Progress("a cat", 0, []), ms[0]);
  }

  lemma PastTheEndIsClamped()
    ensures
      var r := Run("ab", [Match(5, 1, [Replacement("X")], Msg)]);
      r.corrected == "abX" && r.issues == [GrammarIssue(GrammarError, Msg, "", "X")] && r.offsetAdjustment == 0
  {
    var ms := [Match(5, 1, [Replacement("X")], Msg)];
    var t := "ab";
    assert RunFirst(t, ms, 1) == Step(Progress(t, 0, []), ms[0]);
    assert Substring(t, 5, 6) == [];
    assert Substring(t, 0, 5) == "ab" by { assert t[0..2] == t; }
    assert SubstringFrom(t, 6) == [];
    assert "ab" + "X" + [] == "abX";
  }
}
