/** The case-insensitive keyword regex `/firma|firmado|signature|firmante|firma:|firmado por/i`
    that both anchor finders run over a text item's string. */
module Keywords {

  /** The regex alternatives, in source order. */
  const Alternatives: seq<string> := ["firma", "firmado", "signature", "firmante", "firma:", "firmado por"]

  /** Case folding of the `i` flag. Without the `u` flag a character whose upper case is ASCII
      but which is not itself ASCII never folds onto an ASCII letter, so for these all-ASCII
      keywords folding ASCII letters is exact. */
  function LowerAscii(c: char): char
  {
    if 'A' <= c <= 'Z' then (c as int + 32) as char else c
  }

  function Fold(s: string): string
  {
    seq(|s|, i requires 0 <= i < |s| => LowerAscii(s[i]))
  }

  /** `p` appears in `s` starting at index `i`. */
  predicate OccursAt(p: string, s: string, i: int)
  {
    0 <= i && i + |p| <= |s| && s[i..i + |p|] == p
  }

  /** Substring search, scanning start positions left to right. */
  function Occurs(p: string, s: string): bool
    decreases |s|
  {
    if |p| > |s| then false
    else if s[..|p|] == p then true
    else Occurs(p, s[1..])
  }

  /** The scan finds `p` exactly when some start position holds it. */
  lemma {:induction false} OccursIff(p: string, s: string)
    ensures Occurs(p, s) <==> exists i :: OccursAt(p, s, i)
    decreases |s|
  {
    if |p| > |s| {
    } else if s[..|p|] == p {
      assert OccursAt(p, s, 0);
    } else {
      OccursIff(p, s[1..]);
      if Occurs(p, s[1..]) {
        var i :| OccursAt(p, s[1..], i);
        assert s[1..][i..i + |p|] == s[i + 1..i + 1 + |p|];
        assert OccursAt(p, s, i + 1);
      }
      if i :| OccursAt(p, s, i) {
        assert i != 0;
        assert s[1..][i - 1..i - 1 + |p|] == s[i..i + |p|];
        assert OccursAt(p, s[1..], i - 1);
      }
    }
  }

  /** Wherever a word occurs, every prefix of it occurs too. */
  lemma {:induction false} PrefixOccurs(p: string, q: string, s: string)
    requires |p| <= |q| && q[..|p|] == p
    requires Occurs(q, s)
    ensures Occurs(p, s)
    decreases |s|
  {
    if s[..|q|] == q {
      assert s[..|p|] == s[..|q|][..|p|];
    } else {
      PrefixOccurs(p, q, s[1..]);
    }
  }

  /** `keywords.test(s)`: some alternative matches somewhere, ignoring ASCII case. */
  predicate KeywordTest(s: string)
  {
    exists k :: 0 <= k < |Alternatives| && Occurs(Alternatives[k], Fold(s))
  }

  /** Every alternative starts with "firma" or is "signature", so the six-way regex
      reduces to two substring tests. */
  lemma KeywordTestIff(s: string)
    ensures KeywordTest(s) <==> Occurs("firma", Fold(s)) || Occurs("signature", Fold(s))
  {
    var t := Fold(s);
    if KeywordTest(s) {
      var k :| 0 <= k < |Alternatives| && Occurs(Alternatives[k], t);
      if k != 2 {
        assert Alternatives[k][..5] == "firma";
        PrefixOccurs("firma", Alternatives[k], t);
      }
    }
    if Occurs("firma", t) {
      assert Occurs(Alternatives[0], t);
    }
    if Occurs("signature", t) {
      assert Occurs(Alternatives[2], t);
    }
  }

  /** The empty string (what a missing `str` becomes) never matches. */
  lemma EmptyNeverMatches()
    ensures !KeywordTest("")
  {
    assert Fold("") == "";
  }

  /** Upper-case spellings match: "FIRMA:" is a keyword. */
  lemma UpperCaseMatches()
    ensures KeywordTest("FIRMA:")
  {
    assert Fold("FIRMA:") == "firma:";
    assert Occurs(Alternatives[4], "firma:");
  }
}
