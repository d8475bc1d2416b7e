/** Searching text and converting its case. */
module Text {

  /** Case conversion of text; nothing is assumed about it. */
  datatype Casing = Casing(lower: string -> string, upper: string -> string)

  predicate At(s: string, i: nat, p: string)
  {
    i + |p| <= |s| && s[i..i + |p|] == p
  }

  predicate Contains(s: string, p: string)
  {
    exists i: nat :: i <= |s| && At(s, i, p)
  }

  /** Something stands before and after p in s. */
  lemma ContainsIff(s: string, p: string)
    ensures Contains(s, p) <==> exists a, b :: s == a + p + b
  {
    if i: nat :| i <= |s| && At(s, i, p) {
      assert s == s[..i] + p + s[i + |p|..];
    }
    if a, b :| s == a + p + b {
      assert s[|a|..|a| + |p|] == p;
      assert At(s, |a|, p);
    }
  }

  predicate EndsWith(s: string, p: string)
  {
    |p| <= |s| && s[|s| - |p|..] == p
  }

  /** The leftmost occurrence of p. */
  function Find(s: string, p: string): (r: nat)
    ensures r <= |s| + 1
    ensures r <= |s| <==> Contains(s, p)
    ensures r <= |s| ==> At(s, r, p)
    ensures forall j: nat :: j < r && j <= |s| ==> !At(s, j, p)
  {
    FindFrom(s, p, 0)
  }

  function FindFrom(s: string, p: string, i: nat): (r: nat)
    requires i <= |s| + 1
    requires forall j: nat :: j < i ==> !At(s, j, p)
    ensures i <= r <= |s| + 1
    ensures r <= |s| ==> At(s, r, p)
    ensures forall j: nat :: j < r ==> !At(s, j, p)
    decreases |s| + 1 - i
  {
    if i == |s| + 1 || At(s, i, p) then i else FindFrom(s, p, i + 1)
  }
}
