/** Stat names: fields joined by `>>>`, split at the leftmost separators. */
module StatNames {
  import opened Text

  const SEP := ">>>"

  function Split(s: string): (parts: seq<string>)
    ensures parts != []
  {
    var i := Find(s, SEP);
    if i <= |s| then [s[..i]] + Split(s[i + 3..]) else [s]
  }

  function Join(parts: seq<string>): string
    requires parts != []
  {
    if |parts| == 1 then parts[0] else parts[0] + ">>>" + Join(parts[1..])
  }

  /** A part that a separator may follow without being found too early. */
  predicate Plain(p: string)
  {
    !Contains(p, ">>>") && !EndsWith(p, ">")
  }

  ghost predicate WellSplit(parts: seq<string>)
  {
    && parts != []
    && (forall i :: 0 <= i < |parts| - 1 ==> Plain(parts[i]))
    && !Contains(parts[|parts| - 1], ">>>")
  }

  lemma AtShift(a: string, s: string, i: nat, p: string)
    ensures At(a + s, |a| + i, p) <==> At(s, i, p)
  {
    if i + |p| <= |s| {
      assert (a + s)[|a| + i..|a| + i + |p|] == s[i..i + |p|];
    }
  }

  lemma AtPrefix(a: string, s: string, i: nat, p: string)
    requires i + |p| <= |a|
    ensures At(a + s, i, p) <==> At(a, i, p)
  {
    assert (a + s)[i..i + |p|] == a[i..i + |p|];
  }

  lemma SeparatorAt(s: string, i: nat)
    requires At(s, i, SEP)
    ensures s[i] == '>' && s[i + 1] == '>' && s[i + 2] == '>'
  {
    assert s[i] == s[i..i + 3][0] && s[i + 1] == s[i..i + 3][1] && s[i + 2] == s[i..i + 3][2];
  }

  lemma PlainHasNoneEarlier(p: string, rest: string, j: nat)
    requires Plain(p) && j < |p|
    ensures !At(p + SEP + rest, j, SEP)
  {
    var s, n := p + SEP + rest, |p|;
    assert s == p + (SEP + rest);
    assert p[n - 1..] == [p[n - 1]] && s[n - 1] == p[n - 1];
    if j + 3 <= n {
      AtPrefix(p, SEP + rest, j, SEP);
    } else if At(s, j, SEP) {
      SeparatorAt(s, j);
    }
  }

  lemma OtherwiseOneEarlier(p: string, rest: string) returns (j: nat)
    requires !Plain(p)
    ensures j < |p| && At(p + SEP + rest, j, SEP)
  {
    var s, n := p + SEP + rest, |p|;
    assert s == p + (SEP + rest);
    if Contains(p, SEP) {
      j := Find(p, SEP);
      AtPrefix(p, SEP + rest, j, SEP);
    } else {
      j := n - 1;
      assert p[j] == p[j..][0] == '>';
      assert s[j..j + 3] == [s[j], s[n], s[n + 1]];
      assert s[n] == SEP[0] && s[n + 1] == SEP[1];
    }
  }

  /** A first part ends where the first separator is found exactly when it is plain. */
  lemma FindAfter(p: string, rest: string)
    ensures Find(p + SEP + rest, SEP) == |p| <==> Plain(p)
  {
    var s := p + SEP + rest;
    assert s[|p|..|p| + 3] == SEP;
    assert At(s, |p|, SEP);
    if Plain(p) {
      forall j: nat | j < |p|
        ensures !At(s, j, SEP)
      {
        PlainHasNoneEarlier(p, rest, j);
      }
    } else {
      var j := OtherwiseOneEarlier(p, rest);
    }
  }

  lemma SplitCons(p: string, rest: string)
    requires Plain(p)
    ensures Split(p + SEP + rest) == [p] + Split(rest)
  {
    FindAfter(p, rest);
    var s := p + SEP + rest;
    assert s[..|p|] == p && s[|p| + 3..] == rest;
  }

  /** Joining the parts gives the name back, and no separator was missed or taken late. */
  lemma {:induction false} SplitIsWell(s: string)
    ensures Join(Split(s)) == s && WellSplit(Split(s))
  {
    var i := Find(s, SEP);
    if i <= |s| {
      var p, rest := s[..i], s[i + 3..];
      assert s == p + SEP + rest;
      FindAfter(p, rest);
      SplitIsWell(rest);
      assert Split(s)[1..] == Split(rest);
    }
  }

  lemma WellSplitTail(parts: seq<string>)
    requires WellSplit(parts) && |parts| > 1
    ensures Plain(parts[0]) && WellSplit(parts[1..])
  {
  }

  lemma {:induction false} JoinSplits(parts: seq<string>)
    requires WellSplit(parts)
    ensures Split(Join(parts)) == parts
  {
    if |parts| > 1 {
      var p, rest := parts[0], parts[1..];
      WellSplitTail(parts);
      JoinSplits(rest);
      SplitCons(p, Join(rest));
      assert [p] + rest == parts;
    }
  }

  /** The parts of a name are the only well-split list that joins to it. */
  lemma SplitIff(s: string, parts: seq<string>)
    ensures Split(s) == parts <==> WellSplit(parts) && Join(parts) == s
  {
    SplitIsWell(s);
    if WellSplit(parts) {
      JoinSplits(parts);
    }
  }

  /** Splitting undoes joining exactly on the well-split lists. */
  lemma SplitJoinIff(parts: seq<string>)
    requires parts != []
    ensures Split(Join(parts)) == parts <==> WellSplit(parts)
  {
    SplitIff(Join(parts), parts);
  }

  // ----- What the user pattern matches -----

  const USER_PATTERN := "user>>>"

  lemma PatternHere(s: string, q: nat)
    ensures At(s, q, USER_PATTERN) <==> At(s, q, "user") && At(s, q + 4, SEP)
  {
    if q + 7 <= |s| {
      assert s[q..q + 7] == s[q..q + 4] + s[q + 4..q + 7];
      assert USER_PATTERN == "user" + SEP;
      assert At(s, q, USER_PATTERN) ==> s[q..q + 4] == s[q..q + 7][..4] == USER_PATTERN[..4] == "user";
    }
  }

  lemma LettersOfUser(s: string, q: nat)
    requires At(s, q, "user")
    ensures forall j :: q <= j < q + 4 ==> s[j] != '>'
  {
    assert forall j :: q <= j < q + 4 ==> s[j] == s[q..q + 4][j - q];
  }

  lemma PatternFound(p: string, rest: string)
    requires EndsWith(p, "user") || Contains(rest, USER_PATTERN)
    ensures Contains(p + SEP + rest, USER_PATTERN)
  {
    var s, n := p + SEP + rest, |p|;
    if EndsWith(p, "user") {
      assert s[n - 4..n] == p[n - 4..] && s[n..n + 3] == SEP;
      PatternHere(s, n - 4);
    } else {
      var q := Find(rest, USER_PATTERN);
      AtShift(p + SEP, rest, q, USER_PATTERN);
      assert At(s, n + 3 + q, USER_PATTERN);
    }
  }

  /** The word and the separator after it cannot overlap an earlier separator. */
  lemma PatternPosition(s: string, n: nat, q: nat)
    requires At(s, n, SEP) && At(s, q, "user") && n <= q + 4
    ensures q + 4 == n || q >= n + 3
  {
    LettersOfUser(s, q);
    SeparatorAt(s, n);
    assert s[q] != '>' && s[q + 1] != '>' && s[q + 2] != '>' && s[q + 3] != '>';
  }

  lemma PatternLocated(p: string, rest: string)
    requires Plain(p) && Contains(p + SEP + rest, USER_PATTERN)
    ensures EndsWith(p, "user") || Contains(rest, USER_PATTERN)
  {
    var s, n := p + SEP + rest, |p|;
    var q := Find(s, USER_PATTERN);
    FindAfter(p, rest);
    PatternHere(s, q);
    PatternPosition(s, n, q);
    if q + 4 == n {
      assert p[n - 4..] == s[q..q + 4];
    } else {
      AtShift(p + SEP, rest, q - n - 3, USER_PATTERN);
    }
  }

  ghost predicate EndsInUser(parts: seq<string>, n: nat)
  {
    n < |parts| - 1 && EndsWith(parts[n], "user")
  }

  lemma EndsInUserCons(p: string, rest: seq<string>)
    requires rest != []
    ensures (exists n: nat :: EndsInUser([p] + rest, n)) <==> EndsWith(p, "user") || exists n: nat :: EndsInUser(rest, n)
  {
    var parts := [p] + rest;
    assert parts[0] == p && forall n: nat :: n < |rest| ==> parts[n + 1] == rest[n];
    assert EndsInUser(parts, 0) <==> EndsWith(p, "user");
    forall n: nat | EndsInUser(rest, n)
      ensures EndsInUser(parts, n + 1)
    {
    }
    forall n: nat | EndsInUser(parts, n) && n != 0
      ensures EndsInUser(rest, n - 1)
    {
    }
  }

  /** A name contains the pattern exactly when a part before the last ends in "user". */
  lemma {:induction false} PatternIff(s: string)
    ensures Contains(s, "user>>>") <==> exists n: nat :: EndsInUser(Split(s), n)
  {
    var i := Find(s, SEP);
    if i <= |s| {
      var p, rest := s[..i], s[i + 3..];
      assert s == p + SEP + rest;
      FindAfter(p, rest);
      PatternIff(rest);
      EndsInUserCons(p, Split(rest));
      assert Split(s) == [p] + Split(rest);
      if Contains(s, USER_PATTERN) {
        PatternLocated(p, rest);
      } else if EndsWith(p, "user") || Contains(rest, USER_PATTERN) {
        PatternFound(p, rest);
      }
    } else if Contains(s, USER_PATTERN) {
      PatternHere(s, Find(s, USER_PATTERN));
    }
  }
}
