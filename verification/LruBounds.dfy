/**
 * Properties of whole runs of the replacement policy: inclusion between
 * capacities, bounds on how often a client is created, and the comparison with
 * every other policy that caches each request.
 */
module LruBounds {
  import opened Basics
  import opened Clients
  import opened Lru

  // ----- Inclusion between capacities -----

  /** A larger cache holds, in recency order, all a smaller one holds and maybe more. */
  lemma {:induction false} Inclusion(k: nat, m: nat, h: seq<Key>)
    requires k <= m
    ensures Run(k, h) <= Run(m, h)
    ensures forall i: nat | i < |h| :: Misses(m, h, i) ==> Misses(k, h, i)
    ensures Creations(m, h) <= Creations(k, h)
  {
    RunIsRecency(k, h);
    RunIsRecency(m, h);
    forall i: nat | i < |h| && Misses(m, h, i)
      ensures Misses(k, h, i)
    {
      RunIsRecency(k, h[..i]);
      RunIsRecency(m, h[..i]);
    }
    if h != [] {
      Inclusion(k, m, h[..|h| - 1]);
    }
  }

  // ----- Creations within a segment -----

  /** When at most k distinct keys are requested after a, a key repeated there is a hit. */
  lemma SegmentCreatesOnce(k: nat, a: seq<Key>, b: seq<Key>, i: nat, j: nat)
    requires |Elems(b)| <= k
    requires |a| <= i < j < |a + b| && (a + b)[i] == (a + b)[j]
    ensures !Misses(k, a + b, j)
  {
    var h := a + b;
    assert forall x :: x in h[..j][i..] ==> x in b;
    SubsetSize(Elems(h[..j][i..]), Elems(b));
    assert ReusedWithin(k, h[..j], h[j], i);
    ResidentIff(k, h[..j], h[j]);
  }

  function Reverse(s: seq<Key>): (r: seq<Key>)
    ensures |r| == |s|
  {
    if s == [] then [] else Reverse(s[1..]) + [s[0]]
  }

  /** Every duplicate-free state within the capacity is reached by some history. */
  lemma {:induction false} EveryStateReachable(k: nat, s: seq<Key>)
    requires Distinct(s) && |s| <= k
    ensures Run(k, Reverse(s)) == s
  {
    if s != [] {
      EveryStateReachable(k, s[1..]);
      assert Reverse(s)[..|s| - 1] == Reverse(s[1..]);
      WithoutAbsent(s[1..], s[0]);
    }
  }

  // ----- Evictions -----

  predicate EvictedAt(k: nat, h: seq<Key>, x: Key, e: nat)
    requires e < |h|
  {
    x in Run(k, h[..e]) && x !in Run(k, h[..e + 1])
  }

  lemma {:induction false} WithoutElems(s: seq<Key>, x: Key)
    ensures Elems(Without(s, x)) == Elems(s) - {x}
  {
    if s != [] {
      WithoutElems(s[1..], x);
      assert s == [s[0]] + s[1..];
      ElemsAppend([s[0]], s[1..]);
      ElemsAppend([s[0]], Without(s[1..], x));
    }
  }

  lemma TouchResident(k: nat, s: seq<Key>, x: Key)
    requires Distinct(s) && |s| <= k && x in s
    ensures Elems(Touch(k, s, x)) == Elems(s)
  {
    var p :| 0 <= p < |s| && s[p] == x;
    WithoutAt(s, p);
    WithoutElems(s, x);
    ElemsCons(x, Without(s, x));
  }

  lemma TouchAbsent(k: nat, s: seq<Key>, x: Key)
    requires 0 < k && |s| <= k && x !in s
    ensures Touch(k, s, x) == [x] + if |s| < k then s else s[..k - 1]
  {
    WithoutAbsent(s, x);
  }

  /** What disappears is the least recently used key of a full cache, on a miss. */
  lemma OnlyTheOldestIsEvicted(k: nat, h: seq<Key>, x: Key, e: nat)
    requires 0 < k && e < |h| && EvictedAt(k, h, x, e)
    ensures Misses(k, h, e) && |Run(k, h[..e])| == k && Run(k, h[..e])[k - 1] == x
    ensures Run(k, h[..e + 1]) == [h[e]] + Run(k, h[..e])[..k - 1]
  {
    var s := Run(k, h[..e]);
    assert h[..e + 1][..e] == h[..e];
    RunIsRecency(k, h[..e]);
    assert x in Elems(s) && x !in Elems(Touch(k, s, h[e]));
    if h[e] in s {
      TouchResident(k, s, h[e]);
    }
    TouchAbsent(k, s, h[e]);
    LostFromFront(k, s, h[e], x);
  }

  lemma LostFromFront(k: nat, s: seq<Key>, y: Key, x: Key)
    requires 0 < k && |s| <= k && x in s && x !in [y] + if |s| < k then s else s[..k - 1]
    ensures |s| == k && s[k - 1] == x
  {
    assert |s| == k ==> s == s[..k - 1] + [s[k - 1]];
  }

  // ----- Other policies -----

  /**
   * The contents of a cache of capacity c under some policy, before and after
   * each request: it starts empty, always caches the request, and only the
   * requested key may enter; what it drops, and when, is up to the policy.
   */
  ghost predicate PolicyRun(c: nat, h: seq<Key>, contents: seq<set<Key>>)
  {
    && |contents| == |h| + 1
    && if h == [] then contents[0] == {} else
      var n := |h| - 1;
      && PolicyRun(c, h[..n], contents[..|h|])
      && |contents[|h|]| <= c
      && h[n] in contents[|h|]
      && contents[|h|] <= contents[n] + {h[n]}
  }

  ghost function PolicyCreations(h: seq<Key>, contents: seq<set<Key>>): nat
    requires |contents| == |h| + 1
  {
    if h == [] then 0
    else
      var n := |h| - 1;
      PolicyCreations(h[..n], contents[..|h|]) + if h[n] in contents[n] then 0 else 1
  }

  /** The least-recently-used policy is one of them, with the same creations. */
  lemma {:induction false} LruIsAPolicy(k: nat, h: seq<Key>) returns (contents: seq<set<Key>>)
    requires 0 < k
    ensures PolicyRun(k, h, contents) && PolicyCreations(h, contents) == Creations(k, h)
    ensures contents[|h|] == Elems(Run(k, h))
  {
    RunIsRecency(k, h);
    DistinctCount(Run(k, h));
    if h == [] {
      contents := [{}];
    } else {
      var g, x := h[..|h| - 1], h[|h| - 1];
      var earlier := LruIsAPolicy(k, g);
      contents := earlier + [Elems(Run(k, h))];
      assert contents[..|h|] == earlier;
      TouchElems(k, Run(k, g), x);
    }
  }

  lemma TouchElems(k: nat, s: seq<Key>, x: Key)
    requires 0 < k
    ensures x in Elems(Touch(k, s, x)) && Elems(Touch(k, s, x)) <= Elems(s) + {x}
  {
    WithoutElems(s, x);
    ElemsCons(x, Without(s, x));
    assert Touch(k, s, x)[0] == x;
    assert forall y :: y in Touch(k, s, x) ==> y in [x] + Without(s, x);
  }

  // ----- The competitive bound -----

  lemma CreationsExtend(k: nat, a: seq<Key>, x: Key)
    ensures Run(k, a + [x]) == Touch(k, Run(k, a), x)
    ensures Creations(k, a + [x]) == Creations(k, a) + if x in Run(k, a) then 0 else 1
  {
    assert (a + [x])[..|a|] == a;
  }

  /** A key missed although requested before in [last of a] + b forces k other keys. */
  lemma RepeatedMissIsWide(k: nat, a: seq<Key>, b: seq<Key>, x: Key)
    requires a != [] && x !in Run(k, a + b) && (x == a[|a| - 1] || x in b)
    ensures |Elems(b) - {a[|a| - 1]}| >= k
  {
    var p, h := a[|a| - 1], a + b;
    var n: nat := |a| - 1;
    assert h[n..] == [p] + b;
    var i: nat := LastUse(h[n..], x);
    assert h[n + i] == x;
    assert !ReusedWithin(k, h, x, n + i) by {
      ResidentIff(k, h, x);
    }
    assert h[n + i..] == ([p] + b)[i..];
    WidthOfSuffix(p, b, i);
  }

  lemma WidthOfSuffix(p: Key, b: seq<Key>, i: nat)
    requires i <= |b|
    ensures |Elems(([p] + b)[i..])| <= |Elems(b) - {p}| + 1
  {
    assert forall y :: y in ([p] + b)[i..] ==> y in [p] + b;
    ElemsCons(p, b);
    SubsetSize(Elems(([p] + b)[i..]), {p} + Elems(b));
    assert {p} + Elems(b) == {p} + (Elems(b) - {p});
  }

  lemma WidthGrows(s: set<Key>, x: Key, p: Key)
    ensures |(s + {x}) - {p}| >= |s - {p}|
    ensures x !in s && x != p ==> |(s + {x}) - {p}| == |s - {p}| + 1
  {
    SubsetSize(s - {p}, (s + {x}) - {p});
    if x !in s && x != p {
      assert (s + {x}) - {p} == (s - {p}) + {x};
    }
  }

  /** A segment with k misses requests k keys besides the one requested just before it. */
  lemma {:induction false} ManyMissesAreWide(k: nat, a: seq<Key>, b: seq<Key>)
    requires a != []
    ensures |Elems(b) - {a[|a| - 1]}| >= k || |Elems(b) - {a[|a| - 1]}| >= Creations(k, a + b) - Creations(k, a)
  {
    var p := a[|a| - 1];
    if b == [] {
      assert a + b == a;
    } else {
      var x, c := b[|b| - 1], b[..|b| - 1];
      assert b == c + [x] && a + b == (a + c) + [x];
      ManyMissesAreWide(k, a, c);
      CreationsExtend(k, a + c, x);
      ElemsSnoc(c, x);
      WidthGrows(Elems(c), x, p);
      if x !in Run(k, a + c) && (x == p || x in c) {
        RepeatedMissIsWide(k, a, c, x);
      }
    }
  }

  /** One more request: what a policy run is made of. */
  lemma PolicyLast(c: nat, g: seq<Key>, x: Key, contents: seq<set<Key>>)
    requires PolicyRun(c, g + [x], contents)
    ensures var before := contents[..|g| + 1];
            && PolicyRun(c, g, before)
            && PolicyCreations(g + [x], contents) ==
               PolicyCreations(g, before) + (if x in contents[|g|] then 0 else 1)
            && contents[|g| + 1] <= contents[|g|] + {x}
  {
    assert (g + [x])[..|g|] == g;
  }

  /** A policy pays for every key of b that it did not hold when b began. */
  lemma {:induction false} PolicyPays(c: nat, a: seq<Key>, b: seq<Key>, contents: seq<set<Key>>)
    requires PolicyRun(c, a + b, contents)
    ensures PolicyRun(c, a, contents[..|a| + 1])
    ensures PolicyCreations(a + b, contents) >= PolicyCreations(a, contents[..|a| + 1]) + |Elems(b) - contents[|a|]|
    ensures contents[|a + b|] <= contents[|a|] + Elems(b)
    decreases |b|
  {
    if b == [] {
      assert a + b == a;
      assert contents[..|a| + 1] == contents;
      assert Elems(b) - contents[|a|] == {};
    } else {
      var x, d := b[|b| - 1], b[..|b| - 1];
      var before := contents[..|a + d| + 1];
      assert b == d + [x] && a + b == (a + d) + [x];
      PolicyLast(c, a + d, x, contents);
      PolicyPays(c, a, d, before);
      PayOneMore(c, a, d, x, contents);
    }
  }

  lemma PayOneMore(c: nat, a: seq<Key>, d: seq<Key>, x: Key, contents: seq<set<Key>>)
    requires |contents| == |a + d| + 2
    requires var before := contents[..|a + d| + 1];
             && PolicyRun(c, a, before[..|a| + 1])
             && PolicyCreations(a + d, before) >= PolicyCreations(a, before[..|a| + 1]) + |Elems(d) - before[|a|]|
             && before[|a + d|] <= before[|a|] + Elems(d)
             && PolicyCreations((a + d) + [x], contents) ==
                PolicyCreations(a + d, before) + (if x in contents[|a + d|] then 0 else 1)
             && contents[|a + d| + 1] <= contents[|a + d|] + {x}
    ensures PolicyRun(c, a, contents[..|a| + 1])
    ensures PolicyCreations((a + d) + [x], contents) >=
            PolicyCreations(a, contents[..|a| + 1]) + |Elems(d + [x]) - contents[|a|]|
    ensures contents[|a + d| + 1] <= contents[|a|] + Elems(d + [x])
  {
    assert contents[..|a + d| + 1][..|a| + 1] == contents[..|a| + 1];
    ElemsSnoc(d, x);
    NewlyHeld(Elems(d), x, contents[|a|], contents[|a + d|]);
  }

  lemma NewlyHeld(s: set<Key>, x: Key, start: set<Key>, now: set<Key>)
    requires now <= start + s
    ensures |(s + {x}) - start| <= |s - start| + if x in now then 0 else 1
  {
    if x in now {
      assert (s + {x}) - start == s - start;
    } else {
      SubsetSize((s + {x}) - start, (s - start) + {x});
    }
  }

  /** Splits a run just before its last n misses. */
  lemma {:induction false} SplitAtMisses(k: nat, h: seq<Key>, n: nat) returns (m: nat)
    requires n <= Creations(k, h)
    ensures m <= |h| && Creations(k, h[..m]) == Creations(k, h) - n
  {
    if n == 0 {
      m := |h|;
      assert h[..m] == h;
    } else {
      var g := h[..|h| - 1];
      m := SplitAtMisses(k, g, if Misses(k, h, |h| - 1) then n - 1 else n);
      assert h[..m] == g[..m];
    }
  }

  lemma ResidentIfFew(k: nat, g: seq<Key>, x: Key)
    requires |Elems(g)| <= k
    ensures x in Run(k, g) <==> x in Elems(g)
  {
    RunIsRecency(k, g);
    RecencyElems(g, {});
    assert Elems(g) - {} == Elems(g);
    assert Run(k, g) == Recency(g, {});
    assert x in Recency(g, {}) <==> x in Elems(Recency(g, {}));
  }

  lemma {:induction false} FewCreations(k: nat, h: seq<Key>)
    ensures |Elems(h)| <= k ==> Creations(k, h) == |Elems(h)|
    ensures |Elems(h)| > k ==> Creations(k, h) > k
  {
    if h != [] {
      var x, g := h[|h| - 1], h[..|h| - 1];
      assert h == g + [x];
      FewCreations(k, g);
      ElemsSnoc(g, x);
      if |Elems(g)| <= k {
        ResidentIfFew(k, g, x);
      }
      if x in Elems(g) {
        assert Elems(h) == Elems(g);
      }
    }
  }

  /** While nothing had to be evicted, no policy does better. */
  lemma FewCreationsAreNeeded(k: nat, c: nat, h: seq<Key>, contents: seq<set<Key>>)
    requires PolicyRun(c, h, contents) && Creations(k, h) <= k
    ensures Creations(k, h) <= PolicyCreations(h, contents)
  {
    FewCreations(k, h);
    assert [] + h == h;
    PolicyPays(c, [], h, contents);
    assert contents[..1][0] == {};
    assert Elems(h) - contents[0] == Elems(h);
  }

  /** Over a segment with k misses, a policy of capacity c creates at least k - c + 1 clients. */
  lemma SegmentIsPaid(k: nat, c: nat, a: seq<Key>, b: seq<Key>, contents: seq<set<Key>>)
    requires 0 < c <= k && a != [] && PolicyRun(c, a + b, contents)
    requires Creations(k, a + b) == Creations(k, a) + k
    ensures PolicyRun(c, a, contents[..|a| + 1])
    ensures PolicyCreations(a + b, contents) >= PolicyCreations(a, contents[..|a| + 1]) + (k - c + 1)
  {
    ManyMissesAreWide(k, a, b);
    PolicyPays(c, a, b, contents);
    var early := contents[..|a| + 1];
    assert PolicyRun(c, a, early);
    assert early[|a|] == contents[|a|];
    HeldIsSmall(c, Elems(b), contents[|a|], a[|a| - 1]);
  }

  /** The bound carries over from a run to its continuation by k more misses. */
  lemma BoundExtends(k: nat, c: nat, a: seq<Key>, b: seq<Key>, contents: seq<set<Key>>)
    requires 0 < c <= k && a != [] && PolicyRun(c, a + b, contents)
    requires Creations(k, a + b) == Creations(k, a) + k
    requires PolicyRun(c, a, contents[..|a| + 1])
    requires (k - c + 1) * Creations(k, a) <= k * PolicyCreations(a, contents[..|a| + 1])
    ensures (k - c + 1) * Creations(k, a + b) <= k * PolicyCreations(a + b, contents)
  {
    SegmentIsPaid(k, c, a, b, contents);
    var before, paid := PolicyCreations(a, contents[..|a| + 1]), PolicyCreations(a + b, contents);
    Distribute(k - c + 1, k, Creations(k, a), before, paid);
  }

  lemma SplitOff(k: nat, h: seq<Key>) returns (a: seq<Key>, b: seq<Key>)
    requires 0 < k < Creations(k, h)
    ensures h == a + b && a != [] && |a| < |h| && Creations(k, h) == Creations(k, a) + k
  {
    var m := SplitAtMisses(k, h, k);
    a, b := h[..m], h[m..];
    assert h[..|h|] == h;
  }

  /**
   * Against any policy of capacity c <= k, on any requests, the creations of the
   * least-recently-used cache of capacity k are at most k / (k - c + 1) times as many.
   */
  lemma {:induction false} Competitive(k: nat, c: nat, h: seq<Key>, contents: seq<set<Key>>)
    requires 0 < c <= k && PolicyRun(c, h, contents)
    ensures (k - c + 1) * Creations(k, h) <= k * PolicyCreations(h, contents)
    decreases |h|
  {
    if Creations(k, h) <= k {
      FewCreationsAreNeeded(k, c, h, contents);
      MulMonotone(k - c + 1, k, Creations(k, h), PolicyCreations(h, contents));
    } else {
      var a, b := SplitOff(k, h);
      PolicyPays(c, a, b, contents);
      Competitive(k, c, a, contents[..|a| + 1]);
      BoundExtends(k, c, a, b, contents);
    }
  }

  lemma HeldIsSmall(c: nat, s: set<Key>, held: set<Key>, p: Key)
    requires p in held && |held| <= c
    ensures |s - held| >= |s - {p}| - (c - 1)
  {
    var rest := held - {p};
    assert s - {p} <= (s - held) + rest;
    SubsetSize(s - {p}, (s - held) + rest);
    assert |(s - held) + rest| <= |s - held| + |rest|;
  }

  lemma MulMonotone(a: nat, b: nat, x: nat, y: nat)
    requires a <= b && x <= y
    ensures a * x <= b * y
  {
    assert b * y - a * x == (b - a) * y + a * (y - x);
  }

  lemma Distribute(w: nat, k: nat, lru: nat, before: nat, paid: nat)
    requires w * lru <= k * before && paid >= before + w
    ensures w * (lru + k) <= k * paid
  {
    MulMonotone(k, k, before + w, paid);
    assert w * (lru + k) == w * lru + w * k;
    assert k * (before + w) == k * before + k * w;
  }
}
