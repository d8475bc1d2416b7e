/**
 * The replacement policy of the client cache, seen on keys alone.
 *
 * A history is the sequence of requested keys, oldest first; a cache state is
 * the sequence of resident keys, most recently used first.
 */
module Lru {
  import opened Basics
  import opened Clients

  function Elems(s: seq<Key>): set<Key>
  {
    set x | x in s
  }

  function Take(k: nat, s: seq<Key>): seq<Key>
  {
    if |s| <= k then s else s[..k]
  }

  function Without(s: seq<Key>, x: Key): seq<Key>
  {
    if s == [] then []
    else if s[0] == x then Without(s[1..], x)
    else [s[0]] + Without(s[1..], x)
  }

  /** A request makes its key the most recent one; the state keeps at most k keys. */
  function Touch(k: nat, s: seq<Key>, x: Key): seq<Key>
  {
    Take(k, [x] + Without(s, x))
  }

  function Run(k: nat, h: seq<Key>): seq<Key>
  {
    if h == [] then [] else Touch(k, Run(k, h[..|h| - 1]), h[|h| - 1])
  }

  predicate Misses(k: nat, h: seq<Key>, i: nat)
    requires i < |h|
  {
    h[i] !in Run(k, h[..i])
  }

  /** Clients created by a run from an empty cache. */
  function Creations(k: nat, h: seq<Key>): nat
  {
    if h == [] then 0
    else Creations(k, h[..|h| - 1]) + if Misses(k, h, |h| - 1) then 1 else 0
  }

  /** The distinct keys of h outside `seen`, read backwards from the end of h. */
  function Recency(h: seq<Key>, seen: set<Key>): seq<Key>
  {
    if h == [] then []
    else
      var x, g := h[|h| - 1], h[..|h| - 1];
      if x in seen then Recency(g, seen) else [x] + Recency(g, seen + {x})
  }

  // ----- Sequences of keys -----

  lemma ElemsAppend(a: seq<Key>, b: seq<Key>)
    ensures Elems(a + b) == Elems(a) + Elems(b)
  {
    assert forall x :: x in a + b <==> x in a || x in b;
  }

  lemma ElemsSnoc(g: seq<Key>, x: Key)
    ensures Elems(g + [x]) == Elems(g) + {x}
  {
    ElemsAppend(g, [x]);
    assert Elems([x]) == {x};
  }

  lemma ElemsCons(x: Key, g: seq<Key>)
    ensures Elems([x] + g) == {x} + Elems(g)
  {
    ElemsAppend([x], g);
    assert Elems([x]) == {x};
  }

  lemma {:induction false} DistinctCount(s: seq<Key>)
    requires Distinct(s)
    ensures |Elems(s)| == |s|
  {
    if s != [] {
      var g, x := s[..|s| - 1], s[|s| - 1];
      assert s == g + [x];
      DistinctCount(g);
      ElemsSnoc(g, x);
      assert x !in g;
    }
  }

  lemma {:induction false} WithoutAbsent(s: seq<Key>, x: Key)
    requires x !in s
    ensures Without(s, x) == s
  {
    if s != [] {
      WithoutAbsent(s[1..], x);
    }
  }

  lemma {:induction false} WithoutAt(s: seq<Key>, p: nat)
    requires Distinct(s) && p < |s|
    ensures Without(s, s[p]) == s[..p] + s[p + 1..]
  {
    if p == 0 {
      WithoutAbsent(s[1..], s[0]);
    } else {
      WithoutAt(s[1..], p - 1);
      assert s[..p] == [s[0]] + s[1..][..p - 1];
    }
  }

  lemma SubsetSize(a: set<Key>, b: set<Key>)
    requires a <= b
    ensures |a| <= |b|
  {
    assert b == a + (b - a);
  }

  // ----- Recency -----

  lemma {:induction false} RecencySet(h: seq<Key>, seen: set<Key>)
    ensures Elems(Recency(h, seen)) == Elems(h) - seen
  {
    if h != [] {
      var x, g := h[|h| - 1], h[..|h| - 1];
      assert h == g + [x];
      ElemsSnoc(g, x);
      if x in seen {
        RecencySet(g, seen);
      } else {
        RecencySet(g, seen + {x});
        ElemsCons(x, Recency(g, seen + {x}));
      }
    }
  }

  lemma {:induction false} RecencyDistinct(h: seq<Key>, seen: set<Key>)
    ensures Distinct(Recency(h, seen))
  {
    if h != [] {
      var x, g := h[|h| - 1], h[..|h| - 1];
      if x in seen {
        RecencyDistinct(g, seen);
      } else {
        var r := Recency(g, seen + {x});
        RecencyDistinct(g, seen + {x});
        RecencySet(g, seen + {x});
        assert x !in Elems(r);
        assert forall i :: 0 <= i < |r| ==> r[i] in Elems(r);
      }
    }
  }

  lemma RecencyElems(h: seq<Key>, seen: set<Key>)
    ensures Elems(Recency(h, seen)) == Elems(h) - seen
    ensures Distinct(Recency(h, seen))
    ensures |Recency(h, seen)| == |Elems(h) - seen|
  {
    RecencySet(h, seen);
    RecencyDistinct(h, seen);
    DistinctCount(Recency(h, seen));
  }

  lemma {:induction false} RecencySplit(a: seq<Key>, b: seq<Key>, seen: set<Key>)
    ensures Recency(a + b, seen) == Recency(b, seen) + Recency(a, seen + Elems(b))
    decreases |b|
  {
    if b == [] {
      assert a + b == a;
      assert seen + Elems(b) == seen;
    } else {
      var x, c := b[|b| - 1], b[..|b| - 1];
      assert (a + b)[..|a + b| - 1] == a + c;
      assert b == c + [x];
      ElemsAppend(c, [x]);
      if x in seen {
        RecencySplit(a, c, seen);
        assert seen + Elems(c) == seen + Elems(b);
      } else {
        RecencySplit(a, c, seen + {x});
        assert seen + {x} + Elems(c) == seen + Elems(b);
      }
    }
  }

  lemma {:induction false} RecencyWithout(h: seq<Key>, seen: set<Key>, y: Key)
    requires y !in seen
    ensures Recency(h, seen + {y}) == Without(Recency(h, seen), y)
  {
    if h != [] {
      var x, g := h[|h| - 1], h[..|h| - 1];
      if x in seen {
        RecencyWithout(g, seen, y);
      } else if x == y {
        RecencyElems(g, seen + {y});
        assert y !in Elems(Recency(g, seen + {y}));
        WithoutAbsent(Recency(g, seen + {y}), y);
        assert ([y] + Recency(g, seen + {y}))[1..] == Recency(g, seen + {y});
      } else {
        RecencyWithout(g, seen + {x}, y);
        assert seen + {x} + {y} == seen + {y} + {x};
        assert ([x] + Recency(g, seen + {x}))[1..] == Recency(g, seen + {x});
      }
    }
  }

  lemma TouchTake(k: nat, s: seq<Key>, x: Key)
    requires Distinct(s)
    ensures Touch(k, Take(k, s), x) == Take(k, [x] + Without(s, x))
  {
    if |s| > k {
      if x in s[..k] {
        var p :| 0 <= p < k && s[..k][p] == x;
        TouchTakeInside(k, s, p);
      } else {
        WithoutAbsent(s[..k], x);
        WithoutPrefix(k, s, x);
        assert ([x] + s[..k])[..k] == ([x] + Without(s, x))[..k];
      }
    }
  }

  lemma TouchTakeInside(k: nat, s: seq<Key>, p: nat)
    requires Distinct(s) && p < k < |s|
    ensures Take(k, [s[p]] + Without(s[..k], s[p])) == Take(k, [s[p]] + Without(s, s[p]))
  {
    var t := s[..k];
    WithoutAt(s, p);
    WithoutAt(t, p);
    assert t[p] == s[p];
    SameFront(k, s, p);
  }

  lemma SameFront(k: nat, s: seq<Key>, p: nat)
    requires p < k < |s|
    ensures var t := s[..k];
            [s[p]] + (t[..p] + t[p + 1..]) == ([s[p]] + (s[..p] + s[p + 1..]))[..k]
  {
    assert s[..k][..p] == s[..p] && s[..k][p + 1..] == s[p + 1..k];
    assert s[p + 1..] == s[p + 1..k] + s[k..];
  }

  lemma WithoutPrefix(k: nat, s: seq<Key>, x: Key)
    requires Distinct(s) && k < |s| && x !in s[..k]
    ensures |Without(s, x)| >= k && Without(s, x)[..k] == s[..k]
  {
    if x in s {
      var p :| 0 <= p < |s| && s[p] == x;
      assert forall q :: 0 <= q < k ==> s[..k][q] == s[q];
      assert p >= k;
      WithoutAt(s, p);
    } else {
      WithoutAbsent(s, x);
    }
  }

  // ----- Whole runs -----

  /** The state after a run is the first k distinct keys read backwards. */
  lemma RunIsRecency(k: nat, h: seq<Key>)
    ensures Run(k, h) == Take(k, Recency(h, {}))
    ensures Distinct(Run(k, h)) && |Run(k, h)| == if |Elems(h)| <= k then |Elems(h)| else k
  {
    RunIsTake(k, h);
    RecencyElems(h, {});
    assert Elems(h) - {} == Elems(h);
  }

  lemma {:induction false} RunIsTake(k: nat, h: seq<Key>)
    ensures Run(k, h) == Take(k, Recency(h, {}))
  {
    if h != [] {
      var x, g := h[|h| - 1], h[..|h| - 1];
      RunIsTake(k, g);
      RecencyDistinct(g, {});
      RecencyWithout(g, {}, x);
      TouchTake(k, Recency(g, {}), x);
    }
  }

  /** An earlier request of x lies so close that at most k keys were requested since. */
  ghost predicate ReusedWithin(k: nat, h: seq<Key>, x: Key, i: nat)
  {
    i < |h| && h[i] == x && |Elems(h[i..])| <= k
  }

  lemma LastUse(h: seq<Key>, x: Key) returns (i: nat)
    requires x in h
    ensures i < |h| && h[i] == x && x !in h[i + 1..]
  {
    i := |h| - 1;
    while h[i] != x
      invariant 0 <= i < |h| && x !in h[i + 1..]
      invariant x in h[..i + 1]
      decreases i
    {
      assert h[i..] == [h[i]] + h[i + 1..];
      assert h[..i + 1] == h[..i] + [h[i]];
      i := i - 1;
    }
  }

  lemma PositionOfLastUse(h: seq<Key>, i: nat)
    requires i < |h| && h[i] !in h[i + 1..]
    ensures var p := |Elems(h[i + 1..])|; p < |Recency(h, {})| && Recency(h, {})[p] == h[i]
  {
    var a, b := h[..i + 1], h[i + 1..];
    assert h == a + b;
    RecencySplit(a, b, {});
    assert {} + Elems(b) == Elems(b);
    RecencyElems(b, {});
    assert Elems(b) - {} == Elems(b);
    assert a[|a| - 1] == h[i] && h[i] !in Elems(b);
    var r := Recency(a, Elems(b));
    assert r[0] == h[i];
  }

  lemma UsesFromLast(h: seq<Key>, i: nat)
    requires i < |h| && h[i] !in h[i + 1..]
    ensures |Elems(h[i..])| == |Elems(h[i + 1..])| + 1
  {
    assert h[i..] == [h[i]] + h[i + 1..];
    ElemsAppend([h[i]], h[i + 1..]);
    assert Elems([h[i]]) == {h[i]};
  }

  /** Reuse distance: exactly the keys reused within k distinct keys are resident. */
  lemma ResidentIff(k: nat, h: seq<Key>, x: Key)
    ensures x in Run(k, h) <==> exists i: nat :: ReusedWithin(k, h, x, i)
  {
    RunIsRecency(k, h);
    RecencyElems(h, {});
    if x !in h {
      assert x !in Elems(Recency(h, {}));
    } else {
      var i := LastUse(h, x);
      PositionOfLastUse(h, i);
      UsesFromLast(h, i);
      var p := |Elems(h[i + 1..])|;
      if p < k {
        assert ReusedWithin(k, h, x, i);
        assert Run(k, h)[p] == x;
      } else {
        forall j: nat | ReusedWithin(k, h, x, j)
          ensures false
        {
          assert forall q :: i < q < |h| ==> h[q] == h[i + 1..][q - i - 1];
          assert j <= i;
          assert h[j..] == h[j..i] + h[i..];
          ElemsAppend(h[j..i], h[i..]);
          SubsetSize(Elems(h[i..]), Elems(h[j..]));
        }
      }
    }
  }
}
