/**
 * What the client cache does, request by request, on its entries; and what the
 * results of whole runs are.
 */
module ClientCache {
  import opened Basics
  import opened Clients
  import opened Lru
  import opened LruBounds

  datatype Entry = Entry(key: Key, client: Client)

  /** The address named by the log line about a displaced entry. */
  datatype Notice = Notice(domain: string, port: u16)

  datatype Reply = Reply(state: seq<Entry>, result: Result<Client>, log: seq<Notice>)

  function Keys(s: seq<Entry>): (r: seq<Key>)
    ensures |r| == |s| && forall i :: 0 <= i < |s| ==> r[i] == s[i].key
  {
    seq(|s|, i requires 0 <= i < |s| => s[i].key)
  }

  /** The entry found under key x becomes the most recently used. */
  function Promote(s: seq<Entry>, p: nat): seq<Entry>
    requires p < |s|
  {
    [s[p]] + s[..p] + s[p + 1..]
  }

  /** A new entry in front; a full cache gives up its last one. */
  function Insert(k: nat, s: seq<Entry>, e: Entry): seq<Entry>
    requires 0 < k
  {
    [e] + if |s| < k then s else s[..k - 1]
  }

  function IndexOf(s: seq<Entry>, x: Key): (p: nat)
    ensures p <= |s| && (p < |s| <==> x in Keys(s))
    ensures p < |s| ==> s[p].key == x
    ensures forall i :: 0 <= i < p ==> s[i].key != x
  {
    if s == [] then 0
    else if s[0].key == x then assert Keys(s)[0] == x; 0
    else
      var p := IndexOf(s[1..], x);
      assert x in Keys(s) <==> x in Keys(s[1..]) by {
        assert Keys(s) == [s[0].key] + Keys(s[1..]);
      }
      p + 1
  }

  /** The line logged when a request finds the cache full. */
  function FullNotice(k: nat, s: seq<Entry>): seq<Notice>
  {
    if 0 < |s| && |s| >= k then [Notice(s[|s| - 1].key.domain, s[|s| - 1].key.port)] else []
  }

  /** One request: look up, and on a miss log, build and insert. */
  function Step(k: nat, build: Builder, s: seq<Entry>, c: Call): Reply
    requires 0 < k
  {
    var p := IndexOf(s, c.key);
    if p < |s| then
      Reply(Promote(s, p), Ok(s[p].client), [])
    else
      match Build(build, c)
      case Ok(client) => Reply(Insert(k, s, Entry(c.key, client)), Ok(client), FullNotice(k, s))
      case Err(e) => Reply(s, Err(e), FullNotice(k, s))
  }

  function Run(k: nat, build: Builder, h: seq<Call>): seq<Entry>
    requires 0 < k
  {
    if h == [] then []
    else Step(k, build, Run(k, build, h[..|h| - 1]), h[|h| - 1]).state
  }

  /** What the i-th request of a run returns. */
  function Answer(k: nat, build: Builder, h: seq<Call>, i: nat): Result<Client>
    requires 0 < k && i < |h|
  {
    Step(k, build, Run(k, build, h[..i]), h[i]).result
  }

  /** The i-th request builds a new client and stores it. */
  predicate Creates(k: nat, build: Builder, h: seq<Call>, i: nat)
    requires 0 < k && i < |h|
  {
    h[i].key !in Keys(Run(k, build, h[..i])) && Buildable(build, h[i].key)
  }

  function Creations(k: nat, build: Builder, h: seq<Call>): nat
    requires 0 < k
  {
    if h == [] then 0
    else Creations(k, build, h[..|h| - 1]) + if Creates(k, build, h, |h| - 1) then 1 else 0
  }

  /** The positions of the requests that create a client, in order. */
  function CreatedAt(k: nat, build: Builder, h: seq<Call>): seq<nat>
    requires 0 < k
  {
    if h == [] then []
    else
      var n := |h| - 1;
      CreatedAt(k, build, h[..n]) + if Creates(k, build, h, n) then [n] else []
  }

  /** The requested keys whose clients can be built, in order. */
  function Requests(build: Builder, h: seq<Call>): seq<Key>
  {
    if h == [] then []
    else Requests(build, h[..|h| - 1]) + if Buildable(build, h[|h| - 1].key) then [h[|h| - 1].key] else []
  }

  // ----- Every reachable state -----

  /** An entry is what building its key would give, under whatever name. */
  ghost predicate Genuine(build: Builder, e: Entry)
  {
    && Buildable(build, e.key)
    && e.client.channel == Channel(e.key.domain, e.key.port)
    && e.client.token == e.key.token
  }

  ghost predicate Sound(k: nat, build: Builder, s: seq<Entry>)
  {
    && |s| <= k
    && Distinct(Keys(s))
    && forall i :: 0 <= i < |s| ==> Genuine(build, s[i])
  }

  lemma PromoteKeys(s: seq<Entry>, p: nat)
    requires p < |s| && Distinct(Keys(s))
    ensures Keys(Promote(s, p)) == [s[p].key] + Without(Keys(s), s[p].key)
    ensures Distinct(Keys(Promote(s, p)))
  {
    WithoutAt(Keys(s), p);
    assert Keys(Promote(s, p)) == [s[p].key] + (Keys(s)[..p] + Keys(s)[p + 1..]);
  }

  lemma InsertKeys(k: nat, s: seq<Entry>, e: Entry)
    requires 0 < k && |s| <= k && Distinct(Keys(s)) && e.key !in Keys(s)
    ensures Keys(Insert(k, s, e)) == Touch(k, Keys(s), e.key)
    ensures Distinct(Keys(Insert(k, s, e)))
  {
    WithoutAbsent(Keys(s), e.key);
    assert Keys(Insert(k, s, e)) == Touch(k, Keys(s), e.key);
    assert forall i :: 0 <= i < |s| ==> Keys(s)[i] != e.key;
  }

  lemma HitSound(k: nat, build: Builder, s: seq<Entry>, p: nat)
    requires Sound(k, build, s) && p < |s|
    ensures Sound(k, build, Promote(s, p))
    ensures Keys(Promote(s, p)) == Touch(k, Keys(s), s[p].key)
  {
    PromoteKeys(s, p);
    WithoutAt(Keys(s), p);
    forall i | 0 <= i < |s|
      ensures Genuine(build, Promote(s, p)[i])
    {
      assert Promote(s, p)[i] == s[if i == 0 then p else if i <= p then i - 1 else i];
    }
  }

  lemma InsertSound(k: nat, build: Builder, s: seq<Entry>, e: Entry)
    requires 0 < k && Sound(k, build, s) && Genuine(build, e) && e.key !in Keys(s)
    ensures Sound(k, build, Insert(k, s, e))
    ensures Keys(Insert(k, s, e)) == Touch(k, Keys(s), e.key)
  {
    InsertKeys(k, s, e);
    assert forall i :: 1 <= i < |Insert(k, s, e)| ==> Insert(k, s, e)[i] == s[i - 1];
  }

  /** A request keeps the cache sound and moves its keys as the policy says. */
  lemma StepSound(k: nat, build: Builder, s: seq<Entry>, c: Call)
    requires 0 < k && Sound(k, build, s)
    ensures Sound(k, build, Step(k, build, s, c).state)
    ensures Keys(Step(k, build, s, c).state) ==
            if Buildable(build, c.key) then Touch(k, Keys(s), c.key) else Keys(s)
  {
    var p := IndexOf(s, c.key);
    if p < |s| {
      assert Genuine(build, s[p]);
      HitSound(k, build, s, p);
    } else if Buildable(build, c.key) {
      InsertSound(k, build, s, Entry(c.key, Build(build, c).value));
    }
  }

  /** Size, distinct keys and genuine clients in every reachable state. */
  lemma {:induction false} RunSound(k: nat, build: Builder, h: seq<Call>)
    requires 0 < k
    ensures Sound(k, build, Run(k, build, h))
    ensures Keys(Run(k, build, h)) == Lru.Run(k, Requests(build, h))
  {
    if h != [] {
      var g, c := h[..|h| - 1], h[|h| - 1];
      RunSound(k, build, g);
      StepSound(k, build, Run(k, build, g), c);
      CreationsExtend(k, Requests(build, g), c.key);
      RequestsLast(build, h);
    }
  }

  /** Caching is invisible: every request gets the client or error that its address and token call for. */
  lemma Transparent(k: nat, build: Builder, h: seq<Call>, i: nat)
    requires 0 < k && i < |h|
    ensures Serves(build, h[i], Answer(k, build, h, i))
  {
    RunSound(k, build, h[..i]);
    var s := Run(k, build, h[..i]);
    var p := IndexOf(s, h[i].key);
    if p < |s| {
      assert Genuine(build, s[p]);
    }
  }

  // ----- Whole runs, in terms of the requests alone -----

  /** The cache holds the first k distinct buildable keys of the history read backwards. */
  lemma ResidentKeys(k: nat, build: Builder, h: seq<Call>)
    requires 0 < k
    ensures Keys(Run(k, build, h)) == Take(k, Recency(Requests(build, h), {}))
    ensures var n := |Elems(Requests(build, h))|; |Run(k, build, h)| == if n <= k then n else k
  {
    RunSound(k, build, h);
    RunIsRecency(k, Requests(build, h));
  }

  /** Request m created the client that the entry for key x still holds. */
  ghost predicate CreatedBy(k: nat, build: Builder, h: seq<Call>, x: Key, m: nat)
    requires 0 < k
  {
    && m < |h|
    && h[m].key == x
    && Creates(k, build, h, m)
    && forall j :: m < j < |h| && h[j].key == x ==> !Creates(k, build, h, j)
  }

  lemma CreatesPrefix(k: nat, build: Builder, h: seq<Call>, n: nat, i: nat)
    requires 0 < k && i < n <= |h|
    ensures Creates(k, build, h[..n], i) == Creates(k, build, h, i)
    ensures Answer(k, build, h[..n], i) == Answer(k, build, h, i)
  {
    assert h[..n][..i] == h[..i];
  }

  lemma CreatorStays(k: nat, build: Builder, h: seq<Call>, x: Key, m: nat)
    requires 0 < k && h != []
    requires CreatedBy(k, build, h[..|h| - 1], x, m)
    requires h[|h| - 1].key == x ==> !Creates(k, build, h, |h| - 1)
    ensures CreatedBy(k, build, h, x, m)
  {
    var n := |h| - 1;
    var g := h[..n];
    CreatesPrefix(k, build, h, n, m);
    forall j: nat | m < j < |h| && h[j].key == x
      ensures !Creates(k, build, h, j)
    {
      if j < n {
        assert g[j].key == x;
        CreatesPrefix(k, build, h, n, j);
      }
    }
  }

  /** Every resident client is the one built, name included, by the last request that missed on its key. */
  lemma {:induction false} ResidentClient(k: nat, build: Builder, h: seq<Call>, p: nat) returns (m: nat)
    requires 0 < k && p < |Run(k, build, h)|
    ensures CreatedBy(k, build, h, Run(k, build, h)[p].key, m)
    ensures Run(k, build, h)[p].client ==
            Client(Channel(h[m].key.domain, h[m].key.port), h[m].key.token, h[m].name)
  {
    var n := |h| - 1;
    var g, c := h[..n], h[n];
    var s, t := Run(k, build, g), Run(k, build, h);
    assert t == Step(k, build, s, c).state;
    if Creates(k, build, h, n) && t[p].key == c.key {
      m := n;
      assert t[0] == Entry(c.key, Build(build, c).value);
      RunSound(k, build, h);
      assert Keys(t)[0] == Keys(t)[p];
    } else {
      var q := EntryWasThere(k, build, s, c, p);
      m := ResidentClient(k, build, g, q);
      CreatorStays(k, build, h, t[p].key, m);
    }
  }

  lemma EntryWasThere(k: nat, build: Builder, s: seq<Entry>, c: Call, p: nat) returns (q: nat)
    requires 0 < k && p < |Step(k, build, s, c).state|
    requires c.key in Keys(s) || !Buildable(build, c.key) || Step(k, build, s, c).state[p].key != c.key
    ensures q < |s| && s[q] == Step(k, build, s, c).state[p]
  {
    var i := IndexOf(s, c.key);
    if i < |s| {
      q := if p == 0 then i else if p <= i then p - 1 else p;
    } else if Buildable(build, c.key) {
      q := p - 1;
    } else {
      q := p;
    }
  }

  /** A position is listed exactly when its request creates a client. */
  lemma {:induction false} CreatedAtIff(k: nat, build: Builder, h: seq<Call>, i: nat)
    requires 0 < k
    ensures i in CreatedAt(k, build, h) <==> i < |h| && Creates(k, build, h, i)
  {
    if h != [] {
      var n := |h| - 1;
      CreatedAtIff(k, build, h[..n], i);
      CreatedAtLast(k, build, h, i);
      if i < n {
        CreatesPrefix(k, build, h, n, i);
      }
    }
  }

  lemma CreatedAtLast(k: nat, build: Builder, h: seq<Call>, i: nat)
    requires 0 < k && h != []
    ensures i in CreatedAt(k, build, h) <==>
            i in CreatedAt(k, build, h[..|h| - 1]) || (i == |h| - 1 && Creates(k, build, h, i))
  {
    var n := |h| - 1;
    assert i in CreatedAt(k, build, h[..n]) + [n] <==> i in CreatedAt(k, build, h[..n]) || i == n;
  }

  /** Each position is listed once, in order. */
  lemma {:induction false} CreatedAtAscends(k: nat, build: Builder, h: seq<Call>)
    requires 0 < k
    ensures |CreatedAt(k, build, h)| == Creations(k, build, h)
    ensures forall a, b :: 0 <= a < b < |CreatedAt(k, build, h)| ==> CreatedAt(k, build, h)[a] < CreatedAt(k, build, h)[b]
  {
    if h != [] {
      var n := |h| - 1;
      var early := CreatedAt(k, build, h[..n]);
      CreatedAtAscends(k, build, h[..n]);
      forall a | 0 <= a < |early|
        ensures early[a] < n
      {
        CreatedAtIff(k, build, h[..n], early[a]);
      }
    }
  }

  /** A hit returns exactly the client made by the last request that missed on the key. */
  lemma HitReturnsLastCreated(k: nat, build: Builder, h: seq<Call>, i: nat) returns (m: nat)
    requires 0 < k && i < |h| && h[i].key in Keys(Run(k, build, h[..i]))
    ensures CreatedBy(k, build, h[..i], h[i].key, m)
    ensures Answer(k, build, h, i) ==
            Ok(Client(Channel(h[m].key.domain, h[m].key.port), h[m].key.token, h[m].name))
  {
    var s := Run(k, build, h[..i]);
    m := ResidentClient(k, build, h[..i], IndexOf(s, h[i].key));
  }

  /** A request that creates is answered with a client under its own name, and that client is in front. */
  lemma CreatorsClient(k: nat, build: Builder, h: seq<Call>, i: nat)
    requires 0 < k && i < |h| && Creates(k, build, h, i)
    ensures var client := Client(Channel(h[i].key.domain, h[i].key.port), h[i].key.token, h[i].name);
            && Answer(k, build, h, i) == Ok(client)
            && Run(k, build, h[..i + 1]) != [] && Run(k, build, h[..i + 1])[0] == Entry(h[i].key, client)
  {
    assert h[..i + 1][..i] == h[..i];
  }

  lemma RequestsLast(build: Builder, h: seq<Call>)
    requires h != []
    ensures var r, x := Requests(build, h[..|h| - 1]), h[|h| - 1].key;
            Requests(build, h) == if Buildable(build, x) then r + [x] else r
  {
  }

  /** Creations are those of the replacement policy on the buildable requests. */
  lemma {:induction false} CreationsAreMisses(k: nat, build: Builder, h: seq<Call>)
    requires 0 < k
    ensures Creations(k, build, h) == Lru.Creations(k, Requests(build, h))
  {
    if h != [] {
      var g, x := h[..|h| - 1], h[|h| - 1].key;
      var r := Requests(build, g);
      CreationsAreMisses(k, build, g);
      RunSound(k, build, g);
      RequestsLast(build, h);
      CreationsExtend(k, r, x);
    }
  }

  /** A larger cache keeps all a smaller one keeps and never builds more clients. */
  lemma LargerIsNoWorse(k: nat, m: nat, build: Builder, h: seq<Call>)
    requires 0 < k <= m
    ensures Keys(Run(k, build, h)) <= Keys(Run(m, build, h))
    ensures forall i: nat | i < |h| :: Creates(m, build, h, i) ==> Creates(k, build, h, i)
    ensures Creations(m, build, h) <= Creations(k, build, h)
  {
    var r := Requests(build, h);
    RunSound(k, build, h);
    RunSound(m, build, h);
    Inclusion(k, m, r);
    CreationsAreMisses(k, build, h);
    CreationsAreMisses(m, build, h);
    forall i: nat | i < |h| && Creates(m, build, h, i)
      ensures Creates(k, build, h, i)
    {
      RunSound(k, build, h[..i]);
      RunSound(m, build, h[..i]);
      Inclusion(k, m, Requests(build, h[..i]));
    }
  }

  /**
   * Compared with any policy that caches every request and starts empty: with
   * the same capacity (c == k) the cache builds at most k times as many clients,
   * and with k - c places more the factor falls to k / (k - c + 1).
   */
  lemma CreationsAreCompetitive(k: nat, c: nat, build: Builder, h: seq<Call>, contents: seq<set<Key>>)
    requires 0 < c <= k && PolicyRun(c, Requests(build, h), contents)
    ensures (k - c + 1) * Creations(k, build, h) <= k * PolicyCreations(Requests(build, h), contents)
  {
    CreationsAreMisses(k, build, h);
    Competitive(k, c, Requests(build, h), contents);
  }

  lemma {:induction false} RequestsAppend(build: Builder, a: seq<Call>, b: seq<Call>)
    ensures Requests(build, a + b) == Requests(build, a) + Requests(build, b)
  {
    if b == [] {
      assert a + b == a;
    } else {
      RequestsAppend(build, a, b[..|b| - 1]);
      assert (a + b)[..|a + b| - 1] == a + b[..|b| - 1];
    }
  }

  /** The requests between two requests for a buildable key, those two included. */
  lemma RequestsBetween(build: Builder, a: seq<Call>, first: Call, mid: seq<Call>, last: Call, z: seq<Call>)
    requires Buildable(build, first.key) && Buildable(build, last.key)
    ensures Requests(build, a + [first] + mid) == Requests(build, a) + [first.key] + Requests(build, mid)
    ensures Requests(build, a + [first] + mid + [last] + z) ==
            Requests(build, a) + [first.key] + Requests(build, mid) + [last.key] + Requests(build, z)
  {
    RequestsAppend(build, a + [first] + mid + [last], z);
    RequestsAppend(build, a + [first] + mid, [last]);
    RequestsAppend(build, a + [first], mid);
    RequestsAppend(build, a, [first]);
    OneRequest(build, first);
    OneRequest(build, last);
  }

  /** In a segment with at most k distinct buildable keys no client is built twice. */
  lemma SegmentBuildsOnce(k: nat, build: Builder, a: seq<Call>, b: seq<Call>, i: nat, j: nat)
    requires 0 < k && |Elems(Requests(build, b))| <= k
    requires |a| <= i < j < |a + b| && (a + b)[i].key == (a + b)[j].key
    ensures !Creates(k, build, a + b, j)
  {
    var h, x := a + b, (a + b)[j].key;
    if Buildable(build, x) {
      var before, mid, after := b[..i - |a|], h[i + 1..j], b[j - |a| + 1..];
      assert h[..j] == h[..i] + [h[i]] + mid;
      assert b == before + [h[i]] + mid + [h[j]] + after;
      RequestsBetween(build, before, h[i], mid, h[j], after);
      RequestsBetween(build, h[..i], h[i], mid, h[j], after);
      var q, r := Requests(build, h[..i]), Requests(build, mid);
      NarrowSegmentHits(k, q, x, r, Elems(Requests(build, b)));
      RunSound(k, build, h[..j]);
    }
  }

  lemma NarrowSegmentHits(k: nat, q: seq<Key>, x: Key, r: seq<Key>, width: set<Key>)
    requires x in width && Elems(r) <= width && |width| <= k
    ensures x in Lru.Run(k, q + [x] + r)
  {
    var t := [x] + r + [x];
    ElemsAppend([x] + r, [x]);
    ElemsAppend([x], r);
    assert Elems([x]) == {x};
    SubsetSize(Elems(t), width);
    SegmentCreatesOnce(k, q, t, |q|, |q| + |r| + 1);
    assert (q + t)[..|q| + |r| + 1] == q + [x] + r;
  }

  lemma OneRequest(build: Builder, c: Call)
    ensures Requests(build, [c]) == if Buildable(build, c.key) then [c.key] else []
  {
    assert [c][..0] == [];
  }

  // ----- Evictions -----

  /** Key x has an entry after the first n requests. */
  predicate Resident(k: nat, build: Builder, h: seq<Call>, x: Key, n: nat)
    requires 0 < k && n <= |h|
  {
    x in Keys(Run(k, build, h[..n]))
  }

  /** The entry for x is there before request e and gone after it. */
  predicate EvictedBy(k: nat, build: Builder, h: seq<Call>, x: Key, e: nat)
    requires 0 < k && e < |h|
  {
    Resident(k, build, h, x, e) && !Resident(k, build, h, x, e + 1)
  }

  lemma RequestedIsKept(k: nat, build: Builder, h: seq<Call>, i: nat)
    requires 0 < k && i < |h| && Buildable(build, h[i].key)
    ensures Resident(k, build, h, h[i].key, i + 1)
  {
    assert h[..i + 1][..i] == h[..i];
    var s := Run(k, build, h[..i]);
    RunSound(k, build, h[..i]);
    StepSound(k, build, s, h[i]);
    assert Touch(k, Keys(s), h[i].key)[0] == h[i].key;
  }

  lemma {:induction false} FirstLoss(k: nat, build: Builder, h: seq<Call>, x: Key, i: nat, j: nat) returns (e: nat)
    requires 0 < k && i <= j <= |h| && Resident(k, build, h, x, i) && !Resident(k, build, h, x, j)
    ensures i <= e < j && EvictedBy(k, build, h, x, e)
    decreases j - i
  {
    if Resident(k, build, h, x, i + 1) {
      e := FirstLoss(k, build, h, x, i + 1, j);
    } else {
      e := i;
    }
  }

  /** A client built twice for one key was evicted in between. */
  lemma RebuiltOnlyAfterEviction(k: nat, build: Builder, h: seq<Call>, i: nat, j: nat)
    requires 0 < k && i < j < |h| && h[i].key == h[j].key
    requires Creates(k, build, h, j)
    ensures exists e: nat :: i < e < j && EvictedBy(k, build, h, h[i].key, e)
  {
    RequestedIsKept(k, build, h, i);
    var e := FirstLoss(k, build, h, h[i].key, i + 1, j);
  }

  /** A hit only reorders; a failed build changes nothing, although a full cache was logged. */
  lemma NothingEvicted(k: nat, build: Builder, s: seq<Entry>, c: Call)
    requires 0 < k && Sound(k, build, s)
    requires c.key in Keys(s) || !Buildable(build, c.key) || |s| < k
    ensures var r := Step(k, build, s, c);
            if c.key in Keys(s) then multiset(r.state) == multiset(s) && r.log == []
            else if Buildable(build, c.key) then r.state[1..] == s && r.log == []
            else r.state == s && r.result.Err? &&
                 r.log == if |s| == k then [Notice(s[k - 1].key.domain, s[k - 1].key.port)] else []
  {
    var p := IndexOf(s, c.key);
    if p < |s| {
      PromoteSame(s, p);
    } else if Buildable(build, c.key) {
      var e := Entry(c.key, Build(build, c).value);
      assert Step(k, build, s, c).state == [e] + s;
      assert ([e] + s)[1..] == s;
    }
  }

  lemma PromoteSame(s: seq<Entry>, p: nat)
    requires p < |s|
    ensures multiset(Promote(s, p)) == multiset(s)
  {
    assert s == s[..p] + [s[p]] + s[p + 1..];
  }

  /**
   * A full cache that builds a client for an absent key loses exactly its least
   * recently used entry, the one named in the log, and keeps all others.
   */
  lemma OldestEvicted(k: nat, build: Builder, s: seq<Entry>, c: Call)
    requires 0 < k && Sound(k, build, s)
    requires c.key !in Keys(s) && Buildable(build, c.key) && |s| == k
    ensures var r := Step(k, build, s, c);
            && r.state[1..] == s[..k - 1] && r.state[0].key == c.key
            && Elems(Keys(r.state)) == Elems(Keys(s)) - {s[k - 1].key} + {c.key}
            && r.log == [Notice(s[k - 1].key.domain, s[k - 1].key.port)]
  {
    DropLast(s);
    var e := Entry(c.key, Build(build, c).value);
    var kept := s[..k - 1];
    assert Keys(Insert(k, s, e)) == [c.key] + Keys(kept);
    ElemsAppend([c.key], Keys(kept));
    assert Elems([c.key]) == {c.key};
  }

  lemma RoomKeepsAll(k: nat, build: Builder, s: seq<Entry>, c: Call)
    requires 0 < k && Sound(k, build, s)
    requires c.key in Keys(s) || !Buildable(build, c.key) || |s| < k
    ensures Elems(Keys(s)) <= Elems(Keys(Step(k, build, s, c).state))
  {
    var r := Step(k, build, s, c);
    if c.key in Keys(s) {
      var p := IndexOf(s, c.key);
      assert Genuine(build, s[p]);
      StepSound(k, build, s, c);
      TouchResident(k, Keys(s), c.key);
    } else if Buildable(build, c.key) {
      assert Keys(r.state) == [c.key] + Keys(s);
      ElemsAppend([c.key], Keys(s));
    }
  }

  /** Eviction happens only so: a key vanishes only as the oldest of a full cache, for a client just built. */
  lemma EvictedIsOldest(k: nat, build: Builder, h: seq<Call>, x: Key, e: nat)
    requires 0 < k && e < |h| && EvictedBy(k, build, h, x, e)
    ensures var s := Run(k, build, h[..e]);
            && Creates(k, build, h, e) && |s| == k && x == s[k - 1].key
            && Step(k, build, s, h[e]).log == [Notice(x.domain, x.port)]
  {
    var s, c := Run(k, build, h[..e]), h[e];
    var r := Step(k, build, s, c);
    assert h[..e + 1][..e] == h[..e];
    RunSound(k, build, h[..e]);
    assert x in Elems(Keys(s)) && x !in Elems(Keys(r.state));
    if c.key in Keys(s) || !Buildable(build, c.key) || |s| < k {
      RoomKeepsAll(k, build, s, c);
    }
    OldestEvicted(k, build, s, c);
  }

  lemma DropLast(s: seq<Entry>)
    requires s != [] && Distinct(Keys(s))
    ensures Elems(Keys(s[..|s| - 1])) == Elems(Keys(s)) - {s[|s| - 1].key}
  {
    var t, e := s[..|s| - 1], s[|s| - 1];
    assert s == t + [e];
    assert Keys(s) == Keys(t) + [e.key];
    ElemsAppend(Keys(t), [e.key]);
    assert Elems([e.key]) == {e.key};
    assert e.key !in Keys(t);
  }
}
