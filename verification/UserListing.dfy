/**
 * Listing the users of a node whose counters are named `scope>>>id>>>traffic>>>metric`
 * and whose pattern query answers with every counter whose name contains the pattern.
 */
module UserListing {
  import opened Basics
  import opened Text
  import opened StatNames
  import opened Stats

  datatype Counter = Counter(scope: string, id: string, metric: string, value: i64)

  function NameOf(c: Counter): string
  {
    c.scope + ">>>" + c.id + ">>>" + "traffic" + ">>>" + c.metric
  }

  /** The counters whose names contain the pattern, in order. */
  function Matching(counters: seq<Counter>, pattern: string): seq<Stat>
  {
    if counters == [] then []
    else
      var c := counters[0];
      (if Contains(NameOf(c), pattern) then [Stat(NameOf(c), c.value)] else []) + Matching(counters[1..], pattern)
  }

  ghost predicate IsUser(counters: seq<Counter>, u: string)
  {
    exists c :: c in counters && c.scope == "user" && c.id == u
  }

  lemma NoMarkIsPlain(s: string)
    requires forall i :: 0 <= i < |s| ==> s[i] != '>'
    ensures Plain(s)
  {
    forall i: nat
      ensures !At(s, i, SEP)
    {
      if At(s, i, SEP) {
        SeparatorAt(s, i);
      }
    }
    assert s != [] ==> s[|s| - 1..] == [s[|s| - 1]];
  }

  // ----- The second part of a counter's name -----

  lemma ManyParts(s: string, p: nat, q: nat)
    requires At(s, p, SEP) && At(s, q, SEP) && p + 3 <= q
    ensures |Split(s)| >= 3 && Plain(Split(s)[1])
  {
    var i := Find(s, SEP);
    var rest := s[i + 3..];
    assert s == s[..i + 3] + rest;
    AtShift(s[..i + 3], rest, q - i - 3, SEP);
    assert Contains(rest, SEP);
    SplitIsWell(s);
  }

  /** Every counter's name has a second part, which is followed by another and so is plain. */
  lemma SecondIsPlain(c: Counter)
    ensures |Split(NameOf(c))| >= 3 && Plain(Split(NameOf(c))[1])
  {
    var name, p := NameOf(c), |c.scope|;
    var q := p + 3 + |c.id|;
    assert name[p..p + 3] == SEP && name[q..q + 3] == SEP;
    ManyParts(name, p, q);
  }

  /** The string that a record of this counter has as its id. */
  function Second(c: Counter): (s: string)
    ensures Plain(s)
  {
    SecondIsPlain(c);
    Split(NameOf(c))[1]
  }

  /** The second part of a user's counter is the user's id exactly when the id is plain. */
  lemma SecondOfUserIff(c: Counter)
    requires c.scope == "user"
    ensures Second(c) == c.id <==> Plain(c.id)
    ensures Contains(NameOf(c), "user>>>")
  {
    var rest := "traffic" + SEP + c.metric;
    NoMarkIsPlain("user");
    assert NameOf(c) == "user" + SEP + (c.id + SEP + rest);
    SplitCons("user", c.id + SEP + rest);
    if Plain(c.id) {
      SplitCons(c.id, rest);
    }
    assert EndsWith("user", "user");
    PatternFound("user", c.id + SEP + rest);
  }

  /** An id is read back from a user counter exactly when it is plain. */
  lemma UserIdReadIff(e: string, metric: string)
    ensures ParseStatName("user" + ">>>" + e + ">>>" + "traffic" + ">>>" + metric).id == Some(e) <==> Plain(e)
  {
    var c := Counter("user", e, metric, 0);
    SecondOfUserIff(c);
    SecondIsPlain(c);
  }

  // ----- What is listed -----

  ghost predicate Listed(counters: seq<Counter>, u: string)
  {
    exists c :: c in counters && Contains(NameOf(c), "user>>>") && Second(c) == u
  }

  lemma HasUserFirst(s: Stat, stats: seq<Stat>, u: string)
    ensures HasUser(RecordsOf([s] + stats), u) <==> RecordOf(s).id == Some(u) || HasUser(RecordsOf(stats), u)
  {
    assert RecordsOf([s] + stats) == [RecordOf(s)] + RecordsOf(stats);
    assert forall x :: x in RecordsOf([s] + stats) <==> x == RecordOf(s) || x in RecordsOf(stats);
  }

  lemma MatchingFirst(c: Counter, rest: seq<Counter>, u: string)
    ensures HasUser(RecordsOf(Matching([c] + rest, "user>>>")), u) <==>
            || HasUser(RecordsOf(Matching(rest, "user>>>")), u)
            || (Contains(NameOf(c), "user>>>") && Second(c) == u)
  {
    var s, more := Stat(NameOf(c), c.value), Matching(rest, "user>>>");
    assert ([c] + rest)[1..] == rest;
    if Contains(NameOf(c), "user>>>") {
      assert Matching([c] + rest, "user>>>") == [s] + more;
      SecondIsPlain(c);
      HasUserFirst(s, more, u);
    } else {
      assert Matching([c] + rest, "user>>>") == more;
    }
  }

  lemma ListedFirst(c: Counter, rest: seq<Counter>, u: string)
    ensures Listed([c] + rest, u) <==>
            Listed(rest, u) || (Contains(NameOf(c), "user>>>") && Second(c) == u)
  {
    assert forall x :: x in [c] + rest <==> x == c || x in rest;
  }

  lemma {:induction false} MatchingUsers(counters: seq<Counter>, u: string)
    ensures HasUser(RecordsOf(Matching(counters, "user>>>")), u) <==> Listed(counters, u)
  {
    if counters != [] {
      var c, rest := counters[0], counters[1..];
      assert counters == [c] + rest;
      MatchingUsers(rest, u);
      ListedFirst(c, rest, u);
      MatchingFirst(c, rest, u);
    }
  }

  /** What the listing returns, for every collection of counters. */
  lemma ListedExactly(counters: seq<Counter>, users: seq<string>)
    requires UsersOf(RecordsOf(Matching(counters, "user>>>")), users)
    ensures Ascending(users) && forall u :: u in users <==> Listed(counters, u) && Plain(u)
  {
    forall u
      ensures u in users <==> Listed(counters, u) && Plain(u)
    {
      MatchingUsers(counters, u);
    }
  }

  // ----- When it is exactly the users -----

  /** Users whose ids can be read back from their counters. */
  ghost predicate PlainUsers(counters: seq<Counter>)
  {
    forall c :: c in counters && c.scope == "user" ==> Plain(c.id)
  }

  /** A counter of another scope that matches the pattern and whose second part names no user. */
  ghost predicate Stray(counters: seq<Counter>, c: Counter)
  {
    c in counters && c.scope != "user" && Contains(NameOf(c), "user>>>") && !IsUser(counters, Second(c))
  }

  /**
   * The listing is exactly the users, each once and in order, if and only if no
   * user's id contains a separator or ends in `>`, and no counter of another
   * scope matches the pattern with a second part that names no user.
   */
  lemma ListingIsUsersIff(counters: seq<Counter>, users: seq<string>)
    requires UsersOf(RecordsOf(Matching(counters, "user>>>")), users)
    ensures (Ascending(users) && forall u :: u in users <==> IsUser(counters, u)) <==>
            PlainUsers(counters) && !exists c :: Stray(counters, c)
  {
    ListedExactly(counters, users);
    if PlainUsers(counters) && !exists c :: Stray(counters, c) {
      forall u
        ensures Listed(counters, u) <==> IsUser(counters, u)
      {
        ListedIsUser(counters, u);
      }
    } else if c :| Stray(counters, c) {
      assert Listed(counters, Second(c)) && !IsUser(counters, Second(c));
    } else {
      var c :| c in counters && c.scope == "user" && !Plain(c.id);
      assert IsUser(counters, c.id) && c.id !in users;
    }
  }

  lemma ListedIsUser(counters: seq<Counter>, u: string)
    requires PlainUsers(counters) && !exists c :: Stray(counters, c)
    ensures Listed(counters, u) <==> IsUser(counters, u)
  {
    if Listed(counters, u) {
      var c :| c in counters && Contains(NameOf(c), "user>>>") && Second(c) == u;
      if c.scope == "user" {
        SecondOfUserIff(c);
      } else {
        assert !Stray(counters, c);
      }
    }
    if IsUser(counters, u) {
      var c :| c in counters && c.scope == "user" && c.id == u;
      SecondOfUserIff(c);
    }
  }

  predicate WellNamed(c: Counter)
  {
    Plain(c.scope) && Plain(c.id) && !Contains(c.metric, ">>>")
  }

  lemma PartsOf(c: Counter)
    requires WellNamed(c)
    ensures Split(NameOf(c)) == [c.scope, c.id, "traffic", c.metric]
  {
    NoMarkIsPlain("traffic");
    JoinFour(c.scope, c.id, "traffic", c.metric);
    SplitIff(NameOf(c), [c.scope, c.id, "traffic", c.metric]);
  }

  lemma FourEndInUser(a: string, b: string, d: string)
    ensures (exists n: nat :: EndsInUser([a, b, "traffic", d], n)) <==> EndsWith(a, "user") || EndsWith(b, "user")
  {
    var parts := [a, b, "traffic", d];
    assert "traffic"[3..] == "ffic";
    assert EndsInUser(parts, 0) <==> EndsWith(a, "user");
    assert EndsInUser(parts, 1) <==> EndsWith(b, "user");
    assert !EndsInUser(parts, 2);
  }

  /** A well-named counter is read as its id, and matches exactly when its scope or its id ends in "user". */
  lemma WellNamedIff(c: Counter)
    requires WellNamed(c)
    ensures Second(c) == c.id
    ensures Contains(NameOf(c), "user>>>") <==> EndsWith(c.scope, "user") || EndsWith(c.id, "user")
  {
    PartsOf(c);
    PatternIff(NameOf(c));
    FourEndInUser(c.scope, c.id, c.metric);
  }

  // ----- Both conditions can fail -----

  /** An inbound tagged "vip-user" is listed although the node has no user. */
  lemma TagListedAsUser(users: seq<string>)
    requires UsersOf(RecordsOf(Matching([Counter("inbound", "vip-user", "uplink", 0)], "user>>>")), users)
    ensures users == ["vip-user"]
  {
    var c := Counter("inbound", "vip-user", "uplink", 0);
    NoMarkIsPlain("inbound");
    NoMarkIsPlain("vip-user");
    NoMarkIsPlain("uplink");
    WellNamedIff(c);
    assert EndsWith(c.id, "user");
    OneListed(c, users);
  }

  /** A mark at the end of the id is taken for the start of the separator. */
  lemma MarkTaken(c: Counter, a: string)
    requires Plain(c.scope) && Plain(a) && c.id == a + ">"
    ensures Second(c) == a
  {
    var tail := ">" + ("traffic" + ">>>" + c.metric);
    MarkMoves(c.scope, a, "traffic" + ">>>" + c.metric);
    assert NameOf(c) == c.scope + ">>>" + (a + ">") + ">>>" + ("traffic" + ">>>" + c.metric);
    SplitCons(c.scope, a + SEP + tail);
    SplitCons(a, tail);
  }

  lemma MarkMoves(scope: string, a: string, rest: string)
    ensures scope + ">>>" + (a + ">") + ">>>" + rest == scope + SEP + (a + SEP + (">" + rest))
  {
    assert (a + ">") + ">>>" == a + SEP + ">";
  }

  /** A user whose id ends in the separator's own character is listed without it. */
  lemma MarkIsLost(users: seq<string>)
    requires UsersOf(RecordsOf(Matching([Counter("user", "a>", "uplink", 0)], "user>>>")), users)
    ensures users == ["a"]
  {
    var c := Counter("user", "a>", "uplink", 0);
    NoMarkIsPlain("user");
    NoMarkIsPlain("a");
    MarkTaken(c, "a");
    SecondOfUserIff(c);
    OneListed(c, users);
  }

  lemma OneListed(c: Counter, users: seq<string>)
    requires Contains(NameOf(c), "user>>>")
    requires UsersOf(RecordsOf(Matching([c], "user>>>")), users)
    ensures users == [Second(c)]
  {
    ListedExactly([c], users);
    assert c in [c];
    assert forall u :: u in users <==> u in [Second(c)];
    AscendingUnique(users, [Second(c)]);
  }
}
