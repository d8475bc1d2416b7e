/** Traffic records, and the user list derived from them. */
module Stats {
  import opened Basics
  import opened Text
  import opened StatNames
  import opened Utf8

  type i64 = x: int | -0x8000_0000_0000_0000 <= x < 0x8000_0000_0000_0000

  /** A counter as a node reports it. */
  datatype Stat = Stat(name: string, value: i64)

  datatype StatRecord = StatRecord(
    name: string, parts: seq<string>,
    scope: Option<string>, id: Option<string>, category: Option<string>, metric: Option<string>,
    value: i64)

  function Nth(parts: seq<string>, i: nat): Option<string>
  {
    if i < |parts| then Some(parts[i]) else None
  }

  function ParseStatName(name: string): StatRecord
  {
    var parts := Split(name);
    StatRecord(name, parts, Nth(parts, 0), Nth(parts, 1), Nth(parts, 2), Nth(parts, 3), 0)
  }

  function RecordOf(s: Stat): StatRecord
  {
    ParseStatName(s.name).(value := s.value)
  }

  function RecordsOf(stats: seq<Stat>): (r: seq<StatRecord>)
    ensures |r| == |stats| && forall i :: 0 <= i < |r| ==> r[i] == RecordOf(stats[i])
  {
    seq(|stats|, i requires 0 <= i < |stats| => RecordOf(stats[i]))
  }

  /**
   * The fields of a record: the n-th one holds the n-th of the parts, when there
   * are that many.
   */
  ghost predicate HasFields(r: StatRecord, parts: seq<string>)
  {
    && r.parts == parts
    && (if |parts| > 0 then r.scope == Some(parts[0]) else r.scope == None)
    && (if |parts| > 1 then r.id == Some(parts[1]) else r.id == None)
    && (if |parts| > 2 then r.category == Some(parts[2]) else r.category == None)
    && (if |parts| > 3 then r.metric == Some(parts[3]) else r.metric == None)
  }

  /** For names of any number of parts: a name is given the fields of exactly the well-split list that joins to it. */
  lemma FieldsIff(name: string, parts: seq<string>)
    ensures HasFields(ParseStatName(name), parts) <==> WellSplit(parts) && Join(parts) == name
    ensures ParseStatName(name).name == name && ParseStatName(name).value == 0
  {
    SplitIff(name, parts);
  }

  /** The records of a reply are those of its counters, each with its value. */
  lemma RecordsKeepCounters(stats: seq<Stat>, i: nat, parts: seq<string>)
    requires i < |stats|
    ensures |RecordsOf(stats)| == |stats|
    ensures var r := RecordsOf(stats)[i];
            && r.name == stats[i].name && r.value == stats[i].value
            && (HasFields(r, parts) <==> WellSplit(parts) && Join(parts) == stats[i].name)
  {
    FieldsIff(stats[i].name, parts);
  }

  /** The four fields are read back exactly from well-formed names, and every name with four parts is such a name. */
  lemma FourFields(name: string, scope: string, id: string, category: string, metric: string)
    ensures var r := ParseStatName(name);
            && |r.parts| == 4
            && (r.scope, r.id, r.category, r.metric) == (Some(scope), Some(id), Some(category), Some(metric))
            <==>
            && name == scope + ">>>" + id + ">>>" + category + ">>>" + metric
            && Plain(scope) && Plain(id) && Plain(category) && !Contains(metric, ">>>")
  {
    var parts := [scope, id, category, metric];
    var r := ParseStatName(name);
    FieldsIff(name, parts);
    FieldsIff(name, r.parts);
    JoinFour(scope, id, category, metric);
    SplitIsWell(name);
    if |r.parts| == 4 && (r.scope, r.id, r.category, r.metric) == (Some(scope), Some(id), Some(category), Some(metric)) {
      assert r.parts == parts;
    }
  }

  lemma JoinFour(a: string, b: string, c: string, d: string)
    ensures Join([a, b, c, d]) == a + SEP + b + SEP + c + SEP + d
  {
    assert [a, b, c, d][1..] == [b, c, d] && [b, c, d][1..] == [c, d] && [c, d][1..] == [d];
    assert Join([c, d]) == c + SEP + d;
    assert Join([b, c, d]) == b + SEP + (c + SEP + d);
    assert Join([a, b, c, d]) == a + SEP + (b + SEP + (c + SEP + d));
  }

  // ----- The ordered set of users -----

  ghost predicate Ascending(s: seq<string>)
  {
    forall i, j :: 0 <= i < j < |s| ==> Less(s[i], s[j])
  }

  /** Inserts x into an ascending sequence, unless it is there. */
  function Insert(s: seq<string>, x: string): seq<string>
  {
    if s == [] || Less(x, s[0]) then [x] + s
    else if s[0] == x then s
    else [s[0]] + Insert(s[1..], x)
  }

  lemma {:induction false} InsertAscending(s: seq<string>, x: string)
    requires Ascending(s)
    ensures Ascending(Insert(s, x))
    ensures forall y :: y in Insert(s, x) <==> y in s || y == x
  {
    if s == [] || Less(x, s[0]) {
      forall j | 1 <= j < |s|
        ensures Less(x, s[j])
      {
        assert Less(x, s[0]) && Less(s[0], s[j]);
        LessTransitive(x, s[0], s[j]);
      }
    } else if s[0] != x {
      var t := Insert(s[1..], x);
      InsertAscending(s[1..], x);
      LessIsStrictTotal(x, s[0]);
      assert s == [s[0]] + s[1..];
      assert forall y :: y in s[1..] ==> Less(s[0], y);
      forall j | 0 <= j < |t|
        ensures Less(s[0], t[j])
      {
        assert t[j] in t;
      }
    }
  }

  /** An ascending sequence is determined by its elements. */
  lemma {:induction false} AscendingUnique(s: seq<string>, t: seq<string>)
    requires Ascending(s) && Ascending(t)
    requires forall y :: y in s <==> y in t
    ensures s == t
  {
    assert t != [] ==> t[0] in t;
    if s != [] {
      assert s[0] in t;
      FirstIsLeast(s, t);
      FirstIsLeast(t, s);
      LessIsStrictTotal(s[0], t[0]);
      TailElements(s);
      TailElements(t);
      AscendingUnique(s[1..], t[1..]);
    }
  }

  lemma FirstIsLeast(s: seq<string>, t: seq<string>)
    requires Ascending(s) && t != [] && s != [] && t[0] in s
    ensures s[0] == t[0] || Less(s[0], t[0])
  {
    var i :| 0 <= i < |s| && s[i] == t[0];
  }

  lemma TailElements(s: seq<string>)
    requires Ascending(s) && s != []
    ensures Ascending(s[1..])
    ensures forall y :: y in s[1..] <==> y in s && y != s[0]
  {
    assert s == [s[0]] + s[1..];
    forall y | y in s[1..]
      ensures y != s[0]
    {
      LessIsStrictTotal(s[0], s[0]);
    }
  }

  ghost predicate HasUser(records: seq<StatRecord>, u: string)
  {
    exists r :: r in records && r.id == Some(u)
  }

  /** The second parts of the records, each once, in ascending order. */
  ghost predicate UsersOf(records: seq<StatRecord>, users: seq<string>)
  {
    && Ascending(users)
    && forall u :: u in users <==> HasUser(records, u)
  }

  /**
   * Asks the node for the counters that match the user pattern and collects the
   * second parts of their names in an ordered set.
   */
  method ListUsers(node: string -> Result<seq<Stat>>) returns (r: Result<seq<string>>)
    ensures r.Ok? <==> node("user>>>").Ok?
    ensures r.Ok? ==> UsersOf(RecordsOf(node("user>>>").value), r.value)
    ensures r.Err? ==> r.error == node("user>>>").error
  {
    var reply := node(USER_PATTERN);
    if reply.Err? {
      return Err(reply.error);
    }
    var records := RecordsOf(reply.value);
    var emails: seq<string> := [];
    for n := 0 to |records|
      invariant UsersOf(records[..n], emails)
    {
      assert records[..n + 1] == records[..n] + [records[n]];
      HasUserAppend(records[..n], records[n]);
      match records[n].id {
        case Some(email) =>
          InsertAscending(emails, email);
          emails := Insert(emails, email);
        case None =>
      }
    }
    assert records[..|records|] == records;
    r := Ok(emails);
  }

  lemma HasUserAppend(records: seq<StatRecord>, r: StatRecord)
    ensures forall u :: HasUser(records + [r], u) <==> HasUser(records, u) || r.id == Some(u)
  {
    assert forall x :: x in records + [r] <==> x in records || x == r;
  }

  /** Order and repetition of the records do not matter. */
  lemma UsersDependOnSet(a: seq<StatRecord>, b: seq<StatRecord>, us: seq<string>, vs: seq<string>)
    requires forall r :: r in a <==> r in b
    requires UsersOf(a, us) && UsersOf(b, vs)
    ensures us == vs
  {
    assert forall u :: HasUser(a, u) <==> HasUser(b, u);
    AscendingUnique(us, vs);
  }

  /** The name is made of at least two parts, and u is the second. */
  ghost predicate SecondPart(name: string, parts: seq<string>, u: string)
  {
    WellSplit(parts) && Join(parts) == name && |parts| > 1 && parts[1] == u
  }

  lemma IdIff(s: Stat, u: string)
    ensures RecordOf(s).id == Some(u) <==> exists parts :: SecondPart(s.name, parts, u)
  {
    var r := ParseStatName(s.name);
    SplitIsWell(s.name);
    FieldsIff(s.name, r.parts);
    if r.id == Some(u) {
      assert SecondPart(s.name, r.parts, u);
    }
    forall parts | SecondPart(s.name, parts, u)
      ensures r.id == Some(u)
    {
      FieldsIff(s.name, parts);
    }
  }

  /** Listed are exactly the second parts of the names that have one. */
  lemma UsersAreSecondParts(stats: seq<Stat>, users: seq<string>)
    requires UsersOf(RecordsOf(stats), users)
    ensures forall u :: u in users <==> exists s, parts :: s in stats && SecondPart(s.name, parts, u)
  {
    var records := RecordsOf(stats);
    forall u
      ensures HasUser(records, u) <==> exists s, parts :: s in stats && SecondPart(s.name, parts, u)
    {
      if HasUser(records, u) {
        var r :| r in records && r.id == Some(u);
        var i :| 0 <= i < |records| && records[i] == r;
        IdIff(stats[i], u);
      }
      if s, parts :| s in stats && SecondPart(s.name, parts, u) {
        var i :| 0 <= i < |stats| && stats[i] == s;
        IdIff(s, u);
        assert records[i] in records;
      }
    }
  }
}
