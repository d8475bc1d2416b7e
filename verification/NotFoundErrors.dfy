/** How errors of a node become HTTP statuses, and what a missing user or counter means. */
module NotFoundErrors {
  import opened Basics
  import opened Text
  import opened Stats

  datatype Status = Status(code: Code, message: string)

  function GrpcCodeToHttp(cs: Casing, code: Code, details: string): nat
  {
    match code
    case NotFound => 404
    case AlreadyExists => 409
    case Unimplemented => 501
    case Unavailable => 502
    case Unknown =>
      if Contains(cs.lower(details), "not found") then 404
      else if Contains(cs.lower(details), "already exists") then 409
      else 502
    case _ => 500
  }

  function HttpStatus(cs: Casing, e: AppError): nat
  {
    match e
    case Grpc(code, details) => GrpcCodeToHttp(cs, code, details)
    case Unauthenticated(_) => 401
    case InvalidArgument(_) => 400
    case UnprocessableEntity(_) => 422
    case Internal(_) => 500
  }

  function FromStatus(s: Status): AppError
  {
    Grpc(s.code, s.message)
  }

  /** The delete handler's own test for a missing user. */
  predicate IsNotFound(cs: Casing, code: Code, details: string)
  {
    code == Code.NotFound || (code == Code.Unknown && Contains(cs.lower(details), "not found"))
  }

  /** What a node answers: a value, possibly absent, or a status. */
  datatype Answer<T> = Value(value: T) | Failed(status: Status)

  function GetStat(cs: Casing, a: Answer<Option<Stat>>): Result<i64>
  {
    match a
    case Value(Some(s)) => Ok(s.value)
    case Value(None) => Ok(0)
    case Failed(s) =>
      if s.code == Code.NotFound || (s.code == Code.Unknown && Contains(cs.lower(s.message), "not found"))
      then Ok(0)
      else Err(FromStatus(s))
  }

  /** The three tests for "not found" agree on every code and every text. */
  lemma TestsAgree(cs: Casing, s: Status)
    ensures IsNotFound(cs, s.code, s.message) <==> HttpStatus(cs, FromStatus(s)) == 404
    ensures GetStat(cs, Failed(s)) == Ok(0) <==> HttpStatus(cs, FromStatus(s)) == 404
    ensures GetStat(cs, Failed(s)).Err? ==> GetStat(cs, Failed(s)).error == FromStatus(s)
  {
  }

  /** The words stand somewhere in the text, in the casing that lower-casing gives. */
  ghost predicate Mentions(cs: Casing, text: string, words: string)
  {
    exists a, b :: cs.lower(text) == a + words + b
  }

  /** Which errors have which status. */
  lemma StatusIff(cs: Casing, e: AppError)
    ensures HttpStatus(cs, e) == 404 <==>
            e.Grpc? && (e.code == Code.NotFound || (e.code == Code.Unknown && Mentions(cs, e.details, "not found")))
    ensures HttpStatus(cs, e) == 409 <==>
            e.Grpc? && (e.code == Code.AlreadyExists
                        || (e.code == Code.Unknown && Mentions(cs, e.details, "already exists")
                            && !Mentions(cs, e.details, "not found")))
    ensures HttpStatus(cs, e) == 502 <==>
            e.Grpc? && (e.code == Code.Unavailable
                        || (e.code == Code.Unknown && !Mentions(cs, e.details, "already exists")
                            && !Mentions(cs, e.details, "not found")))
    ensures HttpStatus(cs, e) == 501 <==> e.Grpc? && e.code == Code.Unimplemented
    ensures HttpStatus(cs, e) == 401 <==> e.Unauthenticated?
    ensures HttpStatus(cs, e) == 400 <==> e.InvalidArgument?
    ensures HttpStatus(cs, e) == 422 <==> e.UnprocessableEntity?
    ensures HttpStatus(cs, e) in {400, 401, 404, 409, 422, 500, 501, 502}
  {
    if e.Grpc? {
      ContainsIff(cs.lower(e.details), "not found");
      ContainsIff(cs.lower(e.details), "already exists");
    }
  }

  /** The answers of a node that stand for the value v: a counter with it, or for 0 also that there is none. */
  lemma GetStatIff(cs: Casing, a: Answer<Option<Stat>>, v: i64)
    ensures GetStat(cs, a) == Ok(v) <==>
            || (exists name :: a == Value(Some(Stat(name, v))))
            || (v == 0 && (a == Value(None) || (a.Failed? && HttpStatus(cs, FromStatus(a.status)) == 404)))
  {
    match a
    case Value(Some(s)) => assert a == Value(Some(Stat(s.name, s.value)));
    case Value(None) =>
    case Failed(s) => TestsAgree(cs, s);
  }

  // ----- Adding and deleting users -----

  datatype UserId = UserId(tag: string, email: string)

  datatype Request =
    | Add(user: UserId)
    | Delete(user: UserId, ignoreMissing: bool)

  datatype Response = Response(status: nat, ignored: bool)

  /** The handlers' responses to what the node answered. */
  function HandleAdd(cs: Casing, answer: Result<()>): Response
  {
    match answer
    case Ok(_) => Response(201, false)
    case Err(e) => Response(HttpStatus(cs, e), false)
  }

  function HandleDelete(cs: Casing, answer: Result<()>, ignoreMissing: bool): Response
  {
    match answer
    case Ok(_) => Response(200, false)
    case Err(Grpc(code, details)) =>
      if IsNotFound(cs, code, details) && ignoreMissing then Response(200, true)
      else Response(HttpStatus(cs, Grpc(code, details)), false)
    case Err(e) => Response(HttpStatus(cs, e), false)
  }

  /**
   * A node keeps a set of users. It adds an absent user and removes a present
   * one; to anything else it answers with some status of its own.
   */
  datatype Node = Node(missing: UserId -> Status, existing: UserId -> Status) {

    function Answer(users: set<UserId>, r: Request): Result<()>
    {
      match r
      case Add(u) => if u in users then Err(FromStatus(existing(u))) else Ok(())
      case Delete(u, _) => if u in users then Ok(()) else Err(FromStatus(missing(u)))
    }
  }

  /** The node's users after a sequence of requests. */
  function UsersAfter(users: set<UserId>, rs: seq<Request>): set<UserId>
  {
    if rs == [] then users
    else
      var before, r := UsersAfter(users, rs[..|rs| - 1]), rs[|rs| - 1];
      if r.Add? then before + {r.user} else before - {r.user}
  }

  /** The response to the i-th request. */
  function ResponseTo(cs: Casing, node: Node, users: set<UserId>, rs: seq<Request>, i: nat): Response
    requires i < |rs|
  {
    var answer := node.Answer(UsersAfter(users, rs[..i]), rs[i]);
    match rs[i]
    case Add(_) => HandleAdd(cs, answer)
    case Delete(_, ignoreMissing) => HandleDelete(cs, answer, ignoreMissing)
  }

  /** No request before the i-th that comes after the j-th concerns u. */
  ghost predicate Untouched(rs: seq<Request>, u: UserId, j: int, i: nat)
  {
    forall m :: 0 <= m < |rs| && j < m < i ==> rs[m].user != u
  }

  /** The last request before the i-th that concerns u added it, or none did and u was there at first. */
  ghost predicate Present(users: set<UserId>, rs: seq<Request>, u: UserId, i: nat)
  {
    || (u in users && Untouched(rs, u, -1, i))
    || exists j: nat :: j < i && j < |rs| && rs[j] == Add(u) && Untouched(rs, u, j, i)
  }

  lemma {:induction false} PresentIff(users: set<UserId>, rs: seq<Request>, u: UserId, i: nat)
    requires i <= |rs|
    ensures u in UsersAfter(users, rs[..i]) <==> Present(users, rs, u, i)
  {
    if i > 0 {
      var r := rs[i - 1];
      assert rs[..i][..i - 1] == rs[..i - 1];
      PresentIff(users, rs, u, i - 1);
      if r.user == u {
        assert r == Add(u) ==> Untouched(rs, u, i - 1, i);
        assert forall j :: -1 <= j < i - 1 ==> !Untouched(rs, u, j, i);
      } else {
        assert forall j :: -1 <= j < i ==> (Untouched(rs, u, j, i) <==> Untouched(rs, u, j, i - 1));
      }
    }
  }

  /**
   * Deletes among adds and deletes in any order and number: a user that is there
   * is removed with 200. One that is not there leaves the node unchanged and gives
   * 200 exactly when missing users are ignored and the node's status counts as not
   * found; otherwise its status decides, and that is 404 exactly when it counts as
   * not found.
   */
  lemma DeleteReplay(cs: Casing, node: Node, users: set<UserId>, rs: seq<Request>, i: nat)
    requires i < |rs| && rs[i].Delete?
    ensures var u := rs[i].user;
            var r := ResponseTo(cs, node, users, rs, i);
            var known := IsNotFound(cs, node.missing(u).code, node.missing(u).message);
            if Present(users, rs, u, i) then
              r == Response(200, false) && u in UsersAfter(users, rs[..i])
            else
              && UsersAfter(users, rs[..i + 1]) == UsersAfter(users, rs[..i])
              && (r.status == 200 <==> rs[i].ignoreMissing && known)
              && (r.status == 404 <==> !rs[i].ignoreMissing && known)
              && (r.ignored <==> r.status == 200)
              && (!r.ignored ==>
                    r.status == HttpStatus(cs, AppError.Grpc(node.missing(u).code, node.missing(u).message)))
    ensures UsersAfter(users, rs[..i + 1]) == UsersAfter(users, rs[..i]) - {rs[i].user}
  {
    assert rs[..i + 1][..i] == rs[..i];
    PresentIff(users, rs, rs[i].user, i);
  }

  /**
   * Adds among adds and deletes: a user that is not there is added with 201; one
   * that is there leaves the node unchanged, and the node's status decides.
   */
  lemma AddReplay(cs: Casing, node: Node, users: set<UserId>, rs: seq<Request>, i: nat)
    requires i < |rs| && rs[i].Add?
    ensures var u := rs[i].user;
            var r := ResponseTo(cs, node, users, rs, i);
            var known := node.existing(u);
            if Present(users, rs, u, i) then
              && UsersAfter(users, rs[..i + 1]) == UsersAfter(users, rs[..i])
              && r == Response(HttpStatus(cs, AppError.Grpc(known.code, known.message)), false)
              && r.status >= 400
            else
              r == Response(201, false) && u !in UsersAfter(users, rs[..i])
    ensures UsersAfter(users, rs[..i + 1]) == UsersAfter(users, rs[..i]) + {rs[i].user}
  {
    assert rs[..i + 1][..i] == rs[..i];
    PresentIff(users, rs, rs[i].user, i);
  }

  /** Between two deletes of one user without an add of it, the second one finds nothing to remove. */
  lemma RepeatedDelete(cs: Casing, node: Node, users: set<UserId>, rs: seq<Request>, i: nat, j: nat)
    requires i < j < |rs| && rs[i].Delete? && rs[j].Delete? && rs[i].user == rs[j].user
    requires forall m :: i < m < j ==> rs[m] != Add(rs[j].user)
    requires rs[j].ignoreMissing
    ensures var u := rs[j].user;
            && UsersAfter(users, rs[..j + 1]) == UsersAfter(users, rs[..j])
            && (ResponseTo(cs, node, users, rs, j).status == 200 <==>
                IsNotFound(cs, node.missing(u).code, node.missing(u).message))
  {
    var u := rs[j].user;
    assert !Present(users, rs, u, j) by {
      assert !Untouched(rs, u, -1, j);
      forall m: nat | m < j && rs[m] == Add(u)
        ensures !Untouched(rs, u, m, j)
      {
        assert m < i;
      }
    }
    DeleteReplay(cs, node, users, rs, j);
  }

  /** A delete can fail although missing users are ignored: a node may report them in its own way. */
  lemma UnrecognisedMissing(cs: Casing, u: UserId, existing: UserId -> Status)
    ensures ResponseTo(cs, Node(_ => Status(Code.Internal, ""), existing), {}, [Delete(u, true)], 0) ==
            Response(500, false)
  {
  }
}
