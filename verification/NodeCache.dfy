/** The client cache that all requests share, and the headers that select a client. */
module NodeCache {
  import opened Basics
  import opened Clients
  import opened ClientCache
  import opened SlotList
  import opened Headers

  const DEFAULT_MAX_ENTRIES: nat := 256
  const DEFAULT_PORT: u16 := 443

  /** A header that must be present, be text and not be empty. */
  function Required(h: Headers, name: string, message: string): Result<string>
  {
    match HeaderText(h, name)
    case Some(s) => if s == [] then Err(AppError.InvalidArgument(message)) else Ok(s)
    case None => Err(AppError.InvalidArgument(message))
  }

  function PortOf(h: Headers): u16
  {
    match HeaderText(h, "x-node-port")
    case Some(s) => (match ParsePort(s) case Some(n) => n case None => DEFAULT_PORT)
    case None => DEFAULT_PORT
  }

  /** The client a request asks for. */
  function NodeCall(h: Headers): Result<Call>
  {
    match Required(h, "x-node-domain", "缺少 X-Node-Domain header")
    case Err(e) => Err(e)
    case Ok(domain) =>
      match Required(h, "x-node-token", "缺少 X-Node-Token header")
      case Err(e) => Err(e)
      case Ok(token) => Ok(Call(Key(domain, PortOf(h), token), HeaderText(h, "x-node-name")))
  }

  class XrayClientCache {
    const slots: LruSlots
    const build: Builder
    /** The log lines about displaced entries, oldest first. */
    var log: seq<Notice>
    ghost var history: seq<Call>

    ghost predicate Valid()
      reads this, slots, slots.keys, slots.clients, slots.prev, slots.next
    {
      && slots.Valid()
      && this !in slots.Parts()
      && slots.Contents() == Run(slots.cap, build, history)
    }

    constructor (maxEntries: nat, build: Builder)
      requires 0 < maxEntries
      ensures Valid() && fresh(slots.Parts()) && slots.cap == maxEntries
      ensures this.build == build && history == [] && log == []
    {
      slots := new LruSlots(maxEntries);
      this.build := build;
      log, history := [], [];
    }

    /**
     * Returns the cached client, or builds one and caches it. The history of
     * calls determines the contents, and the result is that of the sequential
     * model. It is a client for the address and token asked for, named by this
     * call if the key was absent and otherwise by the call that created it, or
     * the error of the step that refused the address.
     */
    method GetOrCreate(domain: string, port: u16, token: string, name: Option<string>) returns (r: Result<Client>)
      requires Valid()
      modifies this, slots.Parts()
      ensures Valid()
      ensures var c := Call(Key(domain, port, token), name);
              var reply := Step(slots.cap, build, old(slots.Contents()), c);
              && history == old(history) + [c]
              && slots.Contents() == reply.state
              && r == reply.result == Answer(slots.cap, build, history, |history| - 1)
              && log == old(log) + reply.log
              && Serves(build, c, r)
      ensures slots.Len() <= slots.cap
      ensures var key := Key(domain, port, token);
              r.Ok? ==>
                if key in Keys(old(slots.Contents()))
                then exists m: nat :: CreatedBy(slots.cap, build, old(history), key, m) && r.value.name == old(history)[m].name
                else r.value.name == name
    {
      ghost var c, h := Call(Key(domain, port, token), name), history;
      HistoryStep(slots.cap, build, h, c);
      NameOfResult(slots.cap, build, h, c);
      r := Serve(Key(domain, port, token), name);
      history := h + [c];
    }

    /** The critical section: look up, and on a miss log, build and insert. */
    method Serve(key: Key, name: Option<string>) returns (r: Result<Client>)
      requires slots.Valid() && this !in slots.Parts()
      modifies `log, slots.Parts()
      ensures slots.Valid()
      ensures var reply := Step(slots.cap, build, old(slots.Contents()), Call(key, name));
              && slots.Contents() == reply.state
              && r == reply.result
              && log == old(log) + reply.log
    {
      ghost var s, c := slots.Contents(), Call(key, name);
      ghost var p := IndexOf(s, key);
      var hit := slots.Get(key);
      if hit.Some? {
        StepHit(slots.cap, build, s, c, p);
        r := Ok(hit.value);
      } else {
        StepMiss(slots.cap, build, s, c);
        r := Miss(key, name);
      }
    }

    method Miss(key: Key, name: Option<string>) returns (r: Result<Client>)
      requires slots.Valid() && this !in slots.Parts()
      requires key !in Keys(slots.Contents())
      modifies `log, slots.Parts()
      ensures slots.Valid()
      ensures r == Build(build, Call(key, name))
      ensures slots.Contents() == if r.Ok? then Insert(slots.cap, old(slots.Contents()), Entry(key, r.value))
                                  else old(slots.Contents())
      ensures log == old(log) + FullNotice(slots.cap, old(slots.Contents()))
    {
      NoticeIfFull();
      r := BuildAndStore(key, name);
    }

    /** Logs which entry a full cache is about to give up. */
    method NoticeIfFull()
      requires slots.Valid() && this !in slots.Parts()
      modifies `log
      ensures log == old(log) + FullNotice(slots.cap, slots.Contents())
    {
      if slots.Len() >= slots.cap {
        var oldest := slots.PeekLru();
        if oldest.Some? {
          log := log + [Notice(oldest.value.domain, oldest.value.port)];
        }
      }
    }

    /** Builds a client for an absent key and caches it, unless the address is refused. */
    method BuildAndStore(key: Key, name: Option<string>) returns (r: Result<Client>)
      requires slots.Valid() && this !in slots.Parts()
      requires key !in Keys(slots.Contents())
      modifies slots.Parts()
      ensures slots.Valid()
      ensures r == Build(build, Call(key, name))
      ensures slots.Contents() == if r.Ok? then Insert(slots.cap, old(slots.Contents()), Entry(key, r.value))
                                  else old(slots.Contents())
    {
      match build(key.domain, key.port) {
        case BadUri(e) => r := Err(AppError.Internal("invalid URI: " + e));
        case BadTls(e) => r := Err(AppError.Internal("TLS config error: " + e));
        case Built =>
          var client := Client(Channel(key.domain, key.port), key.token, name);
          slots.Put(key, client);
          r := Ok(client);
      }
    }

    /** Resolves the headers of a request; malformed ones never reach the cache. */
    method FromRequestParts(h: Headers) returns (r: Result<Client>)
      requires Valid()
      modifies this, slots.Parts()
      ensures Valid()
      ensures match NodeCall(h)
              case Err(e) =>
                r == Err(e) && history == old(history) && log == old(log) && slots.Contents() == old(slots.Contents())
              case Ok(c) =>
                var reply := Step(slots.cap, build, old(slots.Contents()), c);
                && history == old(history) + [c] && r == reply.result && Serves(build, c, r)
                && slots.Contents() == reply.state && log == old(log) + reply.log
    {
      match NodeCall(h) {
        case Err(e) => r := Err(e);
        case Ok(c) => r := GetOrCreate(c.key.domain, c.key.port, c.key.token, c.name);
      }
    }
  }

  /** The cache that all handlers share. */
  method SharedCache(build: Builder) returns (cache: XrayClientCache)
    ensures fresh(cache) && fresh(cache.slots.Parts()) && cache.Valid()
    ensures cache.slots.cap == 256 && cache.build == build && cache.history == []
  {
    cache := new XrayClientCache(DEFAULT_MAX_ENTRIES, build);
  }

  lemma StepHit(k: nat, build: Builder, s: seq<Entry>, c: Call, p: nat)
    requires 0 < k && p == IndexOf(s, c.key) < |s|
    ensures Step(k, build, s, c) == Reply(Promote(s, p), Ok(s[p].client), [])
  {
  }

  lemma StepMiss(k: nat, build: Builder, s: seq<Entry>, c: Call)
    requires 0 < k && c.key !in Keys(s)
    ensures var r := Build(build, c);
            Step(k, build, s, c) ==
            Reply(if r.Ok? then Insert(k, s, Entry(c.key, r.value)) else s, r, FullNotice(k, s))
  {
  }

  lemma HistoryStep(k: nat, build: Builder, h: seq<Call>, c: Call)
    requires 0 < k
    ensures var reply := Step(k, build, Run(k, build, h), c);
            && Run(k, build, h + [c]) == reply.state
            && Answer(k, build, h + [c], |h|) == reply.result
            && Serves(build, c, reply.result)
            && |reply.state| <= k
  {
    assert (h + [c])[..|h|] == h;
    Transparent(k, build, h + [c], |h|);
    RunSound(k, build, h + [c]);
  }

  lemma NameOfResult(k: nat, build: Builder, h: seq<Call>, c: Call)
    requires 0 < k
    ensures var r := Step(k, build, Run(k, build, h), c).result;
            r.Ok? ==>
              if c.key in Keys(Run(k, build, h))
              then exists m: nat :: CreatedBy(k, build, h, c.key, m) && r.value.name == h[m].name
              else r.value.name == c.name
  {
    var g := h + [c];
    assert g[..|h|] == h;
    if c.key in Keys(Run(k, build, h)) {
      var m := HitReturnsLastCreated(k, build, g, |h|);
    } else if Buildable(build, c.key) {
      CreatorsClient(k, build, g, |h|);
    }
  }

  /** Headers select a client exactly when both required ones carry its non-empty domain and token. */
  lemma NodeCallIff(h: Headers, c: Call)
    ensures NodeCall(h) == Ok(c) <==>
            && Carries(h, "x-node-domain", c.key.domain) && c.key.domain != ""
            && Carries(h, "x-node-token", c.key.token) && c.key.token != ""
            && c.key.port == PortOf(h)
            && match c.name
               case Some(s) => Carries(h, "x-node-name", s)
               case None => !exists s :: Carries(h, "x-node-name", s)
  {
    CarriesIff(h, "x-node-domain");
    CarriesIff(h, "x-node-token");
    CarriesIff(h, "x-node-name");
  }

  /** The error names the first required header that is missing, empty or not text. */
  lemma NodeCallRefused(h: Headers)
    requires NodeCall(h).Err?
    ensures NodeCall(h).error == AppError.InvalidArgument(
              if exists s :: Carries(h, "x-node-domain", s) && s != "" then "缺少 X-Node-Token header"
              else "缺少 X-Node-Domain header")
  {
    CarriesIff(h, "x-node-domain");
    CarriesIff(h, "x-node-token");
  }

  /** The port header is text that spells a 16-bit number. */
  ghost predicate PortSpelled(h: Headers, n: u16)
  {
    exists s :: Carries(h, "x-node-port", s) && Spells(s, n)
  }

  /** The port is the one the header spells, and 443 when it spells none. */
  lemma PortOfIff(h: Headers, n: u16)
    ensures PortOf(h) == n <==> if exists m: u16 :: PortSpelled(h, m) then PortSpelled(h, n) else n == 443
  {
    CarriesIff(h, "x-node-port");
    match HeaderText(h, "x-node-port")
    case Some(s) =>
      forall m: u16
        ensures ParsePort(s) == Some(m) <==> PortSpelled(h, m)
      {
        ParsePortIff(s, m);
      }
    case None =>
  }
}
