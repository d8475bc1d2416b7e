/** Node clients, their cache keys, and the outcome of building a channel. */
module Clients {
  import opened Basics

  /** Clients are cached by address and node token: two tokens mean two clients. */
  datatype Key = Key(domain: string, port: u16, token: string)

  /** A lazily connected channel, known only by the address it was built for. */
  datatype Channel = Channel(domain: string, port: u16)

  datatype Client = Client(channel: Channel, token: string, name: Option<string>)

  /** One request for a client; the name is a diagnostic label outside the key. */
  datatype Call = Call(key: Key, name: Option<string>)

  /** What address parsing and TLS set-up answer for an address. */
  datatype Outcome = Built | BadUri(reason: string) | BadTls(reason: string)

  /** Channel construction: deterministic, otherwise unknown. */
  type Builder = (string, u16) -> Outcome

  function Build(build: Builder, c: Call): (r: Result<Client>)
  {
    match build(c.key.domain, c.key.port)
    case Built => Ok(Client(Channel(c.key.domain, c.key.port), c.key.token, c.name))
    case BadUri(e) => Err(AppError.Internal("invalid URI: " + e))
    case BadTls(e) => Err(AppError.Internal("TLS config error: " + e))
  }

  /**
   * What a caller may expect for a request, whatever the cache did: a client for
   * the address and token asked for, under some name, or the error of the step
   * that refused the address.
   */
  ghost predicate Serves(build: Builder, c: Call, r: Result<Client>)
  {
    match build(c.key.domain, c.key.port)
    case Built =>
      r.Ok? && r.value.channel.domain == c.key.domain && r.value.channel.port == c.key.port
      && r.value.token == c.key.token
    case BadUri(reason) => r == Err(AppError.Internal("invalid URI: " + reason))
    case BadTls(reason) => r == Err(AppError.Internal("TLS config error: " + reason))
  }

  predicate Buildable(build: Builder, key: Key)
  {
    build(key.domain, key.port).Built?
  }
}
