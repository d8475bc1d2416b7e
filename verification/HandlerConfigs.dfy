/** Handler configurations given as JSON, with their settings as base64 messages. */
module HandlerConfigs {
  import opened Basics
  import opened Messages
  import B64 = Base64

  datatype Json =
    | Null
    | Bool(flag: bool)
    | Number(number: real)
    | Text(text: string)
    | List(items: seq<Json>)
    | Object(members: map<string, Json>)

  datatype InboundHandlerConfig = InboundHandlerConfig(
    tag: string, receiverSettings: Option<TypedMessage>, proxySettings: Option<TypedMessage>)

  datatype OutboundHandlerConfig = OutboundHandlerConfig(
    tag: string, senderSettings: Option<TypedMessage>, proxySettings: Option<TypedMessage>,
    expire: int, comment: string)

  /** A member of an object; no other value has members. */
  function Get(v: Json, name: string): Option<Json>
  {
    if v.Object? && name in v.members then Some(v.members[name]) else None
  }

  function AsText(v: Option<Json>): Option<string>
  {
    if v.Some? && v.value.Text? then Some(v.value.text) else None
  }

  function ExtractTypedMessage(v: Json, field: string): Result<Option<TypedMessage>>
  {
    match Get(v, field)
    case None => Ok(None)
    case Some(sub) =>
      match AsText(Get(sub, "type"))
      case None => Err(AppError.UnprocessableEntity(field + ".type must be a string"))
      case Some(name) =>
        match AsText(Get(sub, "value"))
        case None => Err(AppError.UnprocessableEntity(field + ".value must be a base64 string"))
        case Some(b64) =>
          match B64.Decode(b64)
          case None => Err(AppError.UnprocessableEntity(field + ".value base64 decode error"))
          case Some(value) => Ok(Some(TypedMessage(name, value)))
  }

  function TagOf(v: Json): Result<string>
  {
    match AsText(Get(v, "tag"))
    case Some(tag) => Ok(tag)
    case None => Err(AppError.UnprocessableEntity("config.tag is required"))
  }

  /** The tag and two settings of a configuration, the first error winning. */
  function ReadConfig(v: Json, first: string, second: string): Result<(string, Option<TypedMessage>, Option<TypedMessage>)>
  {
    match TagOf(v)
    case Err(e) => Err(e)
    case Ok(tag) =>
      match ExtractTypedMessage(v, first)
      case Err(e) => Err(e)
      case Ok(a) =>
        match ExtractTypedMessage(v, second)
        case Err(e) => Err(e)
        case Ok(b) => Ok((tag, a, b))
  }

  function JsonToInboundConfig(v: Json): Result<InboundHandlerConfig>
  {
    match ReadConfig(v, "receiver_settings", "proxy_settings")
    case Err(e) => Err(e)
    case Ok((tag, receiver, proxy)) => Ok(InboundHandlerConfig(tag, receiver, proxy))
  }

  function JsonToOutboundConfig(v: Json): Result<OutboundHandlerConfig>
  {
    match ReadConfig(v, "sender_settings", "proxy_settings")
    case Err(e) => Err(e)
    case Ok((tag, sender, proxy)) => Ok(OutboundHandlerConfig(tag, sender, proxy, 0, ""))
  }

  /** The JSON is an object with this member. */
  ghost predicate Has(v: Json, name: string, member: Json)
  {
    v.Object? && name in v.members && v.members[name] == member
  }

  lemma GetIff(v: Json, name: string)
    ensures forall j :: Get(v, name) == Some(j) <==> Has(v, name, j)
  {
  }

  /** The documented shape of a setting: an absent member, or a type name and a base64 value. */
  ghost predicate Shape(v: Json, field: string, m: Option<TypedMessage>)
  {
    match m
    case None => !exists sub :: Has(v, field, sub)
    case Some(t) =>
      exists sub :: Has(v, field, sub) && Has(sub, "type", Text(t.typeName)) && Has(sub, "value", Text(B64.Encode(t.value)))
  }

  /** A setting is extracted exactly when the JSON has its documented shape, canonical base64 included. */
  lemma ExtractIff(v: Json, field: string, m: Option<TypedMessage>)
    ensures ExtractTypedMessage(v, field) == Ok(m) <==> Shape(v, field, m)
  {
    GetIff(v, field);
    match Get(v, field)
    case None =>
    case Some(sub) =>
      GetIff(sub, "type");
      GetIff(sub, "value");
      match (AsText(Get(sub, "type")), AsText(Get(sub, "value"))) {
        case (Some(name), Some(b64)) =>
          if m.Some? {
            B64.DecodeIff(b64, m.value.value);
          }
        case _ =>
      }
  }

  /** What is wrong with a refused setting, the first fault winning. */
  lemma ExtractRefused(v: Json, field: string)
    requires ExtractTypedMessage(v, field).Err?
    ensures ExtractTypedMessage(v, field).error == AppError.UnprocessableEntity(
              if !exists sub, t :: Has(v, field, sub) && Has(sub, "type", Text(t)) then field + ".type must be a string"
              else if !exists sub, t :: Has(v, field, sub) && Has(sub, "value", Text(t))
              then field + ".value must be a base64 string"
              else field + ".value base64 decode error")
  {
    var sub := Get(v, field).value;
    GetIff(v, field);
    GetIff(sub, "type");
    GetIff(sub, "value");
  }

  /** A configuration is accepted, and with this content, exactly when the JSON spells it. */
  lemma InboundIff(v: Json, c: InboundHandlerConfig)
    ensures JsonToInboundConfig(v) == Ok(c) <==>
            && Has(v, "tag", Text(c.tag))
            && Shape(v, "receiver_settings", c.receiverSettings)
            && Shape(v, "proxy_settings", c.proxySettings)
  {
    ExtractIff(v, "receiver_settings", c.receiverSettings);
    ExtractIff(v, "proxy_settings", c.proxySettings);
  }

  lemma OutboundIff(v: Json, c: OutboundHandlerConfig)
    ensures JsonToOutboundConfig(v) == Ok(c) <==>
            && Has(v, "tag", Text(c.tag))
            && Shape(v, "sender_settings", c.senderSettings)
            && Shape(v, "proxy_settings", c.proxySettings)
            && c.expire == 0 && c.comment == ""
  {
    ExtractIff(v, "sender_settings", c.senderSettings);
    ExtractIff(v, "proxy_settings", c.proxySettings);
  }

  /** The JSON that spells a message. */
  function JsonOf(m: TypedMessage): Json
  {
    Object(map["type" := Text(m.typeName), "value" := Text(B64.Encode(m.value))])
  }

  /** Every configuration has a JSON form, and is read back from it. */
  lemma InboundRoundTrip(c: InboundHandlerConfig)
    ensures var members := map["tag" := Text(c.tag)]
              + (match c.receiverSettings case None => map[] case Some(m) => map["receiver_settings" := JsonOf(m)])
              + (match c.proxySettings case None => map[] case Some(m) => map["proxy_settings" := JsonOf(m)]);
            JsonToInboundConfig(Object(members)) == Ok(c)
  {
    var members := map["tag" := Text(c.tag)]
      + (match c.receiverSettings case None => map[] case Some(m) => map["receiver_settings" := JsonOf(m)])
      + (match c.proxySettings case None => map[] case Some(m) => map["proxy_settings" := JsonOf(m)]);
    assert "receiver_settings"[0] == 'r' && "proxy_settings"[0] == 'p' && "tag"[0] == 't';
    SettingSpelled(Object(members), "receiver_settings", c.receiverSettings);
    SettingSpelled(Object(members), "proxy_settings", c.proxySettings);
    InboundIff(Object(members), c);
  }

  lemma SettingSpelled(v: Json, field: string, m: Option<TypedMessage>)
    requires v.Object?
    requires match m
             case None => field !in v.members
             case Some(t) => field in v.members && v.members[field] == JsonOf(t)
    ensures Shape(v, field, m)
  {
    if m.Some? {
      assert "type"[0] == 't' && "value"[0] == 'v';
      assert Has(v, field, JsonOf(m.value));
    }
  }
}
