/** Building the requests that add and remove a user, and what a node reads in them. */
module Users {
  import opened Basics
  import opened Text
  import opened Utf8
  import opened Wire
  import opened Messages

  const VLESS_ACCOUNT_TYPE := "xray.proxy.vless.Account"
  const VMESS_ACCOUNT_TYPE := "xray.proxy.vmess.Account"
  const TROJAN_ACCOUNT_TYPE := "xray.proxy.trojan.Account"
  const SS_ACCOUNT_TYPE := "xray.proxy.shadowsocks.Account"
  const ADD_USER_OP_TYPE := "xray.app.proxyman.command.AddUserOperation"
  const REMOVE_USER_OP_TYPE := "xray.app.proxyman.command.RemoveUserOperation"

  /** The body of an add-user request, defaults filled in. */
  datatype AddUserBody = AddUserBody(
    tag: string, email: string, proto: string, level: u32,
    uuid: string, flow: string, vmessSecurity: string, password: string, ssCipher: string)

  function VmessSecurityToInt(cs: Casing, name: string): (n: i32)
    ensures 2 <= n <= 6
  {
    match cs.upper(name)
    case "AUTO" => 2
    case "AES128_GCM" => 3
    case "CHACHA20_POLY1305" => 4
    case "NONE" => 5
    case "ZERO" => 6
    case _ => 2
  }

  function SsCipherToInt(cs: Casing, name: string): (n: i32)
    ensures 5 <= n <= 9
  {
    match cs.upper(name)
    case "AES_128_GCM" => 5
    case "AES_256_GCM" => 6
    case "CHACHA20_POLY1305" => 7
    case "XCHACHA20_POLY1305" => 8
    case "NONE" => 9
    case _ => 7
  }

  /** The names that the SecurityType and CipherType enums give to their numbers. */
  function SecurityName(n: int): Option<string>
  {
    match n
    case 0 => Some(UNKNOWN)
    case 2 => Some("AUTO")
    case 3 => Some("AES128_GCM")
    case 4 => Some("CHACHA20_POLY1305")
    case 5 => Some("NONE")
    case 6 => Some("ZERO")
    case _ => None
  }

  function CipherName(n: int): Option<string>
  {
    match n
    case 0 => Some(UNKNOWN)
    case 5 => Some("AES_128_GCM")
    case 6 => Some("AES_256_GCM")
    case 7 => Some("CHACHA20_POLY1305")
    case 8 => Some("XCHACHA20_POLY1305")
    case 9 => Some("NONE")
    case _ => None
  }

  const UNKNOWN := "UNKNOWN"

  ghost predicate NamesSecurity(s: string)
  {
    exists n: int :: SecurityName(n) == Some(s)
  }

  ghost predicate NamesCipher(s: string)
  {
    exists n: int :: CipherName(n) == Some(s)
  }

  /** The security level a text stands for: an enum name other than UNKNOWN, or else AUTO. */
  ghost function EffectiveSecurity(s: string): string
  {
    if NamesSecurity(s) && s != UNKNOWN then s else "AUTO"
  }

  ghost function EffectiveCipher(s: string): string
  {
    if NamesCipher(s) && s != UNKNOWN then s else "CHACHA20_POLY1305"
  }

  /** The number sent is that of the name a text stands for. */
  lemma SecurityIff(cs: Casing, name: string, n: i32)
    ensures VmessSecurityToInt(cs, name) == n <==> SecurityName(n) == Some(EffectiveSecurity(cs.upper(name)))
  {
    SecurityNamesDiffer();
    var m := VmessSecurityToInt(cs, name);
    assert SecurityName(m) == Some(cs.upper(name)) || !NamesSecurity(cs.upper(name)) || cs.upper(name) == UNKNOWN;
  }

  /** The enum's own number for the text is sent exactly when the text is an enum name other than UNKNOWN. */
  lemma SecurityKeptIff(cs: Casing, name: string)
    ensures SecurityName(VmessSecurityToInt(cs, name)) == Some(cs.upper(name)) <==>
            NamesSecurity(cs.upper(name)) && cs.upper(name) != UNKNOWN
  {
    SecurityIff(cs, name, VmessSecurityToInt(cs, name));
  }

  /** The number sent is that of the name a text stands for. */
  lemma CipherIff(cs: Casing, name: string, n: i32)
    ensures SsCipherToInt(cs, name) == n <==> CipherName(n) == Some(EffectiveCipher(cs.upper(name)))
  {
    SecurityNamesDiffer();
    var m := SsCipherToInt(cs, name);
    assert CipherName(m) == Some(cs.upper(name)) || !NamesCipher(cs.upper(name)) || cs.upper(name) == UNKNOWN;
  }

  /** The enum's own number for the text is sent exactly when the text is an enum name other than UNKNOWN. */
  lemma CipherKeptIff(cs: Casing, name: string)
    ensures CipherName(SsCipherToInt(cs, name)) == Some(cs.upper(name)) <==>
            NamesCipher(cs.upper(name)) && cs.upper(name) != UNKNOWN
  {
    CipherIff(cs, name, SsCipherToInt(cs, name));
  }

  /** The enum name UNKNOWN, whose number is 0, is not sent as such: the default is. */
  lemma UnknownIsReplaced(cs: Casing, name: string)
    requires cs.upper(name) == UNKNOWN
    ensures SecurityName(0) == CipherName(0) == Some(cs.upper(name))
    ensures VmessSecurityToInt(cs, name) == 2 && SsCipherToInt(cs, name) == 7
  {
  }

  lemma SecurityNamesDiffer()
    ensures "NONE" != "AUTO" && "NONE" != "ZERO" && "AUTO" != "ZERO"
    ensures "AES_128_GCM" != "AES_256_GCM" && UNKNOWN != "AUTO" && UNKNOWN != "CHACHA20_POLY1305"
  {
    assert "NONE"[0] == 'N' && "AUTO"[0] == 'A' && "ZERO"[0] == 'Z';
    assert "AES_128_GCM"[4] == '1' && "AES_256_GCM"[4] == '2';
  }

  /** An account of one of the supported protocols. */
  datatype Account =
    | Vless(vless: VlessAccount)
    | Vmess(vmess: VmessAccount)
    | Trojan(trojan: TrojanAccount)
    | Shadowsocks(ss: SsAccount)

  /** The type name and bytes under which an account travels. */
  function PackAccount(a: Account): TypedMessage
  {
    match a
    case Vless(v) => TypedMessage(VLESS_ACCOUNT_TYPE, EncodeVless(v))
    case Vmess(v) => TypedMessage(VMESS_ACCOUNT_TYPE, EncodeVmess(v))
    case Trojan(v) => TypedMessage(TROJAN_ACCOUNT_TYPE, EncodeTrojan(v))
    case Shadowsocks(v) => TypedMessage(SS_ACCOUNT_TYPE, EncodeSs(v))
  }

  /** The account a body describes under the given protocol name. */
  function AccountOf(cs: Casing, proto: string, b: AddUserBody): Result<Account>
  {
    if proto == "vless" then
      Ok(Vless(VlessAccount(b.uuid, b.flow, "none", 0, 0, "", None, 0, [])))
    else if proto == "vmess" then
      Ok(Vmess(VmessAccount(b.uuid, Some(SecurityConfig(VmessSecurityToInt(cs, b.vmessSecurity))), "")))
    else if proto == "trojan" then
      if b.password == "" then Err(AppError.UnprocessableEntity("Trojan protocol requires password"))
      else Ok(Trojan(TrojanAccount(b.password)))
    else if proto == "shadowsocks" then
      if b.password == "" then Err(AppError.UnprocessableEntity("Shadowsocks protocol requires password"))
      else Ok(Shadowsocks(SsAccount(b.password, SsCipherToInt(cs, b.ssCipher), false)))
    else
      Err(AppError.UnprocessableEntity(
            "Unknown protocol '" + proto + "'. Supported: vless, vmess, trojan, shadowsocks"))
  }

  function BuildAccountTypedMessage(cs: Casing, proto: string, b: AddUserBody): Result<TypedMessage>
  {
    match AccountOf(cs, proto, b)
    case Ok(a) => Ok(PackAccount(a))
    case Err(e) => Err(e)
  }

  function AddRequest(tag: string, email: string, level: u32, account: TypedMessage): AlterInboundRequest
  {
    var op := AddUserOperation(Some(User(level, email, Some(account))));
    AlterInboundRequest(tag, Some(TypedMessage(ADD_USER_OP_TYPE, EncodeAdd(op))))
  }

  /** The bytes sent to add a user. */
  function AddUserBytes(cs: Casing, b: AddUserBody): Result<Bytes>
  {
    match BuildAccountTypedMessage(cs, cs.lower(b.proto), b)
    case Ok(m) => Ok(EncodeAlter(AddRequest(b.tag, b.email, b.level, m)))
    case Err(e) => Err(e)
  }

  function RemoveRequest(tag: string, email: string): AlterInboundRequest
  {
    AlterInboundRequest(tag, Some(TypedMessage(REMOVE_USER_OP_TYPE, EncodeRemove(RemoveUserOperation(email)))))
  }

  /** The bytes sent to remove a user. */
  function RemoveUserBytes(tag: string, email: string): Bytes
  {
    EncodeAlter(RemoveRequest(tag, email))
  }

  // ----- The node's side -----

  datatype Operation =
    | Added(tag: string, email: string, level: u32, account: Account)
    | Removed(tag: string, email: string)

  function UnpackAccount(m: TypedMessage): Option<Account>
  {
    if m.typeName == "xray.proxy.vless.Account" then
      var v :- DecodeVless(m.value); Some(Vless(v))
    else if m.typeName == "xray.proxy.vmess.Account" then
      var v :- DecodeVmess(m.value); Some(Vmess(v))
    else if m.typeName == "xray.proxy.trojan.Account" then
      var v :- DecodeTrojan(m.value); Some(Trojan(v))
    else if m.typeName == "xray.proxy.shadowsocks.Account" then
      var v :- DecodeSs(m.value); Some(Shadowsocks(v))
    else None
  }

  /** Reads an alter-inbound request layer by layer, by the type names that the message definitions give. */
  function ReadOperation(b: Bytes): Option<Operation>
  {
    var req :- DecodeAlter(b);
    var op :- req.operation;
    if op.typeName == "xray.app.proxyman.command.AddUserOperation" then
      var add :- DecodeAdd(op.value);
      var user :- add.user;
      var packed :- user.account;
      var account :- UnpackAccount(packed);
      Some(Added(req.tag, user.email, user.level, account))
    else if op.typeName == "xray.app.proxyman.command.RemoveUserOperation" then
      var remove :- DecodeRemove(op.value);
      Some(Removed(req.tag, remove.email))
    else None
  }

  lemma TypeNamesDiffer()
    ensures VLESS_ACCOUNT_TYPE != VMESS_ACCOUNT_TYPE && VLESS_ACCOUNT_TYPE != TROJAN_ACCOUNT_TYPE
    ensures VLESS_ACCOUNT_TYPE != SS_ACCOUNT_TYPE && VMESS_ACCOUNT_TYPE != TROJAN_ACCOUNT_TYPE
    ensures VMESS_ACCOUNT_TYPE != SS_ACCOUNT_TYPE && TROJAN_ACCOUNT_TYPE != SS_ACCOUNT_TYPE
    ensures ADD_USER_OP_TYPE != REMOVE_USER_OP_TYPE
  {
    assert VLESS_ACCOUNT_TYPE[12] == 'l' && VMESS_ACCOUNT_TYPE[12] == 'm';
    assert VLESS_ACCOUNT_TYPE[11] == 'v' && VMESS_ACCOUNT_TYPE[11] == 'v';
    assert TROJAN_ACCOUNT_TYPE[11] == 't' && SS_ACCOUNT_TYPE[11] == 's';
    assert ADD_USER_OP_TYPE[26] == 'A' && REMOVE_USER_OP_TYPE[26] == 'R';
  }

  lemma UnpackPacked(a: Account)
    requires |PackAccount(a).value| <= MAX_BYTES
    ensures UnpackAccount(PackAccount(a)) == Some(a)
  {
    TypeNamesDiffer();
    match a
    case Vless(v) => VlessRoundTrip(v);
    case Vmess(v) => VmessRoundTrip(v);
    case Trojan(v) => TrojanRoundTrip(v);
    case Shadowsocks(v) => SsRoundTrip(v);
  }

  // ----- Round trips through all layers -----

  lemma AddRequestRoundTrip(tag: string, email: string, level: u32, a: Account)
    requires |EncodeAlter(AddRequest(tag, email, level, PackAccount(a)))| <= MAX_BYTES
    ensures ReadOperation(EncodeAlter(AddRequest(tag, email, level, PackAccount(a)))) == Some(Added(tag, email, level, a))
  {
    var op := AddUserOperation(Some(User(level, email, Some(PackAccount(a)))));
    var req := AddRequest(tag, email, level, PackAccount(a));
    AlterRoundTrip(req);
    OperationFits(req);
    AddRoundTrip(op);
    AccountFits(op);
    UnpackPacked(a);
  }

  /** The account is the one the body asks for, field by field. */
  ghost predicate Describes(cs: Casing, b: AddUserBody, a: Account)
  {
    match a
    case Vless(v) =>
      && cs.lower(b.proto) == "vless" && v.id == b.uuid && v.flow == b.flow && v.encryption == "none"
      && v.xorMode == v.seconds == v.testpre == 0 && v.padding == "" && v.reverse == None && v.testseed == []
    case Vmess(v) =>
      && cs.lower(b.proto) == "vmess" && v.id == b.uuid && v.testsEnabled == "" && v.security.Some?
      && SecurityName(v.security.value.securityType) == Some(EffectiveSecurity(cs.upper(b.vmessSecurity)))
    case Trojan(v) =>
      cs.lower(b.proto) == "trojan" && v.password == b.password != ""
    case Shadowsocks(v) =>
      && cs.lower(b.proto) == "shadowsocks" && v.password == b.password != "" && !v.ivCheck
      && CipherName(v.cipherType) == Some(EffectiveCipher(cs.upper(b.ssCipher)))
  }

  lemma AccountDescribed(cs: Casing, b: AddUserBody)
    requires AccountOf(cs, cs.lower(b.proto), b).Ok?
    ensures Describes(cs, b, AccountOf(cs, cs.lower(b.proto), b).value)
  {
    SecurityIff(cs, b.vmessSecurity, VmessSecurityToInt(cs, b.vmessSecurity));
    CipherIff(cs, b.ssCipher, SsCipherToInt(cs, b.ssCipher));
  }

  /** What a node reads in the request is exactly the tag, email, level and account that the body asks for. */
  lemma AddUserRoundTrip(cs: Casing, b: AddUserBody) returns (account: Account)
    requires AddUserBytes(cs, b).Ok? && |AddUserBytes(cs, b).value| <= MAX_BYTES
    ensures ReadOperation(AddUserBytes(cs, b).value) == Some(Added(b.tag, b.email, b.level, account))
    ensures Describes(cs, b, account)
    ensures AccountOf(cs, cs.lower(b.proto), b) == Ok(account)
  {
    account := AccountOf(cs, cs.lower(b.proto), b).value;
    AccountDescribed(cs, b);
    AddRequestRoundTrip(b.tag, b.email, b.level, account);
  }

  lemma RemoveUserRoundTrip(tag: string, email: string)
    requires |RemoveUserBytes(tag, email)| <= MAX_BYTES
    ensures ReadOperation(RemoveUserBytes(tag, email)) == Some(Removed(tag, email))
  {
    var req := RemoveRequest(tag, email);
    AlterRoundTrip(req);
    OperationFits(req);
    RemoveRoundTrip(RemoveUserOperation(email));
    TypeNamesDiffer();
  }

  // ----- Which bodies give the same bytes -----

  /** A body is accepted exactly when its protocol is known and brings the password it needs. */
  lemma AcceptedIff(cs: Casing, b: AddUserBody)
    ensures AddUserBytes(cs, b).Ok? <==>
            || cs.lower(b.proto) in {"vless", "vmess"}
            || (cs.lower(b.proto) in {"trojan", "shadowsocks"} && b.password != "")
    ensures AddUserBytes(cs, b).Err? ==> AddUserBytes(cs, b).error.UnprocessableEntity?
  {
    ProtocolNamesDiffer();
  }

  lemma ProtocolNamesDiffer()
    ensures "vless" != "vmess" && "vless" != "trojan" && "vless" != "shadowsocks"
    ensures "vmess" != "trojan" && "vmess" != "shadowsocks" && "trojan" != "shadowsocks"
  {
    assert "vless"[1] == 'l' && "vmess"[1] == 'm';
  }

  /** Equal in the fields that a protocol uses. */
  predicate SameFields(cs: Casing, proto: string, a: AddUserBody, b: AddUserBody)
  {
    if proto == "vless" then
      a.uuid == b.uuid && a.flow == b.flow
    else if proto == "vmess" then
      a.uuid == b.uuid && VmessSecurityToInt(cs, a.vmessSecurity) == VmessSecurityToInt(cs, b.vmessSecurity)
    else if proto == "trojan" then
      a.password == b.password
    else
      a.password == b.password && SsCipherToInt(cs, a.ssCipher) == SsCipherToInt(cs, b.ssCipher)
  }

  predicate SameUsedFields(cs: Casing, a: AddUserBody, b: AddUserBody)
  {
    cs.lower(a.proto) == cs.lower(b.proto) && SameFields(cs, cs.lower(a.proto), a, b)
  }

  function ProtocolOf(a: Account): string
  {
    match a
    case Vless(_) => "vless"
    case Vmess(_) => "vmess"
    case Trojan(_) => "trojan"
    case Shadowsocks(_) => "shadowsocks"
  }

  lemma AccountTellsProtocol(cs: Casing, proto: string, b: AddUserBody)
    requires AccountOf(cs, proto, b).Ok?
    ensures ProtocolOf(AccountOf(cs, proto, b).value) == proto
  {
  }

  lemma SameFieldsIff(cs: Casing, proto: string, a: AddUserBody, b: AddUserBody)
    requires AccountOf(cs, proto, a).Ok? && AccountOf(cs, proto, b).Ok?
    ensures AccountOf(cs, proto, a).value == AccountOf(cs, proto, b).value <==> SameFields(cs, proto, a, b)
  {
  }

  lemma SameAccountIff(cs: Casing, a: AddUserBody, b: AddUserBody)
    requires AccountOf(cs, cs.lower(a.proto), a).Ok? && AccountOf(cs, cs.lower(b.proto), b).Ok?
    ensures AccountOf(cs, cs.lower(a.proto), a).value == AccountOf(cs, cs.lower(b.proto), b).value <==>
            SameUsedFields(cs, a, b)
  {
    var p, q := cs.lower(a.proto), cs.lower(b.proto);
    AccountTellsProtocol(cs, p, a);
    AccountTellsProtocol(cs, q, b);
    if p == q {
      SameFieldsIff(cs, p, a, b);
    }
  }

  /**
   * Two accepted bodies give the same bytes exactly when they agree on tag,
   * email, level, protocol and the fields that protocol uses: the other fields
   * never matter and no two protocols collide.
   */
  lemma SameBytesIff(cs: Casing, a: AddUserBody, b: AddUserBody)
    requires AddUserBytes(cs, a).Ok? && |AddUserBytes(cs, a).value| <= MAX_BYTES
    requires AddUserBytes(cs, b).Ok? && |AddUserBytes(cs, b).value| <= MAX_BYTES
    ensures AddUserBytes(cs, a) == AddUserBytes(cs, b) <==>
            a.tag == b.tag && a.email == b.email && a.level == b.level && SameUsedFields(cs, a, b)
  {
    var first := AddUserRoundTrip(cs, a);
    var second := AddUserRoundTrip(cs, b);
    SameAccountIff(cs, a, b);
  }

  /** Removals give the same bytes only for the same tag and email, and never those of an addition. */
  lemma RemovalsAreDistinct(tag: string, email: string, tag': string, email': string, cs: Casing, b: AddUserBody)
    requires |RemoveUserBytes(tag, email)| <= MAX_BYTES && |RemoveUserBytes(tag', email')| <= MAX_BYTES
    ensures RemoveUserBytes(tag, email) == RemoveUserBytes(tag', email') ==> tag == tag' && email == email'
    ensures AddUserBytes(cs, b) != Ok(RemoveUserBytes(tag, email))
  {
    RemoveUserRoundTrip(tag, email);
    RemoveUserRoundTrip(tag', email');
    if AddUserBytes(cs, b) == Ok(RemoveUserBytes(tag, email)) {
      var account := AddUserRoundTrip(cs, b);
    }
  }
}
