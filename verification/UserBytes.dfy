/** The requests that add and remove a user, byte by byte. */
module UserBytes {
  import opened Basics
  import opened Text
  import opened Utf8
  import opened Messages
  import opened Layout
  import opened Users

  /** The type name of a protocol's account, by its package and message. */
  function AccountTypeName(proto: string): string
  {
    "xray.proxy." + proto + ".Account"
  }

  lemma AccountTypeNames()
    ensures VLESS_ACCOUNT_TYPE == AccountTypeName("vless") && VMESS_ACCOUNT_TYPE == AccountTypeName("vmess")
    ensures TROJAN_ACCOUNT_TYPE == AccountTypeName("trojan") && SS_ACCOUNT_TYPE == AccountTypeName("shadowsocks")
  {
  }

  /** The bytes of the account that a body describes. */
  ghost predicate AccountBytes(cs: Casing, b: AddUserBody, bytes: Bytes)
  {
    if cs.lower(b.proto) == "vless" then
      bytes == Opt(0x0A, Encode(b.uuid)) + Opt(0x12, Encode(b.flow)) + Block(0x1A, Encode("none"))
    else if cs.lower(b.proto) == "vmess" then
      exists n: byte :: n < 0x80 && SecurityName(n) == Some(EffectiveSecurity(cs.upper(b.vmessSecurity))) &&
                        bytes == Opt(0x0A, Encode(b.uuid)) + Block(0x1A, [0x08, n])
    else if cs.lower(b.proto) == "trojan" then
      bytes == Block(0x0A, Encode(b.password))
    else
      exists n: byte :: n < 0x80 && CipherName(n) == Some(EffectiveCipher(cs.upper(b.ssCipher))) &&
                        bytes == Block(0x0A, Encode(b.password)) + [0x10, n]
  }

  lemma VlessSpelled(id: string, flow: string)
    ensures EncodeVless(VlessAccount(id, flow, "none", 0, 0, "", None, 0, [])) ==
            Opt(0x0A, Encode(id)) + Opt(0x12, Encode(flow)) + Block(0x1A, Encode("none"))
  {
    VlessIs(VlessAccount(id, flow, "none", 0, 0, "", None, 0, []));
    EmptyText("none");
  }

  lemma VmessSpelled(id: string, n: i32)
    requires 0 < n < 0x80
    ensures EncodeVmess(VmessAccount(id, Some(SecurityConfig(n)), "")) == Opt(0x0A, Encode(id)) + Block(0x1A, [0x08, n])
  {
    VmessIs(VmessAccount(id, Some(SecurityConfig(n)), ""));
    SecurityIs(SecurityConfig(n));
  }

  lemma SsSpelled(password: string, n: i32)
    requires 0 < n < 0x80 && password != ""
    ensures EncodeSs(SsAccount(password, n, false)) == Block(0x0A, Encode(password)) + [0x10, n]
  {
    SsIs(SsAccount(password, n, false));
    EmptyText(password);
  }

  /** Every accepted body's account travels under the type name of its protocol, as these bytes. */
  lemma AccountSpelled(cs: Casing, b: AddUserBody)
    requires BuildAccountTypedMessage(cs, cs.lower(b.proto), b).Ok?
    ensures var m := BuildAccountTypedMessage(cs, cs.lower(b.proto), b).value;
            m.typeName == AccountTypeName(cs.lower(b.proto)) && AccountBytes(cs, b, m.value)
  {
    var p := cs.lower(b.proto);
    AccountTypeNames();
    ProtocolNamesDiffer();
    if p == "vless" {
      VlessSpelled(b.uuid, b.flow);
    } else if p == "vmess" {
      var n := VmessSecurityToInt(cs, b.vmessSecurity);
      SecurityIff(cs, b.vmessSecurity, n);
      VmessSpelled(b.uuid, n);
    } else if p == "trojan" {
      TrojanIs(TrojanAccount(b.password));
      EmptyText(b.password);
    } else {
      var n := SsCipherToInt(cs, b.ssCipher);
      CipherIff(cs, b.ssCipher, n);
      SsSpelled(b.password, n);
    }
  }

  /** The bytes of a user with an account of this protocol. */
  function UserSpelled(b: AddUserBody, proto: string, account: Bytes): Bytes
  {
    OptNum(0x08, b.level) + Opt(0x12, Encode(b.email))
    + Block(0x1A, Block(0x0A, Encode(AccountTypeName(proto))) + Opt(0x12, account))
  }

  /** An operation under its name, inside a request for an inbound. */
  function RequestSpelled(tag: string, operation: string, content: Bytes): Bytes
  {
    Opt(0x0A, Encode(tag)) + Block(0x12, Block(0x0A, Encode(operation)) + Opt(0x12, content))
  }

  lemma RequestIs(tag: string, operation: string, content: Bytes)
    requires operation != ""
    ensures EncodeAlter(AlterInboundRequest(tag, Some(TypedMessage(operation, content)))) ==
            RequestSpelled(tag, operation, content)
  {
    AlterIs(AlterInboundRequest(tag, Some(TypedMessage(operation, content))));
    TypedIs(TypedMessage(operation, content));
    EmptyText(operation);
  }

  lemma UserIsSpelled(b: AddUserBody, proto: string, account: Bytes)
    ensures EncodeUser(User(b.level, b.email, Some(TypedMessage(AccountTypeName(proto), account)))) ==
            UserSpelled(b, proto, account)
  {
    var m := TypedMessage(AccountTypeName(proto), account);
    UserIs(User(b.level, b.email, Some(m)));
    TypedIs(m);
    EmptyText(m.typeName);
  }

  /** Every accepted body is sent as exactly these bytes: operation and account named in full, layer in layer. */
  lemma AddUserSpelled(cs: Casing, b: AddUserBody) returns (account: Bytes)
    requires AddUserBytes(cs, b).Ok?
    ensures AccountBytes(cs, b, account)
    ensures AddUserBytes(cs, b) ==
            Ok(RequestSpelled(b.tag, "xray.app.proxyman.command.AddUserOperation",
                              Block(0x0A, UserSpelled(b, cs.lower(b.proto), account))))
  {
    AccountSpelled(cs, b);
    var m := BuildAccountTypedMessage(cs, cs.lower(b.proto), b).value;
    account := m.value;
    var user := User(b.level, b.email, Some(m));
    UserIsSpelled(b, cs.lower(b.proto), account);
    AddIs(user);
    RequestIs(b.tag, "xray.app.proxyman.command.AddUserOperation", EncodeAdd(AddUserOperation(Some(user))));
  }

  /** Every removal is sent as exactly these bytes. */
  lemma RemoveUserSpelled(tag: string, email: string)
    ensures RemoveUserBytes(tag, email) ==
            RequestSpelled(tag, "xray.app.proxyman.command.RemoveUserOperation", Opt(0x0A, Encode(email)))
  {
    RemoveIs(RemoveUserOperation(email));
    RequestIs(tag, "xray.app.proxyman.command.RemoveUserOperation", EncodeRemove(RemoveUserOperation(email)));
  }
}
