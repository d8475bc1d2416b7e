/**
 * The bytes of each message, spelled out with its key bytes: a key is eight times
 * the field number plus 0 for a number and 2 for what has a length.
 */
module Layout {
  import opened Basics
  import opened Utf8
  import opened Wire
  import opened Messages

  /** Text or bytes, left out when empty. */
  function Opt(key: byte, b: Bytes): Bytes
  {
    if b == [] then [] else Block(key, b)
  }

  function Block(key: byte, b: Bytes): Bytes
  {
    [key] + Varint(|b|) + b
  }

  /** A submessage, left out when absent. */
  function Sub(key: byte, b: Option<Bytes>): Bytes
  {
    match b case None => [] case Some(x) => Block(key, x)
  }

  /** A number, left out when zero; a negative one is sign-extended to 64 bits. */
  function OptNum(key: byte, n: int): Bytes
    requires -0x8000_0000 <= n
  {
    if n == 0 then []
    else if n < 0 then [key] + Varint(0x1_0000_0000_0000_0000 + n)
    else [key] + Varint(n)
  }

  /** A truth value, left out when false. */
  function Flag(key: byte, v: bool): Bytes
  {
    if v then [key, 1] else []
  }

  /** Each record starts with its key, and a length comes before what has no length of its own. */
  lemma RecordIs(tag: nat, n: nat, p: Bytes)
    ensures EncodeField(Num(tag, n)) == Varint(8 * tag) + Varint(n)
    ensures EncodeField(Fixed64(tag, p)) == Varint(8 * tag + 1) + p
    ensures EncodeField(Len(tag, p)) == Varint(8 * tag + 2) + Varint(|p|) + p
    ensures EncodeField(Fixed32(tag, p)) == Varint(8 * tag + 5) + p
  {
    assert Varint(8 * tag + 2) + (Varint(|p|) + p) == Varint(8 * tag + 2) + Varint(|p|) + p;
  }

  lemma {:induction false} FieldsAppend(a: seq<Field>, b: seq<Field>)
    ensures EncodeFields(a + b) == EncodeFields(a) + EncodeFields(b)
  {
    if a == [] {
      assert a + b == b;
    } else {
      FieldsAppend(a[1..], b);
      Assoc(EncodeField(a[0]), EncodeFields(a[1..]), EncodeFields(b));
      AppendTail(a, b);
    }
  }

  lemma EmptyText(s: string)
    ensures Encode(s) == [] <==> s == []
  {
  }

  lemma OneRecord(f: Field)
    ensures EncodeFields([f]) == EncodeField(f)
  {
    assert EncodeFields([f][1..]) == [];
  }

  // ----- Pieces -----

  function Bytes1(p: Piece): Bytes
  {
    EncodeFields(p.fields)
  }

  lemma SmallKey(n: nat)
    requires n < 0x80
    ensures Varint(n) == [n]
  {
  }

  lemma LenIs(tag: nat, b: Bytes)
    requires 1 <= tag < 16
    ensures EncodeFields([Len(tag, b)]) == Block(8 * tag + 2, b)
  {
    OneRecord(Len(tag, b));
    RecordIs(tag, 0, b);
    SmallKey(8 * tag + 2);
  }

  lemma NumIs(tag: nat, n: nat)
    requires 1 <= tag < 16
    ensures EncodeFields([Num(tag, n)]) == [8 * tag] + Varint(n)
  {
    OneRecord(Num(tag, n));
    RecordIs(tag, n, []);
    SmallKey(8 * tag);
  }

  lemma StrIs(tag: nat, s: string)
    requires 1 <= tag < 16
    ensures Bytes1(Str(tag, s)) == Opt(8 * tag + 2, Encode(s))
  {
    EmptyText(s);
    LenIs(tag, Encode(s));
  }

  lemma RawIs(tag: nat, b: Bytes)
    requires 1 <= tag < 16
    ensures Bytes1(Raw(tag, b)) == Opt(8 * tag + 2, b)
  {
    LenIs(tag, b);
  }

  lemma MsgIs(tag: nat, m: Option<Bytes>)
    requires 1 <= tag < 16
    ensures Bytes1(Msg(tag, m)) == Sub(8 * tag + 2, m)
  {
    if m.Some? {
      LenIs(tag, m.value);
    }
  }

  lemma UintIs(tag: nat, n: u32)
    requires 1 <= tag < 16
    ensures Bytes1(Uint(tag, n)) == OptNum(8 * tag, n)
  {
    NumIs(tag, n);
  }

  lemma EnumIs(tag: nat, n: i32)
    requires 1 <= tag < 16
    ensures Bytes1(Enum(tag, n)) == OptNum(8 * tag, n)
  {
    NumIs(tag, if n < 0 then n + TWO_TO_64 else n);
  }

  lemma BoolIs(tag: nat, v: bool)
    requires 1 <= tag < 16
    ensures Bytes1(Bool(tag, v)) == Flag(8 * tag, v)
  {
    NumIs(tag, 1);
    SmallKey(1);
  }

  lemma PackedIs(tag: nat, ns: seq<u32>)
    requires 1 <= tag < 16
    ensures Bytes1(Packed(tag, ns)) == Opt(8 * tag + 2, Varints(ns))
  {
    LenIs(tag, Varints(ns));
  }

  lemma WriteCons(p: Piece, rest: seq<Piece>)
    ensures Write([p] + rest) == Bytes1(p) + Write(rest)
  {
    assert ([p] + rest)[1..] == rest;
    FieldsAppend(p.fields, Concat(rest));
  }

  lemma Write1(p: Piece)
    ensures Write([p]) == Bytes1(p)
  {
    WriteCons(p, []);
    assert [p] + [] == [p] && Bytes1(p) + [] == Bytes1(p);
  }

  lemma Write2(p: Piece, q: Piece)
    ensures Write([p, q]) == Bytes1(p) + Bytes1(q)
  {
    Write1(q);
    WriteCons(p, [q]);
    assert [p] + [q] == [p, q];
  }

  lemma Write3(p: Piece, q: Piece, r: Piece)
    ensures Write([p, q, r]) == Bytes1(p) + Bytes1(q) + Bytes1(r)
  {
    Write2(q, r);
    WriteCons(p, [q, r]);
    Assoc(Bytes1(p), Bytes1(q), Bytes1(r));
    assert [p] + [q, r] == [p, q, r];
  }

  lemma {:induction false} ConcatAppend(a: seq<Piece>, b: seq<Piece>)
    ensures Concat(a + b) == Concat(a) + Concat(b)
  {
    if a == [] {
      assert a + b == b;
    } else {
      ConcatAppend(a[1..], b);
      Assoc(a[0].fields, Concat(a[1..]), Concat(b));
      AppendTail(a, b);
    }
  }

  lemma WriteAppend(a: seq<Piece>, b: seq<Piece>)
    ensures Write(a + b) == Write(a) + Write(b)
  {
    ConcatAppend(a, b);
    FieldsAppend(Concat(a), Concat(b));
  }

  // ----- Messages -----

  lemma TypedIs(m: TypedMessage)
    ensures EncodeTyped(m) == Opt(0x0A, Encode(m.typeName)) + Opt(0x12, m.value)
  {
    Write2(Str(1, m.typeName), Raw(2, m.value));
    StrIs(1, m.typeName);
    RawIs(2, m.value);
  }

  lemma UserIs(u: User)
    ensures EncodeUser(u) ==
            OptNum(0x08, u.level) + Opt(0x12, Encode(u.email)) + Sub(0x1A, EncodeTypedOption(u.account))
  {
    Write3(Uint(1, u.level), Str(2, u.email), Msg(3, EncodeTypedOption(u.account)));
    UintIs(1, u.level);
    StrIs(2, u.email);
    MsgIs(3, EncodeTypedOption(u.account));
  }

  lemma AddIs(u: User)
    ensures EncodeAdd(AddUserOperation(Some(u))) == Block(0x0A, EncodeUser(u))
    ensures EncodeAdd(AddUserOperation(None)) == []
  {
    Write1(Msg(1, Some(EncodeUser(u))));
    MsgIs(1, Some(EncodeUser(u)));
    Write1(Msg(1, None));
    MsgIs(1, None);
  }

  lemma RemoveIs(op: RemoveUserOperation)
    ensures EncodeRemove(op) == Opt(0x0A, Encode(op.email))
  {
    Write1(Str(1, op.email));
    StrIs(1, op.email);
  }

  lemma AlterIs(req: AlterInboundRequest)
    ensures EncodeAlter(req) == Opt(0x0A, Encode(req.tag)) + Sub(0x12, EncodeTypedOption(req.operation))
  {
    Write2(Str(1, req.tag), Msg(2, EncodeTypedOption(req.operation)));
    StrIs(1, req.tag);
    MsgIs(2, EncodeTypedOption(req.operation));
  }

  lemma ReverseIs(r: Reverse)
    ensures EncodeReverse(r) == Opt(0x0A, Encode(r.tag)) + Sub(0x12, r.sniffing)
  {
    Write2(Str(1, r.tag), Msg(2, r.sniffing));
    StrIs(1, r.tag);
    MsgIs(2, r.sniffing);
  }

  lemma VlessIs(a: VlessAccount)
    ensures EncodeVless(a) ==
            (Opt(0x0A, Encode(a.id)) + Opt(0x12, Encode(a.flow)) + Opt(0x1A, Encode(a.encryption)))
            + (OptNum(0x20, a.xorMode) + OptNum(0x28, a.seconds) + Opt(0x32, Encode(a.padding)))
            + (Sub(0x3A, EncodeReverseOption(a.reverse)) + OptNum(0x40, a.testpre) + Opt(0x4A, Varints(a.testseed)))
  {
    var ps := [Str(1, a.id), Str(2, a.flow), Str(3, a.encryption)];
    var qs := [Uint(4, a.xorMode), Uint(5, a.seconds), Str(6, a.padding)];
    var rs := [Msg(7, EncodeReverseOption(a.reverse)), Uint(8, a.testpre), Packed(9, a.testseed)];
    assert VlessPieces(a) == ps + qs + rs;
    WriteAppend(ps + qs, rs);
    WriteAppend(ps, qs);
    VlessTexts(a);
    VlessNumbers(a);
    VlessLast(a);
  }

  lemma VlessTexts(a: VlessAccount)
    ensures Write([Str(1, a.id), Str(2, a.flow), Str(3, a.encryption)]) ==
            Opt(0x0A, Encode(a.id)) + Opt(0x12, Encode(a.flow)) + Opt(0x1A, Encode(a.encryption))
  {
    Write3(Str(1, a.id), Str(2, a.flow), Str(3, a.encryption));
    StrIs(1, a.id);
    StrIs(2, a.flow);
    StrIs(3, a.encryption);
  }

  lemma VlessNumbers(a: VlessAccount)
    ensures Write([Uint(4, a.xorMode), Uint(5, a.seconds), Str(6, a.padding)]) ==
            OptNum(0x20, a.xorMode) + OptNum(0x28, a.seconds) + Opt(0x32, Encode(a.padding))
  {
    Write3(Uint(4, a.xorMode), Uint(5, a.seconds), Str(6, a.padding));
    UintIs(4, a.xorMode);
    UintIs(5, a.seconds);
    StrIs(6, a.padding);
  }

  lemma VlessLast(a: VlessAccount)
    ensures Write([Msg(7, EncodeReverseOption(a.reverse)), Uint(8, a.testpre), Packed(9, a.testseed)]) ==
            Sub(0x3A, EncodeReverseOption(a.reverse)) + OptNum(0x40, a.testpre) + Opt(0x4A, Varints(a.testseed))
  {
    Write3(Msg(7, EncodeReverseOption(a.reverse)), Uint(8, a.testpre), Packed(9, a.testseed));
    MsgIs(7, EncodeReverseOption(a.reverse));
    UintIs(8, a.testpre);
    PackedIs(9, a.testseed);
  }

  lemma SecurityIs(c: SecurityConfig)
    ensures EncodeSecurity(c) == OptNum(0x08, c.securityType)
  {
    Write1(Enum(1, c.securityType));
    EnumIs(1, c.securityType);
  }

  lemma VmessIs(a: VmessAccount)
    ensures EncodeVmess(a) ==
            Opt(0x0A, Encode(a.id)) + Sub(0x1A, EncodeSecurityOption(a.security)) + Opt(0x22, Encode(a.testsEnabled))
  {
    Write3(Str(1, a.id), Msg(3, EncodeSecurityOption(a.security)), Str(4, a.testsEnabled));
    StrIs(1, a.id);
    MsgIs(3, EncodeSecurityOption(a.security));
    StrIs(4, a.testsEnabled);
  }

  lemma TrojanIs(a: TrojanAccount)
    ensures EncodeTrojan(a) == Opt(0x0A, Encode(a.password))
  {
    Write1(Str(1, a.password));
    StrIs(1, a.password);
  }

  lemma SsParts(a: SsAccount)
    ensures Bytes1(Str(1, a.password)) == Opt(0x0A, Encode(a.password))
    ensures Bytes1(Enum(2, a.cipherType)) == OptNum(0x10, a.cipherType) && Bytes1(Bool(3, a.ivCheck)) == Flag(0x18, a.ivCheck)
  {
    StrIs(1, a.password);
    EnumIs(2, a.cipherType);
    BoolIs(3, a.ivCheck);
  }

  lemma SsIs(a: SsAccount)
    ensures EncodeSs(a) == Opt(0x0A, Encode(a.password)) + OptNum(0x10, a.cipherType) + Flag(0x18, a.ivCheck)
  {
    Write3(Str(1, a.password), Enum(2, a.cipherType), Bool(3, a.ivCheck));
    SsParts(a);
  }
}
