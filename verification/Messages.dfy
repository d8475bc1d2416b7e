/** The messages for adding and removing users, written and read by field number. */
module Messages {
  import opened Basics
  import opened Utf8
  import opened Wire

  datatype TypedMessage = TypedMessage(typeName: string, value: Bytes)

  datatype User = User(level: u32, email: string, account: Option<TypedMessage>)

  datatype AddUserOperation = AddUserOperation(user: Option<User>)

  datatype RemoveUserOperation = RemoveUserOperation(email: string)

  datatype AlterInboundRequest = AlterInboundRequest(tag: string, operation: Option<TypedMessage>)

  /** The sniffing settings are kept as the bytes of their message. */
  datatype Reverse = Reverse(tag: string, sniffing: Option<Bytes>)

  datatype VlessAccount = VlessAccount(
    id: string, flow: string, encryption: string, xorMode: u32, seconds: u32, padding: string,
    reverse: Option<Reverse>, testpre: u32, testseed: seq<u32>)

  datatype SecurityConfig = SecurityConfig(securityType: i32)

  datatype VmessAccount = VmessAccount(id: string, security: Option<SecurityConfig>, testsEnabled: string)

  datatype TrojanAccount = TrojanAccount(password: string)

  datatype SsAccount = SsAccount(password: string, cipherType: i32, ivCheck: bool)

  // ----- Writing -----

  function Write(pieces: seq<Piece>): Bytes
  {
    EncodeFields(Concat(pieces))
  }

  predicate FieldNumber(tag: nat)
  {
    1 <= tag < 0x2000_0000
  }

  /** A piece whose records all carry its number and can be written. */
  ghost predicate Writable(p: Piece)
  {
    && FieldNumber(p.tag)
    && forall i :: 0 <= i < |p.fields| ==>
         p.fields[i].tag == p.tag && (p.fields[i].Len? || (p.fields[i].Num? && p.fields[i].number < TWO_TO_64))
  }

  function Str(tag: nat, s: string): (p: Piece)
    requires FieldNumber(tag)
    ensures Writable(p)
  {
    Piece(tag, StrField(tag, s))
  }

  function Raw(tag: nat, b: Bytes): (p: Piece)
    requires FieldNumber(tag)
    ensures Writable(p)
  {
    Piece(tag, BytesField(tag, b))
  }

  function Uint(tag: nat, n: u32): (p: Piece)
    requires FieldNumber(tag)
    ensures Writable(p)
  {
    Piece(tag, UintField(tag, n))
  }

  function Enum(tag: nat, n: i32): (p: Piece)
    requires FieldNumber(tag)
    ensures Writable(p)
  {
    Piece(tag, EnumField(tag, n))
  }

  function Bool(tag: nat, v: bool): (p: Piece)
    requires FieldNumber(tag)
    ensures Writable(p)
  {
    Piece(tag, BoolField(tag, v))
  }

  function Packed(tag: nat, ns: seq<u32>): (p: Piece)
    requires FieldNumber(tag)
    ensures Writable(p)
  {
    Piece(tag, PackedField(tag, ns))
  }

  function Msg(tag: nat, m: Option<Bytes>): (p: Piece)
    requires FieldNumber(tag)
    ensures Writable(p)
  {
    Piece(tag, MsgField(tag, m))
  }

  function TypedPieces(m: TypedMessage): seq<Piece>
  {
    [Str(1, m.typeName), Raw(2, m.value)]
  }

  function EncodeTyped(m: TypedMessage): Bytes
  {
    Write(TypedPieces(m))
  }

  function EncodeTypedOption(m: Option<TypedMessage>): Option<Bytes>
  {
    match m case None => None case Some(x) => Some(EncodeTyped(x))
  }

  function UserPieces(u: User): seq<Piece>
  {
    [Uint(1, u.level), Str(2, u.email), Msg(3, EncodeTypedOption(u.account))]
  }

  function EncodeUser(u: User): Bytes
  {
    Write(UserPieces(u))
  }

  function AddPieces(op: AddUserOperation): seq<Piece>
  {
    [Msg(1, match op.user case None => None case Some(u) => Some(EncodeUser(u)))]
  }

  function EncodeAdd(op: AddUserOperation): Bytes
  {
    Write(AddPieces(op))
  }

  function EncodeRemove(op: RemoveUserOperation): Bytes
  {
    Write([Str(1, op.email)])
  }

  function AlterPieces(req: AlterInboundRequest): seq<Piece>
  {
    [Str(1, req.tag), Msg(2, EncodeTypedOption(req.operation))]
  }

  function EncodeAlter(req: AlterInboundRequest): Bytes
  {
    Write(AlterPieces(req))
  }

  function EncodeReverse(r: Reverse): Bytes
  {
    Write([Str(1, r.tag), Msg(2, r.sniffing)])
  }

  function EncodeReverseOption(r: Option<Reverse>): Option<Bytes>
  {
    match r case None => None case Some(x) => Some(EncodeReverse(x))
  }

  function VlessPieces(a: VlessAccount): seq<Piece>
  {
    [Str(1, a.id), Str(2, a.flow), Str(3, a.encryption), Uint(4, a.xorMode), Uint(5, a.seconds),
     Str(6, a.padding), Msg(7, EncodeReverseOption(a.reverse)), Uint(8, a.testpre), Packed(9, a.testseed)]
  }

  function EncodeVless(a: VlessAccount): Bytes
  {
    Write(VlessPieces(a))
  }

  function EncodeSecurity(c: SecurityConfig): Bytes
  {
    Write([Enum(1, c.securityType)])
  }

  function VmessPieces(a: VmessAccount): seq<Piece>
  {
    [Str(1, a.id), Msg(3, EncodeSecurityOption(a.security)),
     Str(4, a.testsEnabled)]
  }

  function EncodeVmess(a: VmessAccount): Bytes
  {
    Write(VmessPieces(a))
  }

  function EncodeTrojan(a: TrojanAccount): Bytes
  {
    Write([Str(1, a.password)])
  }

  function SsPieces(a: SsAccount): seq<Piece>
  {
    [Str(1, a.password), Enum(2, a.cipherType), Bool(3, a.ivCheck)]
  }

  function EncodeSs(a: SsAccount): Bytes
  {
    Write(SsPieces(a))
  }

  // ----- Reading -----

  function DecodeTyped(b: Bytes): Option<TypedMessage>
  {
    var fs :- ParseFields(b);
    var name :- GetStr(fs, 1);
    var value :- GetBytes(fs, 2);
    Some(TypedMessage(name, value))
  }

  function DecodeTypedOption(b: Option<Bytes>): Option<Option<TypedMessage>>
  {
    match b
    case None => Some(None)
    case Some(x) =>
      var m :- DecodeTyped(x);
      Some(Some(m))
  }

  function DecodeUser(b: Bytes): Option<User>
  {
    var fs :- ParseFields(b);
    var level :- GetUint(fs, 1);
    var email :- GetStr(fs, 2);
    var sub :- GetMsg(fs, 3);
    var account :- DecodeTypedOption(sub);
    Some(User(level, email, account))
  }

  function DecodeAdd(b: Bytes): Option<AddUserOperation>
  {
    var fs :- ParseFields(b);
    var sub :- GetMsg(fs, 1);
    match sub
    case None => Some(AddUserOperation(None))
    case Some(x) =>
      var u :- DecodeUser(x);
      Some(AddUserOperation(Some(u)))
  }

  function DecodeRemove(b: Bytes): Option<RemoveUserOperation>
  {
    var fs :- ParseFields(b);
    var email :- GetStr(fs, 1);
    Some(RemoveUserOperation(email))
  }

  function DecodeAlter(b: Bytes): Option<AlterInboundRequest>
  {
    var fs :- ParseFields(b);
    var tag :- GetStr(fs, 1);
    var sub :- GetMsg(fs, 2);
    var op :- DecodeTypedOption(sub);
    Some(AlterInboundRequest(tag, op))
  }

  function DecodeReverse(b: Bytes): Option<Reverse>
  {
    var fs :- ParseFields(b);
    var tag :- GetStr(fs, 1);
    var sniffing :- GetMsg(fs, 2);
    Some(Reverse(tag, sniffing))
  }

  function DecodeReverseOption(b: Option<Bytes>): Option<Option<Reverse>>
  {
    match b
    case None => Some(None)
    case Some(x) =>
      var r :- DecodeReverse(x);
      Some(Some(r))
  }

  function DecodeVless(b: Bytes): Option<VlessAccount>
  {
    var fs :- ParseFields(b);
    var id :- GetStr(fs, 1);
    var flow :- GetStr(fs, 2);
    var encryption :- GetStr(fs, 3);
    var xorMode :- GetUint(fs, 4);
    var seconds :- GetUint(fs, 5);
    var padding :- GetStr(fs, 6);
    var sub :- GetMsg(fs, 7);
    var reverse :- DecodeReverseOption(sub);
    var testpre :- GetUint(fs, 8);
    var testseed :- GetPacked(fs, 9);
    Some(VlessAccount(id, flow, encryption, xorMode, seconds, padding, reverse, testpre, testseed))
  }

  function DecodeSecurity(b: Bytes): Option<SecurityConfig>
  {
    var fs :- ParseFields(b);
    var t :- GetEnum(fs, 1);
    Some(SecurityConfig(t))
  }

  function DecodeVmess(b: Bytes): Option<VmessAccount>
  {
    var fs :- ParseFields(b);
    var id :- GetStr(fs, 1);
    var sub :- GetMsg(fs, 3);
    var tests :- GetStr(fs, 4);
    match sub
    case None => Some(VmessAccount(id, None, tests))
    case Some(x) =>
      var c :- DecodeSecurity(x);
      Some(VmessAccount(id, Some(c), tests))
  }

  function DecodeTrojan(b: Bytes): Option<TrojanAccount>
  {
    var fs :- ParseFields(b);
    var password :- GetStr(fs, 1);
    Some(TrojanAccount(password))
  }

  function DecodeSs(b: Bytes): Option<SsAccount>
  {
    var fs :- ParseFields(b);
    var password :- GetStr(fs, 1);
    var cipher :- GetEnum(fs, 2);
    var ivCheck :- GetBool(fs, 3);
    Some(SsAccount(password, cipher, ivCheck))
  }

  // ----- What was written is read back -----

  ghost predicate AllWritable(pieces: seq<Piece>)
  {
    && (forall i :: 0 <= i < |pieces| ==> Writable(pieces[i]))
    && (forall i, j :: 0 <= i < j < |pieces| ==> pieces[i].tag != pieces[j].tag)
  }

  lemma {:induction false} ConcatFields(pieces: seq<Piece>)
    requires forall i :: 0 <= i < |pieces| ==> Writable(pieces[i])
    ensures forall f :: f in Concat(pieces) ==>
              1 <= f.tag < 0x2000_0000 && (f.Len? || (f.Num? && f.number < TWO_TO_64))
  {
    if pieces != [] {
      ConcatFields(pieces[1..]);
      assert forall f :: f in pieces[0].fields ==> f.tag == pieces[0].tag;
    }
  }

  /** Whatever is written in memory parses to its pieces, each found under its number. */
  lemma ReadBack(pieces: seq<Piece>)
    requires AllWritable(pieces) && |Write(pieces)| <= MAX_BYTES
    ensures ParseFields(Write(pieces)) == Some(Concat(pieces))
    ensures forall n :: 0 <= n < |pieces| ==> Select(Concat(pieces), pieces[n].tag) == pieces[n].fields
  {
    var fs := Concat(pieces);
    ConcatFields(pieces);
    PayloadsFit(fs);
    forall i | 0 <= i < |fs|
      ensures ValidField(fs[i])
    {
      assert fs[i] in fs;
    }
    FieldsRoundTrip(fs);
    forall n | 0 <= n < |pieces|
      ensures Select(fs, pieces[n].tag) == pieces[n].fields
    {
      SelectPiece(pieces, n);
    }
  }

  lemma StrBack(fs: seq<Field>, tag: nat, s: string)
    requires Select(fs, tag) == StrField(tag, s)
    ensures GetStr(fs, tag) == Some(s)
  {
    RoundTrip(s);
  }

  lemma MsgBack(fs: seq<Field>, tag: nat, m: Option<Bytes>)
    requires Select(fs, tag) == MsgField(tag, m)
    ensures GetMsg(fs, tag) == Some(m)
  {
    if m.Some? {
      assert Payloads([Len(tag, m.value)]) == m.value + Payloads([]);
      assert m.value + [] == m.value;
    }
  }

  lemma EnumBack(fs: seq<Field>, tag: nat, n: i32)
    requires Select(fs, tag) == EnumField(tag, n)
    ensures GetEnum(fs, tag) == Some(n)
  {
  }

  lemma UintBack(fs: seq<Field>, tag: nat, n: u32)
    requires Select(fs, tag) == UintField(tag, n)
    ensures GetUint(fs, tag) == Some(n)
  {
  }

  /** A submessage is shorter than the message around it. */
  lemma SubFits(pieces: seq<Piece>, n: nat)
    requires n < |pieces| && |pieces[n].fields| == 1 && pieces[n].fields[0].Len?
    ensures |pieces[n].fields[0].payload| < |Write(pieces)|
  {
    PieceIn(pieces, n);
    PayloadsFit(Concat(pieces));
    assert pieces[n].fields[0] in Concat(pieces);
  }

  lemma {:induction false} PieceIn(pieces: seq<Piece>, n: nat)
    requires n < |pieces|
    ensures forall f :: f in pieces[n].fields ==> f in Concat(pieces)
  {
    if n > 0 {
      PieceIn(pieces[1..], n - 1);
    }
  }

  lemma TypedRoundTrip(m: TypedMessage)
    requires |EncodeTyped(m)| <= MAX_BYTES
    ensures DecodeTyped(EncodeTyped(m)) == Some(m)
  {
    var ps := TypedPieces(m);
    var fs := Concat(ps);
    ReadBack(ps);
    assert ps[0].tag == 1 && ps[1].tag == 2;
    StrBack(fs, 1, m.typeName);
  }

  /** The value of a typed message, and a typed message in a request, fit where the whole fits. */
  lemma TypedValueFits(m: TypedMessage)
    ensures |m.value| <= |EncodeTyped(m)|
  {
    if m.value != [] {
      SubFits(TypedPieces(m), 1);
    }
  }

  lemma OperationFits(req: AlterInboundRequest)
    requires req.operation.Some?
    ensures |req.operation.value.value| <= |EncodeAlter(req)|
  {
    SubFits(AlterPieces(req), 1);
    TypedValueFits(req.operation.value);
  }

  lemma AccountFits(op: AddUserOperation)
    requires op.user.Some? && op.user.value.account.Some?
    ensures |op.user.value.account.value.value| <= |EncodeAdd(op)|
  {
    SubFits(AddPieces(op), 0);
    SubFits(UserPieces(op.user.value), 2);
    TypedValueFits(op.user.value.account.value);
  }

  lemma TypedOptionRoundTrip(m: Option<TypedMessage>)
    requires m.Some? ==> |EncodeTyped(m.value)| <= MAX_BYTES
    ensures DecodeTypedOption(EncodeTypedOption(m)) == Some(m)
  {
    if m.Some? {
      TypedRoundTrip(m.value);
    }
  }

  lemma UserFields(u: User)
    requires |EncodeUser(u)| <= MAX_BYTES
    ensures var fs := Concat(UserPieces(u));
            && ParseFields(EncodeUser(u)) == Some(fs)
            && GetUint(fs, 1) == Some(u.level) && GetStr(fs, 2) == Some(u.email)
            && GetMsg(fs, 3) == Some(EncodeTypedOption(u.account))
    ensures u.account.Some? ==> |EncodeTyped(u.account.value)| < |EncodeUser(u)|
  {
    var ps := UserPieces(u);
    var fs := Concat(ps);
    ReadBack(ps);
    assert Select(fs, 1) == UintField(1, u.level) by { assert ps[0].tag == 1; }
    assert Select(fs, 2) == StrField(2, u.email) by { assert ps[1].tag == 2; }
    assert Select(fs, 3) == MsgField(3, EncodeTypedOption(u.account)) by { assert ps[2].tag == 3; }
    UintBack(fs, 1, u.level);
    StrBack(fs, 2, u.email);
    MsgBack(fs, 3, EncodeTypedOption(u.account));
    if u.account.Some? {
      SubFits(ps, 2);
    }
  }

  lemma UserRoundTrip(u: User)
    requires |EncodeUser(u)| <= MAX_BYTES
    ensures DecodeUser(EncodeUser(u)) == Some(u)
  {
    UserFields(u);
    TypedOptionRoundTrip(u.account);
  }

  lemma AddRoundTrip(op: AddUserOperation)
    requires |EncodeAdd(op)| <= MAX_BYTES
    ensures DecodeAdd(EncodeAdd(op)) == Some(op)
  {
    var ps := AddPieces(op);
    ReadBack(ps);
    assert ps[0].tag == 1;
    MsgBack(Concat(ps), 1, match op.user case None => None case Some(u) => Some(EncodeUser(u)));
    if op.user.Some? {
      SubFits(ps, 0);
      UserRoundTrip(op.user.value);
    }
  }

  lemma RemoveRoundTrip(op: RemoveUserOperation)
    requires |EncodeRemove(op)| <= MAX_BYTES
    ensures DecodeRemove(EncodeRemove(op)) == Some(op)
  {
    var ps := [Str(1, op.email)];
    ReadBack(ps);
    assert ps[0].tag == 1;
    StrBack(Concat(ps), 1, op.email);
  }

  lemma AlterRoundTrip(req: AlterInboundRequest)
    requires |EncodeAlter(req)| <= MAX_BYTES
    ensures DecodeAlter(EncodeAlter(req)) == Some(req)
  {
    var ps := AlterPieces(req);
    var fs := Concat(ps);
    ReadBack(ps);
    assert ps[0].tag == 1 && ps[1].tag == 2;
    StrBack(fs, 1, req.tag);
    MsgBack(fs, 2, EncodeTypedOption(req.operation));
    if req.operation.Some? {
      SubFits(ps, 1);
      TypedRoundTrip(req.operation.value);
    }
  }

  lemma VlessWritable(a: VlessAccount)
    ensures AllWritable(VlessPieces(a))
  {
    var ps := VlessPieces(a);
    forall i | 0 <= i < |ps|
      ensures Writable(ps[i]) && ps[i].tag == i + 1
    {
    }
  }

  lemma PackedBack(fs: seq<Field>, tag: nat, ns: seq<u32>)
    requires Select(fs, tag) == PackedField(tag, ns)
    ensures GetPacked(fs, tag) == Some(ns)
  {
    if ns != [] {
      VarintsRoundTrip(ns);
      assert Unpack([Len(tag, Varints(ns))]) == Some(ns + []);
      assert ns + [] == ns;
    }
  }

  lemma ReverseRoundTrip(r: Reverse)
    requires |EncodeReverse(r)| <= MAX_BYTES
    ensures DecodeReverse(EncodeReverse(r)) == Some(r)
  {
    var ps := [Str(1, r.tag), Msg(2, r.sniffing)];
    var fs := Concat(ps);
    ReadBack(ps);
    assert ps[0].tag == 1 && ps[1].tag == 2;
    StrBack(fs, 1, r.tag);
    MsgBack(fs, 2, r.sniffing);
  }

  lemma ReverseOptionRoundTrip(a: VlessAccount)
    requires |EncodeVless(a)| <= MAX_BYTES
    ensures DecodeReverseOption(EncodeReverseOption(a.reverse)) == Some(a.reverse)
  {
    if a.reverse.Some? {
      SubFits(VlessPieces(a), 6);
      ReverseRoundTrip(a.reverse.value);
    }
  }

  lemma VlessSelects(a: VlessAccount)
    requires |EncodeVless(a)| <= MAX_BYTES
    ensures var fs := Concat(VlessPieces(a));
            && ParseFields(EncodeVless(a)) == Some(fs)
            && Select(fs, 1) == StrField(1, a.id) && Select(fs, 2) == StrField(2, a.flow)
            && Select(fs, 3) == StrField(3, a.encryption) && Select(fs, 4) == UintField(4, a.xorMode)
            && Select(fs, 5) == UintField(5, a.seconds) && Select(fs, 6) == StrField(6, a.padding)
            && Select(fs, 7) == MsgField(7, EncodeReverseOption(a.reverse))
            && Select(fs, 8) == UintField(8, a.testpre) && Select(fs, 9) == PackedField(9, a.testseed)
  {
    var ps := VlessPieces(a);
    VlessWritable(a);
    ReadBack(ps);
    assert ps[0] == Str(1, a.id) && ps[1] == Str(2, a.flow) && ps[2] == Str(3, a.encryption);
    assert ps[3] == Uint(4, a.xorMode) && ps[4] == Uint(5, a.seconds) && ps[5] == Str(6, a.padding);
    assert ps[6] == Msg(7, EncodeReverseOption(a.reverse)) && ps[7] == Uint(8, a.testpre);
    assert ps[8] == Packed(9, a.testseed);
  }

  lemma VlessRoundTrip(a: VlessAccount)
    requires |EncodeVless(a)| <= MAX_BYTES
    ensures DecodeVless(EncodeVless(a)) == Some(a)
  {
    VlessSelects(a);
    var fs := Concat(VlessPieces(a));
    StrBack(fs, 1, a.id);
    StrBack(fs, 2, a.flow);
    StrBack(fs, 3, a.encryption);
    UintBack(fs, 4, a.xorMode);
    UintBack(fs, 5, a.seconds);
    StrBack(fs, 6, a.padding);
    MsgBack(fs, 7, EncodeReverseOption(a.reverse));
    ReverseOptionRoundTrip(a);
    UintBack(fs, 8, a.testpre);
    PackedBack(fs, 9, a.testseed);
  }

  lemma SecurityRoundTrip(c: SecurityConfig)
    requires |EncodeSecurity(c)| <= MAX_BYTES
    ensures DecodeSecurity(EncodeSecurity(c)) == Some(c)
  {
    var ps := [Enum(1, c.securityType)];
    ReadBack(ps);
    assert ps[0].tag == 1;
    EnumBack(Concat(ps), 1, c.securityType);
  }

  function EncodeSecurityOption(c: Option<SecurityConfig>): Option<Bytes>
  {
    match c case None => None case Some(x) => Some(EncodeSecurity(x))
  }

  lemma VmessSelects(a: VmessAccount)
    requires |EncodeVmess(a)| <= MAX_BYTES
    ensures var fs := Concat(VmessPieces(a));
            && ParseFields(EncodeVmess(a)) == Some(fs)
            && Select(fs, 1) == StrField(1, a.id)
            && Select(fs, 3) == MsgField(3, EncodeSecurityOption(a.security))
            && Select(fs, 4) == StrField(4, a.testsEnabled)
  {
    var ps := VmessPieces(a);
    VmessWritable(a);
    ReadBack(ps);
    assert ps[0] == Str(1, a.id) && ps[1] == Msg(3, EncodeSecurityOption(a.security)) && ps[2] == Str(4, a.testsEnabled);
  }

  lemma VmessWritable(a: VmessAccount)
    ensures AllWritable(VmessPieces(a))
  {
  }

  lemma VmessRoundTrip(a: VmessAccount)
    requires |EncodeVmess(a)| <= MAX_BYTES
    ensures DecodeVmess(EncodeVmess(a)) == Some(a)
  {
    var fs := Concat(VmessPieces(a));
    VmessSelects(a);
    StrBack(fs, 1, a.id);
    StrBack(fs, 4, a.testsEnabled);
    MsgBack(fs, 3, EncodeSecurityOption(a.security));
    if a.security.Some? {
      SubFits(VmessPieces(a), 1);
      SecurityRoundTrip(a.security.value);
    }
  }

  lemma TrojanRoundTrip(a: TrojanAccount)
    requires |EncodeTrojan(a)| <= MAX_BYTES
    ensures DecodeTrojan(EncodeTrojan(a)) == Some(a)
  {
    var ps := [Str(1, a.password)];
    ReadBack(ps);
    assert ps[0].tag == 1;
    StrBack(Concat(ps), 1, a.password);
  }

  lemma SsSelects(a: SsAccount)
    requires |EncodeSs(a)| <= MAX_BYTES
    ensures var fs := Concat(SsPieces(a));
            && ParseFields(EncodeSs(a)) == Some(fs)
            && Select(fs, 1) == StrField(1, a.password) && Select(fs, 2) == EnumField(2, a.cipherType)
            && Select(fs, 3) == BoolField(3, a.ivCheck)
  {
    var ps := SsPieces(a);
    ReadBack(ps);
    assert ps[0] == Str(1, a.password) && ps[1] == Enum(2, a.cipherType) && ps[2] == Bool(3, a.ivCheck);
  }

  lemma SsRoundTrip(a: SsAccount)
    requires |EncodeSs(a)| <= MAX_BYTES
    ensures DecodeSs(EncodeSs(a)) == Some(a)
  {
    var fs := Concat(SsPieces(a));
    SsSelects(a);
    StrBack(fs, 1, a.password);
    EnumBack(fs, 2, a.cipherType);
  }
}
