/**
 * The Protocol Buffers wire format: base 128 varints, and records made of a
 * field number, a wire type and a value. Groups are not part of the model.
 */
module Wire {
  import opened Basics
  import opened Utf8

  const TWO_TO_64: nat := 0x1_0000_0000_0000_0000

  /** No buffer holds more bytes than this. */
  const MAX_BYTES: nat := 0x7FFF_FFFF_FFFF_FFFF

  // ----- Varints -----

  function Varint(n: nat): (b: Bytes)
    ensures b != []
  {
    if n < 0x80 then [n] else [0x80 + n % 0x80] + Varint(n / 0x80)
  }

  datatype Read<T> = Read(value: T, size: nat)

  /** A varint of at most `limit` bytes at the front of b. */
  function ReadVarint(b: Bytes, limit: nat): (r: Option<Read<nat>>)
    ensures r.Some? ==> 1 <= r.value.size <= |b|
  {
    if b == [] || limit == 0 then None
    else if b[0] < 0x80 then Some(Read(b[0], 1))
    else
      var r :- ReadVarint(b[1..], limit - 1);
      Some(Read(b[0] - 0x80 + 0x80 * r.value, r.size + 1))
  }

  /** A varint that fits 64 bits. */
  function ReadU64(b: Bytes): (r: Option<Read<nat>>)
    ensures r.Some? ==> 1 <= r.value.size <= |b| && r.value.value < TWO_TO_64
  {
    var r :- ReadVarint(b, 10);
    if r.value < TWO_TO_64 then Some(r) else None
  }

  function Pow128(k: nat): nat
  {
    if k == 0 then 1 else 0x80 * Pow128(k - 1)
  }

  lemma {:induction false} VarintRead(n: nat, limit: nat, rest: Bytes)
    requires 0 < limit && n < Pow128(limit)
    ensures ReadVarint(Varint(n) + rest, limit) == Some(Read(n, |Varint(n)|))
  {
    if n >= 0x80 {
      assert Pow128(1) == 0x80;
      assert n / 0x80 < Pow128(limit - 1);
      VarintRead(n / 0x80, limit - 1, rest);
      assert (Varint(n) + rest)[1..] == Varint(n / 0x80) + rest;
    }
  }

  /** Every 64-bit number is read back, whatever follows it. */
  lemma VarintRoundTrip(n: nat, rest: Bytes)
    requires n < TWO_TO_64
    ensures ReadU64(Varint(n) + rest) == Some(Read(n, |Varint(n)|))
  {
    assert Pow128(4) == 0x1000_0000;
    assert Pow128(8) == 0x1000_0000 * 0x1000_0000 by {
      assert Pow128(6) == 0x1000_0000 * 0x4000;
    }
    assert Pow128(10) == 0x1000_0000 * 0x1000_0000 * 0x4000;
    VarintRead(n, 10, rest);
  }

  /** The number that the low seven bits of the bytes spell, least significant first. */
  function LowBits(b: Bytes): nat
  {
    if b == [] then 0 else b[0] % 0x80 + 0x80 * LowBits(b[1..])
  }

  /** The layout of a varint: every byte but the last has its high bit set, and no zero byte ends a longer one. */
  lemma {:induction false} VarintLayout(n: nat)
    ensures var b := Varint(n);
            && LowBits(b) == n
            && (forall i :: 0 <= i < |b| ==> (b[i] >= 0x80 <==> i < |b| - 1))
            && (|b| > 1 ==> b[|b| - 1] != 0)
  {
    if n >= 0x80 {
      VarintLayout(n / 0x80);
      assert Varint(n)[1..] == Varint(n / 0x80);
    }
  }

  // ----- Records -----

  datatype Field =
    | Num(tag: nat, number: nat)
    | Len(tag: nat, payload: Bytes)
    | Fixed64(tag: nat, payload: Bytes)
    | Fixed32(tag: nat, payload: Bytes)

  function WireType(f: Field): nat
  {
    match f
    case Num(_, _) => 0
    case Fixed64(_, _) => 1
    case Len(_, _) => 2
    case Fixed32(_, _) => 5
  }

  predicate ValidField(f: Field)
  {
    && 1 <= f.tag < 0x2000_0000
    && match f
       case Num(_, n) => n < TWO_TO_64
       case Len(_, p) => |p| < TWO_TO_64
       case Fixed64(_, p) => |p| == 8
       case Fixed32(_, p) => |p| == 4
  }

  function EncodeField(f: Field): (b: Bytes)
    ensures b != []
  {
    Varint(f.tag * 8 + WireType(f)) + EncodeBody(f)
  }

  function EncodeFields(fs: seq<Field>): Bytes
  {
    if fs == [] then [] else EncodeField(fs[0]) + EncodeFields(fs[1..])
  }

  /** The first n bytes of b as a value that ends at position `from + n` of its record. */
  function ReadBytes(b: Bytes, from: nat, n: nat): (r: Option<Read<Bytes>>)
    requires from <= |b|
    ensures r.Some? ==> r.value.size == from + n <= |b| && |r.value.value| == n
  {
    if from + n <= |b| then Some(Read(b[from..from + n], from + n)) else None
  }

  /** The value that follows a key of `at` bytes. */
  function ReadBody(b: Bytes, tag: nat, wire: nat, at: nat): (r: Option<Read<Field>>)
    requires at <= |b|
    ensures r.Some? ==> at <= r.value.size <= |b|
  {
    if wire == 0 then
      var n :- ReadU64(b[at..]);
      Some(Read(Num(tag, n.value), at + n.size))
    else if wire == 2 then
      var n :- ReadU64(b[at..]);
      var p :- ReadBytes(b, at + n.size, n.value);
      Some(Read(Len(tag, p.value), p.size))
    else if wire == 1 then
      var p :- ReadBytes(b, at, 8);
      Some(Read(Fixed64(tag, p.value), p.size))
    else if wire == 5 then
      var p :- ReadBytes(b, at, 4);
      Some(Read(Fixed32(tag, p.value), p.size))
    else None
  }

  /** The record at the front of b. */
  function ReadField(b: Bytes): (r: Option<Read<Field>>)
    ensures r.Some? ==> 1 <= r.value.size <= |b|
  {
    var key :- ReadU64(b);
    if key.value < 8 || 0x1_0000_0000 <= key.value then None
    else ReadBody(b, key.value / 8, key.value % 8, key.size)
  }

  function ParseFields(b: Bytes): Option<seq<Field>>
  {
    if b == [] then Some([])
    else
      var f :- ReadField(b);
      var fs :- ParseFields(b[f.size..]);
      Some([f.value] + fs)
  }

  function EncodeBody(f: Field): Bytes
  {
    match f
    case Num(_, n) => Varint(n)
    case Len(_, p) => Varint(|p|) + p
    case _ => f.payload
  }

  lemma {:induction false} LenRoundTrip(tag: nat, p: Bytes, key: Bytes, rest: Bytes)
    requires |p| < TWO_TO_64
    ensures var body := Varint(|p|) + p;
            ReadBody(key + body + rest, tag, 2, |key|) == Some(Read(Len(tag, p), |key| + |body|))
  {
    var size := Varint(|p|);
    var b := key + (size + p) + rest;
    VarintRoundTrip(|p|, p + rest);
    assert b[|key|..] == size + (p + rest);
    assert b[|key| + |size|..|key| + |size| + |p|] == p;
  }

  lemma NumRoundTrip(tag: nat, n: nat, key: Bytes, rest: Bytes)
    requires n < TWO_TO_64
    ensures ReadBody(key + Varint(n) + rest, tag, 0, |key|) == Some(Read(Num(tag, n), |key| + |Varint(n)|))
  {
    VarintRoundTrip(n, rest);
    assert (key + Varint(n) + rest)[|key|..] == Varint(n) + rest;
  }

  lemma BodyRoundTrip(f: Field, key: Bytes, rest: Bytes)
    requires ValidField(f)
    ensures ReadBody(key + EncodeBody(f) + rest, f.tag, WireType(f), |key|) ==
            Some(Read(f, |key| + |EncodeBody(f)|))
  {
    match f
    case Num(_, n) =>
      NumRoundTrip(f.tag, n, key, rest);
    case Len(_, p) =>
      LenRoundTrip(f.tag, p, key, rest);
    case _ =>
      assert (key + f.payload + rest)[|key|..|key| + |f.payload|] == f.payload;
  }

  lemma KeyParts(tag: nat, wire: nat)
    requires 1 <= tag < 0x2000_0000 && wire < 8
    ensures var key := tag * 8 + wire; 8 <= key < 0x1_0000_0000 && key / 8 == tag && key % 8 == wire
  {
  }

  lemma FieldRoundTrip(f: Field, rest: Bytes)
    requires ValidField(f)
    ensures ReadField(EncodeField(f) + rest) == Some(Read(f, |EncodeField(f)|))
  {
    var n := f.tag * 8 + WireType(f);
    var key := Varint(n);
    var whole := EncodeField(f);
    var body := EncodeBody(f);
    assert whole + rest == key + (body + rest);
    assert whole + rest == key + body + rest;
    KeyParts(f.tag, WireType(f));
    VarintRoundTrip(n, body + rest);
    BodyRoundTrip(f, key, rest);
    assert ReadU64(whole + rest) == Some(Read(n, |key|));
  }

  /** Parsing undoes encoding on every list of valid records. */
  lemma {:induction false} FieldsRoundTrip(fs: seq<Field>)
    requires forall i :: 0 <= i < |fs| ==> ValidField(fs[i])
    ensures ParseFields(EncodeFields(fs)) == Some(fs)
  {
    if fs != [] {
      var f, rest := fs[0], fs[1..];
      FieldsRoundTrip(rest);
      FieldRoundTrip(f, EncodeFields(rest));
      assert EncodeFields(fs)[|EncodeField(f)|..] == EncodeFields(rest);
      assert fs == [f] + rest;
    }
  }

  /** A length prefix never exceeds the message that carries it. */
  lemma {:induction false} PayloadsFit(fs: seq<Field>)
    ensures forall i :: 0 <= i < |fs| && fs[i].Len? ==> |fs[i].payload| < |EncodeFields(fs)|
  {
    if fs != [] {
      PayloadsFit(fs[1..]);
      forall i | 0 <= i < |fs| && fs[i].Len?
        ensures |fs[i].payload| < |EncodeFields(fs)|
      {
        if i > 0 {
          assert fs[i] == fs[1..][i - 1];
        }
      }
    }
  }

  // ----- Fields of a proto3 message: defaults are omitted, the last value wins -----

  function StrField(tag: nat, s: string): seq<Field>
  {
    if s == [] then [] else [Len(tag, Encode(s))]
  }

  function BytesField(tag: nat, b: Bytes): seq<Field>
  {
    if b == [] then [] else [Len(tag, b)]
  }

  function UintField(tag: nat, n: u32): seq<Field>
  {
    if n == 0 then [] else [Num(tag, n)]
  }

  /** Enum numbers are sign-extended to 64 bits. */
  function EnumField(tag: nat, n: i32): seq<Field>
  {
    if n == 0 then [] else [Num(tag, if n < 0 then n + TWO_TO_64 else n)]
  }

  function BoolField(tag: nat, v: bool): seq<Field>
  {
    if v then [Num(tag, 1)] else []
  }

  /** A submessage that is present is written even when it is empty. */
  function MsgField(tag: nat, m: Option<Bytes>): seq<Field>
  {
    match m
    case None => []
    case Some(b) => [Len(tag, b)]
  }

  function Varints(ns: seq<u32>): Bytes
  {
    if ns == [] then [] else Varint(ns[0]) + Varints(ns[1..])
  }

  /** A repeated number is written as one record that holds all its varints. */
  function PackedField(tag: nat, ns: seq<u32>): seq<Field>
  {
    if ns == [] then [] else [Len(tag, Varints(ns))]
  }

  /** The occurrences of a field, in order. */
  function Select(fs: seq<Field>, tag: nat): seq<Field>
  {
    if fs == [] then []
    else (if fs[0].tag == tag then [fs[0]] else []) + Select(fs[1..], tag)
  }

  predicate AllLen(fs: seq<Field>)
  {
    forall i :: 0 <= i < |fs| ==> fs[i].Len?
  }

  predicate AllNum(fs: seq<Field>)
  {
    forall i :: 0 <= i < |fs| ==> fs[i].Num?
  }

  function GetBytes(fs: seq<Field>, tag: nat): Option<Bytes>
  {
    var occ := Select(fs, tag);
    if !AllLen(occ) then None
    else if occ == [] then Some([])
    else Some(occ[|occ| - 1].payload)
  }

  /** Text must be UTF-8 in every occurrence. */
  function GetStr(fs: seq<Field>, tag: nat): Option<string>
  {
    var occ := Select(fs, tag);
    if !AllLen(occ) || !forall i :: 0 <= i < |occ| ==> Decode(occ[i].payload).Some? then None
    else if occ == [] then Some([])
    else Decode(occ[|occ| - 1].payload)
  }

  function GetNum(fs: seq<Field>, tag: nat): Option<nat>
  {
    var occ := Select(fs, tag);
    if !AllNum(occ) then None
    else if occ == [] then Some(0)
    else Some(occ[|occ| - 1].number)
  }

  /** Integers keep their low 32 bits. */
  function GetUint(fs: seq<Field>, tag: nat): Option<u32>
  {
    var n :- GetNum(fs, tag);
    Some(n % 0x1_0000_0000)
  }

  function GetEnum(fs: seq<Field>, tag: nat): Option<i32>
  {
    var n :- GetNum(fs, tag);
    var low := n % 0x1_0000_0000;
    Some(if low < 0x8000_0000 then low else low - 0x1_0000_0000)
  }

  function GetBool(fs: seq<Field>, tag: nat): Option<bool>
  {
    var n :- GetNum(fs, tag);
    Some(n != 0)
  }

  function ReadVarints(b: Bytes): Option<seq<u32>>
  {
    if b == [] then Some([])
    else
      var n :- ReadU64(b);
      var rest :- ReadVarints(b[n.size..]);
      Some([n.value % 0x1_0000_0000] + rest)
  }

  /** The numbers of all occurrences, packed or single. */
  function Unpack(occ: seq<Field>): Option<seq<u32>>
  {
    if occ == [] then Some([])
    else
      var rest :- Unpack(occ[1..]);
      match occ[0]
      case Num(_, n) => Some([n % 0x1_0000_0000] + rest)
      case Len(_, b) =>
        var ns :- ReadVarints(b);
        Some(ns + rest)
      case _ => None
  }

  function GetPacked(fs: seq<Field>, tag: nat): Option<seq<u32>>
  {
    Unpack(Select(fs, tag))
  }

  lemma {:induction false} VarintsRoundTrip(ns: seq<u32>)
    ensures ReadVarints(Varints(ns)) == Some(ns)
  {
    if ns != [] {
      VarintRoundTrip(ns[0], Varints(ns[1..]));
      VarintsRoundTrip(ns[1..]);
      assert Varints(ns)[|Varint(ns[0])|..] == Varints(ns[1..]);
      assert [ns[0]] + ns[1..] == ns;
    }
  }

  function Payloads(occ: seq<Field>): Bytes
    requires AllLen(occ)
  {
    if occ == [] then [] else occ[0].payload + Payloads(occ[1..])
  }

  /** Occurrences of a submessage are merged: parsed as one concatenated payload. */
  function GetMsg(fs: seq<Field>, tag: nat): Option<Option<Bytes>>
  {
    var occ := Select(fs, tag);
    if !AllLen(occ) then None
    else if occ == [] then Some(None)
    else Some(Some(Payloads(occ)))
  }

  lemma {:induction false} SelectAppend(a: seq<Field>, b: seq<Field>, tag: nat)
    ensures Select(a + b, tag) == Select(a, tag) + Select(b, tag)
  {
    if a == [] {
      assert a + b == b;
    } else {
      assert (a + b)[0] == a[0] && (a + b)[1..] == a[1..] + b;
      SelectAppend(a[1..], b, tag);
      var first := if a[0].tag == tag then [a[0]] else [];
      assert first + (Select(a[1..], tag) + Select(b, tag)) == (first + Select(a[1..], tag)) + Select(b, tag);
    }
  }

  /** Every record in fs carries this field number. */
  predicate OnlyTag(fs: seq<Field>, tag: nat)
  {
    forall i :: 0 <= i < |fs| ==> fs[i].tag == tag
  }

  lemma {:induction false} SelectOnly(fs: seq<Field>, tag: nat, wanted: nat)
    requires OnlyTag(fs, tag)
    ensures Select(fs, wanted) == if tag == wanted then fs else []
  {
    if fs != [] {
      SelectOnly(fs[1..], tag, wanted);
    }
  }

  /** The pieces of a message, one per field number. */
  datatype Piece = Piece(tag: nat, fields: seq<Field>)

  function Concat(pieces: seq<Piece>): seq<Field>
  {
    if pieces == [] then [] else pieces[0].fields + Concat(pieces[1..])
  }

  ghost predicate WellTagged(pieces: seq<Piece>)
  {
    && (forall i :: 0 <= i < |pieces| ==> OnlyTag(pieces[i].fields, pieces[i].tag))
    && (forall i, j :: 0 <= i < j < |pieces| ==> pieces[i].tag != pieces[j].tag)
  }

  lemma TailTagged(pieces: seq<Piece>)
    requires WellTagged(pieces) && pieces != []
    ensures WellTagged(pieces[1..]) && OnlyTag(pieces[0].fields, pieces[0].tag)
    ensures forall i :: 0 <= i < |pieces| - 1 ==> pieces[1..][i] == pieces[i + 1] && pieces[i + 1].tag != pieces[0].tag
  {
  }

  lemma SelectFirst(pieces: seq<Piece>, tag: nat)
    requires pieces != [] && OnlyTag(pieces[0].fields, pieces[0].tag)
    ensures Select(Concat(pieces), tag) ==
            (if pieces[0].tag == tag then pieces[0].fields else []) + Select(Concat(pieces[1..]), tag)
  {
    SelectOnly(pieces[0].fields, pieces[0].tag, tag);
    SelectAppend(pieces[0].fields, Concat(pieces[1..]), tag);
  }

  lemma {:induction false} SelectNone(pieces: seq<Piece>, tag: nat)
    requires WellTagged(pieces) && forall i :: 0 <= i < |pieces| ==> pieces[i].tag != tag
    ensures Select(Concat(pieces), tag) == []
  {
    if pieces != [] {
      TailTagged(pieces);
      SelectNone(pieces[1..], tag);
      SelectFirst(pieces, tag);
    }
  }

  /** Reading one field number finds exactly the piece written for it. */
  lemma {:induction false} SelectPiece(pieces: seq<Piece>, n: nat)
    requires WellTagged(pieces) && n < |pieces|
    ensures Select(Concat(pieces), pieces[n].tag) == pieces[n].fields
  {
    TailTagged(pieces);
    SelectFirst(pieces, pieces[n].tag);
    if n == 0 {
      SelectNone(pieces[1..], pieces[0].tag);
    } else {
      SelectPiece(pieces[1..], n - 1);
    }
  }
}
