/**
 * Base64 as in section 4 of RFC 4648, decoded strictly: padding is required
 * (section 3.2) and the unused bits of the last symbol are zero (section 3.5).
 */
module Base64 {
  import opened Basics
  import opened Utf8

  type sextet = x: int | 0 <= x < 64

  function Symbol(n: sextet): char
  {
    if n < 26 then (n + 'A' as int) as char
    else if n < 52 then (n - 26 + 'a' as int) as char
    else if n < 62 then (n - 52 + '0' as int) as char
    else if n == 62 then '+'
    else '/'
  }

  function ValueOf(c: char): Option<sextet>
  {
    if 'A' <= c <= 'Z' then Some(c as int - 'A' as int)
    else if 'a' <= c <= 'z' then Some(c as int - 'a' as int + 26)
    else if '0' <= c <= '9' then Some(c as int - '0' as int + 52)
    else if c == '+' then Some(62)
    else if c == '/' then Some(63)
    else None
  }

  lemma SymbolIff(c: char, n: sextet)
    ensures ValueOf(c) == Some(n) <==> c == Symbol(n)
  {
  }

  function Encode(b: Bytes): string
  {
    if b == [] then ""
    else if |b| == 1 then
      [Symbol(b[0] / 4), Symbol(b[0] % 4 * 16), '=', '=']
    else if |b| == 2 then
      [Symbol(b[0] / 4), Symbol(b[0] % 4 * 16 + b[1] / 16), Symbol(b[1] % 16 * 4), '=']
    else
      [Symbol(b[0] / 4), Symbol(b[0] % 4 * 16 + b[1] / 16), Symbol(b[1] % 16 * 4 + b[2] / 64), Symbol(b[2] % 64)]
      + Encode(b[3..])
  }

  /** The bytes of one group of four characters; padding is allowed in the last group only. */
  function DecodeGroup(s: string, last: bool): Option<Bytes>
    requires |s| == 4
  {
    var p :- ValueOf(s[0]);
    var q :- ValueOf(s[1]);
    if s[2] == '=' && s[3] == '=' then
      if last && q % 16 == 0 then Some([p * 4 + q / 16]) else None
    else
      var r :- ValueOf(s[2]);
      if s[3] == '=' then
        if last && r % 4 == 0 then Some([p * 4 + q / 16, q % 16 * 16 + r / 4]) else None
      else
        var t :- ValueOf(s[3]);
        Some([p * 4 + q / 16, q % 16 * 16 + r / 4, r % 4 * 64 + t])
  }

  function Decode(s: string): Option<Bytes>
  {
    if s == "" then Some([])
    else if |s| < 4 then None
    else
      var b :- DecodeGroup(s[..4], |s| == 4);
      var rest :- Decode(s[4..]);
      Some(b + rest)
  }

  // ----- One group -----

  /** The two sextets of one byte, the three of two bytes and the four of three bytes, and back. */
  lemma Sextets(x: byte, y: byte, z: byte)
    ensures x / 4 * 4 + x % 4 * 16 / 16 == x
    ensures var q := x % 4 * 16 + y / 16; q < 64 && x / 4 * 4 + q / 16 == x && q % 16 == y / 16
    ensures var r := y % 16 * 4 + z / 64; r < 64 && y / 16 * 16 + r / 4 == y && r % 4 == z / 64
    ensures y / 16 * 16 + y % 16 * 4 / 4 == y
    ensures z / 64 * 64 + z % 64 == z
  {
  }

  lemma Bytes3(p: sextet, q: sextet, r: sextet, t: sextet)
    ensures var x, y, z := p * 4 + q / 16, q % 16 * 16 + r / 4, r % 4 * 64 + t;
            && x / 4 == p && x % 4 == q / 16 && q / 16 * 16 + q % 16 == q
            && y / 16 == q % 16 && y % 16 == r / 4 && r / 4 * 4 + r % 4 == r
            && z / 64 == r % 4 && z % 64 == t
  {
  }

  lemma SymbolRead(n: sextet)
    ensures ValueOf(Symbol(n)) == Some(n) && Symbol(n) != '='
  {
    SymbolIff(Symbol(n), n);
  }

  lemma OneByte(x: byte)
    ensures Encode([x]) == [Symbol(x / 4), Symbol(x % 4 * 16), '=', '=']
    ensures DecodeGroup(Encode([x]), true) == Some([x])
  {
    SymbolRead(x / 4);
    SymbolRead(x % 4 * 16);
    Sextets(x, 0, 0);
  }

  lemma TwoBytes(x: byte, y: byte)
    ensures Encode([x, y]) == [Symbol(x / 4), Symbol(x % 4 * 16 + y / 16), Symbol(y % 16 * 4), '=']
    ensures DecodeGroup(Encode([x, y]), true) == Some([x, y])
  {
    SymbolRead(x / 4);
    SymbolRead(x % 4 * 16 + y / 16);
    SymbolRead(y % 16 * 4);
    Sextets(x, y, 0);
  }

  lemma ThreeBytes(x: byte, y: byte, z: byte, last: bool)
    ensures Encode([x, y, z]) ==
            [Symbol(x / 4), Symbol(x % 4 * 16 + y / 16), Symbol(y % 16 * 4 + z / 64), Symbol(z % 64)]
    ensures DecodeGroup(Encode([x, y, z]), last) == Some([x, y, z])
  {
    assert [x, y, z][3..] == [];
    SymbolRead(x / 4);
    SymbolRead(x % 4 * 16 + y / 16);
    SymbolRead(y % 16 * 4 + z / 64);
    SymbolRead(z % 64);
    Sextets(x, y, z);
  }

  lemma GroupEncodes(b: Bytes)
    requires 1 <= |b| <= 3
    ensures |Encode(b)| == 4 && DecodeGroup(Encode(b), true) == Some(b)
    ensures |b| == 3 ==> DecodeGroup(Encode(b), false) == Some(b)
  {
    if |b| == 1 {
      assert b == [b[0]];
      OneByte(b[0]);
    } else if |b| == 2 {
      assert b == [b[0], b[1]];
      TwoBytes(b[0], b[1]);
    } else {
      assert b == [b[0], b[1], b[2]];
      ThreeBytes(b[0], b[1], b[2], true);
      ThreeBytes(b[0], b[1], b[2], false);
    }
  }

  lemma GroupDecodes(s: string, last: bool)
    requires |s| == 4 && DecodeGroup(s, last).Some?
    ensures var b := DecodeGroup(s, last).value;
            1 <= |b| <= 3 && Encode(b) == s && (!last ==> |b| == 3)
  {
    if s[3] == '=' {
      var p, q := ValueOf(s[0]).value, ValueOf(s[1]).value;
      SymbolIff(s[0], p);
      SymbolIff(s[1], q);
      PaddedGroupDecodes(s, DecodeGroup(s, last).value, p, q);
    } else {
      FullGroupDecodes(s, last);
    }
  }

  lemma FullGroupDecodes(s: string, last: bool)
    requires |s| == 4 && s[3] != '=' && DecodeGroup(s, last).Some?
    ensures var b := DecodeGroup(s, last).value; |b| == 3 && Encode(b) == s
  {
    var p, q, r, t := FullGroupValues(s, last);
    SymbolsBack(s, p, q, r, t);
    FullGroup(p, q, r, t);
  }

  lemma FullGroupValues(s: string, last: bool) returns (p: sextet, q: sextet, r: sextet, t: sextet)
    requires |s| == 4 && s[3] != '=' && DecodeGroup(s, last).Some?
    ensures ValueOf(s[0]) == Some(p) && ValueOf(s[1]) == Some(q)
    ensures ValueOf(s[2]) == Some(r) && ValueOf(s[3]) == Some(t)
    ensures DecodeGroup(s, last) == Some([p * 4 + q / 16, q % 16 * 16 + r / 4, r % 4 * 64 + t])
  {
    p, q, r, t := ValueOf(s[0]).value, ValueOf(s[1]).value, ValueOf(s[2]).value, ValueOf(s[3]).value;
  }

  lemma SymbolsBack(s: string, p: sextet, q: sextet, r: sextet, t: sextet)
    requires |s| == 4 && ValueOf(s[0]) == Some(p) && ValueOf(s[1]) == Some(q)
    requires ValueOf(s[2]) == Some(r) && ValueOf(s[3]) == Some(t)
    ensures s == [Symbol(p), Symbol(q), Symbol(r), Symbol(t)]
  {
    SymbolIff(s[0], p);
    SymbolIff(s[1], q);
    SymbolIff(s[2], r);
    SymbolIff(s[3], t);
  }

  lemma FullGroup(p: sextet, q: sextet, r: sextet, t: sextet)
    ensures Encode([p * 4 + q / 16, q % 16 * 16 + r / 4, r % 4 * 64 + t]) == [Symbol(p), Symbol(q), Symbol(r), Symbol(t)]
  {
    var x, y, z := p * 4 + q / 16, q % 16 * 16 + r / 4, r % 4 * 64 + t;
    Bytes3(p, q, r, t);
    ThreeBytes(x, y, z, true);
  }

  lemma PaddedGroupDecodes(s: string, b: Bytes, p: sextet, q: sextet)
    requires |s| == 4 && s[3] == '=' && DecodeGroup(s, true) == Some(b)
    requires ValueOf(s[0]) == Some(p) && ValueOf(s[1]) == Some(q) && s[0] == Symbol(p) && s[1] == Symbol(q)
    ensures 1 <= |b| <= 2 && Encode(b) == s
  {
    if s[2] == '=' {
      Bytes3(p, q, 0, 0);
    } else {
      var r := ValueOf(s[2]).value;
      SymbolIff(s[2], r);
      Bytes3(p, q, r, 0);
    }
  }

  // ----- Whole strings -----

  lemma {:induction false} EncodeStep(b: Bytes)
    requires |b| > 3
    ensures Encode(b) == Encode(b[..3]) + Encode(b[3..]) && Encode(b[3..]) != ""
  {
    assert b[..3][3..] == [];
  }

  /** Decoding undoes encoding. */
  lemma {:induction false} DecodeEncode(b: Bytes)
    ensures Decode(Encode(b)) == Some(b)
  {
    if |b| > 3 {
      EncodeStep(b);
      GroupEncodes(b[..3]);
      DecodeEncode(b[3..]);
      var s := Encode(b);
      assert s[..4] == Encode(b[..3]) && s[4..] == Encode(b[3..]);
      assert b == b[..3] + b[3..];
    } else if b != [] {
      GroupEncodes(b);
      assert Encode(b)[..4] == Encode(b) && Encode(b)[4..] == "";
      assert b + [] == b;
    }
  }

  /** Every accepted string is the encoding of its result: no two strings decode alike. */
  lemma {:induction false} EncodeDecode(s: string)
    requires Decode(s).Some?
    ensures Encode(Decode(s).value) == s
  {
    if s != "" {
      GroupDecodes(s[..4], |s| == 4);
      EncodeDecode(s[4..]);
      var b, rest := DecodeGroup(s[..4], |s| == 4).value, Decode(s[4..]).value;
      assert s == s[..4] + s[4..];
      if |s| > 4 {
        assert (b + rest)[..3] == b && (b + rest)[3..] == rest;
        assert rest != [];
        EncodeStep(b + rest);
      } else {
        assert rest == [];
        assert b + rest == b;
      }
    }
  }

  /** Strings are accepted exactly as the encodings of their bytes. */
  lemma DecodeIff(s: string, b: Bytes)
    ensures Decode(s) == Some(b) <==> s == Encode(b)
  {
    DecodeEncode(b);
    if Decode(s).Some? {
      EncodeDecode(s);
    }
  }

  // ----- The bits of the encoding -----

  /** The symbols of a sequence of sextets, from the alphabet of section 4. */
  function Letters(ns: seq<sextet>): string
  {
    seq(|ns|, i requires 0 <= i < |ns| =>
      ("ABCDEFGHIJKLMNOPQRSTUVWXYZ" + "abcdefghijklmnopqrstuvwxyz" + "0123456789" + "+/")[ns[i]])
  }

  /** Reads digits to the base 64 after a number. */
  function Number64(acc: nat, ns: seq<sextet>): nat
    decreases ns
  {
    if ns == [] then acc else Number64(64 * acc + ns[0], ns[1..])
  }

  /** Reads digits to the base 256 after a number. */
  function Number256(acc: nat, b: Bytes): nat
    decreases b
  {
    if b == [] then acc else Number256(256 * acc + b[0], b[1..])
  }

  /** The sextets and the padding of an encoding; the last sextet is filled up with zero bits. */
  ghost predicate Carries(s: string, ns: seq<sextet>, b: Bytes)
  {
    match |b| % 3
    case 0 => s == Letters(ns) && forall acc: nat :: Number64(acc, ns) == Number256(acc, b)
    case 1 => s == Letters(ns) + "==" && forall acc: nat :: Number64(acc, ns) == 16 * Number256(acc, b)
    case _ => s == Letters(ns) + "=" && forall acc: nat :: Number64(acc, ns) == 4 * Number256(acc, b)
  }

  lemma SymbolLetter(n: sextet)
    ensures Letters([n]) == [Symbol(n)]
  {
  }

  lemma LettersAppend(a: seq<sextet>, b: seq<sextet>)
    ensures Letters(a + b) == Letters(a) + Letters(b)
  {
  }

  lemma FourLetters(p: sextet, q: sextet, r: sextet, t: sextet)
    ensures Letters([p, q]) == [Symbol(p), Symbol(q)]
    ensures Letters([p, q, r]) == [Symbol(p), Symbol(q), Symbol(r)]
    ensures Letters([p, q, r, t]) == [Symbol(p), Symbol(q), Symbol(r), Symbol(t)]
  {
    SymbolLetter(p);
    SymbolLetter(q);
    SymbolLetter(r);
    SymbolLetter(t);
    assert [p, q] == [p] + [q] && [p, q, r] == [p] + [q] + [r] && [p, q, r, t] == [p] + [q] + [r] + [t];
    LettersAppend([p], [q]);
    LettersAppend([p] + [q], [r]);
    LettersAppend([p] + [q] + [r], [t]);
  }

  lemma GroupBits(x: byte, y: byte, z: byte, acc: nat)
    ensures 64 * (64 * acc + x / 4) + x % 4 * 16 == 16 * (256 * acc + x)
    ensures 64 * (64 * (64 * acc + x / 4) + (x % 4 * 16 + y / 16)) + y % 16 * 4 == 4 * (256 * (256 * acc + x) + y)
    ensures 64 * (64 * (64 * (64 * acc + x / 4) + (x % 4 * 16 + y / 16)) + (y % 16 * 4 + z / 64)) + z % 64 ==
            256 * (256 * (256 * acc + x) + y) + z
  {
  }

  lemma {:induction false} Cons64(acc: nat, p: sextet, rest: seq<sextet>)
    ensures Number64(acc, [p] + rest) == Number64(64 * acc + p, rest)
  {
    assert ([p] + rest)[1..] == rest;
  }

  lemma {:induction false} Cons256(acc: nat, x: byte, rest: Bytes)
    ensures Number256(acc, [x] + rest) == Number256(256 * acc + x, rest)
  {
    assert ([x] + rest)[1..] == rest;
  }

  lemma Number64Two(acc: nat, p: sextet, q: sextet, rest: seq<sextet>)
    ensures Number64(acc, [p, q] + rest) == Number64(64 * (64 * acc + p) + q, rest)
  {
    assert [p, q] + rest == [p] + ([q] + rest);
    Cons64(acc, p, [q] + rest);
    Cons64(64 * acc + p, q, rest);
  }

  lemma Number256Two(acc: nat, x: byte, y: byte, rest: Bytes)
    ensures Number256(acc, [x, y] + rest) == Number256(256 * (256 * acc + x) + y, rest)
  {
    assert [x, y] + rest == [x] + ([y] + rest);
    Cons256(acc, x, [y] + rest);
    Cons256(256 * acc + x, y, rest);
  }

  /**
   * The symbols, read as digits to the base 64, spell the bits of the bytes read
   * as digits to the base 256, zero bits filling up the last symbol, and the
   * padding makes groups of four.
   */
  lemma {:induction false} EncodeCarries(b: Bytes) returns (ns: seq<sextet>)
    ensures Carries(Encode(b), ns, b) && |ns| == (8 * |b| + 5) / 6 && |Encode(b)| % 4 == 0
  {
    if |b| < 3 {
      ns := ShortCarries(b);
    } else {
      var rest := EncodeCarries(b[3..]);
      ns := LongCarries(b, rest);
    }
  }

  lemma ShortCarries(b: Bytes) returns (ns: seq<sextet>)
    requires |b| < 3
    ensures Carries(Encode(b), ns, b) && |ns| == (8 * |b| + 5) / 6 && |Encode(b)| % 4 == 0
  {
    if b == [] {
      ns := [];
    } else if |b| == 1 {
      assert b == [b[0]];
      ns := OneByteCarries(b[0]);
    } else {
      assert b == [b[0], b[1]];
      ns := TwoBytesCarry(b[0], b[1]);
    }
  }

  lemma LongCarries(b: Bytes, rest: seq<sextet>) returns (ns: seq<sextet>)
    requires |b| >= 3 && Carries(Encode(b[3..]), rest, b[3..])
    requires |rest| == (8 * (|b| - 3) + 5) / 6 && |Encode(b[3..])| % 4 == 0
    ensures Carries(Encode(b), ns, b) && |ns| == (8 * |b| + 5) / 6 && |Encode(b)| % 4 == 0
  {
    ThreeFirst(b);
    ns := ThreeBytesCarry(b, b[0], b[1], b[2], b[3..], rest);
    FourMore(|b|, |Encode(b[3..])|);
  }

  lemma ThreeFirst(b: Bytes)
    requires |b| >= 3
    ensures b == [b[0], b[1], b[2]] + b[3..]
  {
  }

  lemma FourMore(n: nat, m: nat)
    requires n >= 3
    ensures 4 + (8 * (n - 3) + 5) / 6 == (8 * n + 5) / 6 && (m % 4 == 0 ==> (4 + m) % 4 == 0)
  {
  }

  lemma OneByteCarries(x: byte) returns (ns: seq<sextet>)
    ensures Carries(Encode([x]), ns, [x]) && |ns| == 2 && |Encode([x])| == 4
  {
    var p: sextet, q: sextet := x / 4, x % 4 * 16;
    ns := [p, q];
    FourLetters(p, q, 0, 0);
    forall acc: nat
      ensures Number64(acc, ns) == 16 * Number256(acc, [x])
    {
      GroupBits(x, 0, 0, acc);
      Number64Two(acc, p, q, []);
      Cons256(acc, x, []);
      assert [p, q] + [] == [p, q] && [x] + [] == [x];
    }
  }

  lemma TwoBytesCarry(x: byte, y: byte) returns (ns: seq<sextet>)
    ensures Carries(Encode([x, y]), ns, [x, y]) && |ns| == 3 && |Encode([x, y])| == 4
  {
    var p: sextet, q: sextet, r: sextet := x / 4, x % 4 * 16 + y / 16, y % 16 * 4;
    ns := [p, q, r];
    FourLetters(p, q, r, 0);
    forall acc: nat
      ensures Number64(acc, ns) == 4 * Number256(acc, [x, y])
    {
      TwoBytesBits(acc, x, y, p, q, r);
    }
  }

  lemma TwoBytesBits(acc: nat, x: byte, y: byte, p: sextet, q: sextet, r: sextet)
    requires p == x / 4 && q == x % 4 * 16 + y / 16 && r == y % 16 * 4
    ensures Number64(acc, [p, q, r]) == 4 * Number256(acc, [x, y])
  {
    GroupBits(x, y, 0, acc);
    Number64Two(acc, p, q, [r]);
    Cons64(64 * (64 * acc + p) + q, r, []);
    Number256Two(acc, x, y, []);
    assert [p, q] + [r] == [p, q, r] && [r] + [] == [r] && [x, y] + [] == [x, y];
  }

  lemma ThreeBytesBits(acc: nat, x: byte, y: byte, z: byte, p: sextet, q: sextet, r: sextet, t: sextet,
                       b: Bytes, rest: seq<sextet>)
    requires p == x / 4 && q == x % 4 * 16 + y / 16 && r == y % 16 * 4 + z / 64 && t == z % 64
    ensures var n := 256 * (256 * (256 * acc + x) + y) + z;
            && Number64(acc, [p, q, r, t] + rest) == Number64(n, rest)
            && Number256(acc, [x, y, z] + b) == Number256(n, b)
  {
    GroupBits(x, y, z, acc);
    Number64Two(acc, p, q, [r, t] + rest);
    Number64Two(64 * (64 * acc + p) + q, r, t, rest);
    assert [p, q] + ([r, t] + rest) == [p, q, r, t] + rest;
    Number256Two(acc, x, y, [z] + b);
    Cons256(256 * (256 * acc + x) + y, z, b);
    assert [x, y] + ([z] + b) == [x, y, z] + b;
  }

  lemma ThreeBytesEncode(x: byte, y: byte, z: byte, b: Bytes)
    ensures Encode([x, y, z] + b) ==
            [Symbol(x / 4), Symbol(x % 4 * 16 + y / 16), Symbol(y % 16 * 4 + z / 64), Symbol(z % 64)] + Encode(b)
  {
    assert ([x, y, z] + b)[3..] == b;
  }

  lemma ThreeBytesCarry(whole: Bytes, x: byte, y: byte, z: byte, b: Bytes, rest: seq<sextet>) returns (ns: seq<sextet>)
    requires whole == [x, y, z] + b && Carries(Encode(b), rest, b)
    ensures Carries(Encode(whole), ns, whole) && |ns| == 4 + |rest|
    ensures |Encode(whole)| == 4 + |Encode(b)|
  {
    var p: sextet, q: sextet := x / 4, x % 4 * 16 + y / 16;
    var r: sextet, t: sextet := y % 16 * 4 + z / 64, z % 64;
    ns := [p, q, r, t] + rest;
    FourLetters(p, q, r, t);
    LettersAppend([p, q, r, t], rest);
    ThreeBytesEncode(x, y, z, b);
    forall acc: nat
      ensures SameBits(acc, [p, q, r, t], rest, [x, y, z], b)
    {
      ThreeBytesBits(acc, x, y, z, p, q, r, t, b, rest);
    }
    CarriesOn([Symbol(p), Symbol(q), Symbol(r), Symbol(t)], [p, q, r, t], [x, y, z], Encode(b), rest, b);
  }

  /** After acc, a group and its three bytes make the same of it. */
  ghost predicate SameBits(acc: nat, group: seq<sextet>, rest: seq<sextet>, bytes: Bytes, b: Bytes)
    requires |bytes| == 3
  {
    var n := 256 * (256 * (256 * acc + bytes[0]) + bytes[1]) + bytes[2];
    Number64(acc, group + rest) == Number64(n, rest) && Number256(acc, bytes + b) == Number256(n, b)
  }

  lemma CarriesOn(head: string, group: seq<sextet>, bytes: Bytes, s: string, rest: seq<sextet>, b: Bytes)
    requires Carries(s, rest, b) && |bytes| == 3
    requires Letters(group + rest) == head + Letters(rest)
    requires forall acc: nat :: SameBits(acc, group, rest, bytes, b)
    ensures Carries(head + s, group + rest, bytes + b)
  {
    assert |bytes + b| % 3 == |b| % 3;
    forall acc: nat
      ensures Number64(acc, group + rest) == [1, 16, 4][|b| % 3] * Number256(acc, bytes + b)
    {
      assert SameBits(acc, group, rest, bytes, b);
    }
  }
}
