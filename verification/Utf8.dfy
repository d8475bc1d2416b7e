/** Text as bytes: UTF-8 as in section 3 of RFC 3629. */
module Utf8 {
  import opened Basics

  type Bytes = seq<byte>

  /** The continuation byte that carries the low six bits of n. */
  function Low(n: nat): byte
  {
    0x80 + n % 0x40
  }

  /** The bytes of one character. */
  function EncodeChar(c: char): (b: Bytes)
    ensures 1 <= |b| <= 4
  {
    var n := c as int;
    if n < 0x80 then [n]
    else if n < 0x800 then [0xC0 + n / 0x40, Low(n)]
    else if n < 0x1_0000 then [0xE0 + n / 0x40 / 0x40, Low(n / 0x40), Low(n)]
    else [0xF0 + n / 0x40 / 0x40 / 0x40, Low(n / 0x40 / 0x40), Low(n / 0x40), Low(n)]
  }

  function Encode(s: string): Bytes
  {
    if s == [] then [] else EncodeChar(s[0]) + Encode(s[1..])
  }

  predicate Tail(b: byte)
  {
    0x80 <= b < 0xC0
  }

  /** How many bytes the first byte announces; none for a byte that cannot be first. */
  function Width(first: byte): (w: nat)
    ensures w <= 4
  {
    if first < 0x80 then 1
    else if 0xC2 <= first < 0xE0 then 2
    else if 0xE0 <= first < 0xF0 then 3
    else if 0xF0 <= first < 0xF5 then 4
    else 0
  }

  /** The number carried by the first w bytes of b. */
  function Number(b: Bytes, w: nat): int
    requires 1 <= w <= 4 && w <= |b|
  {
    if w == 1 then b[0] as int
    else if w == 2 then (b[0] as int - 0xC0) * 0x40 + (b[1] as int - 0x80)
    else if w == 3 then ((b[0] as int - 0xE0) * 0x40 + (b[1] as int - 0x80)) * 0x40 + (b[2] as int - 0x80)
    else (((b[0] as int - 0xF0) * 0x40 + (b[1] as int - 0x80)) * 0x40 + (b[2] as int - 0x80)) * 0x40
         + (b[3] as int - 0x80)
  }

  /** The character at the front of b, when its encoding is the shortest one. */
  function FirstChar(b: Bytes): (c: Option<char>)
    requires b != []
    ensures c.Some? ==> 1 <= Width(b[0]) <= |b|
  {
    var w := Width(b[0]);
    if w == 0 || |b| < w || !forall i :: 1 <= i < w ==> Tail(b[i]) then None
    else
      var n := Number(b, w);
      if n < 0 || (w == 3 && n < 0x800) || (w == 4 && n < 0x1_0000) || 0xD800 <= n < 0xE000 || 0x11_0000 <= n
      then None else Some(n as char)
  }

  function Decode(b: Bytes): Option<string>
  {
    if b == [] then Some([])
    else
      match FirstChar(b)
      case None => None
      case Some(c) =>
        (match Decode(b[Width(b[0])..])
         case None => None
         case Some(s) => Some([c] + s))
  }

  /** The table of section 3: the bits of a character, high ones first, in the bytes that its size calls for. */
  lemma BitLayout(c: char)
    ensures var n, b := c as int, EncodeChar(c);
            && (forall i :: 1 <= i < |b| ==> 0x80 <= b[i] <= 0xBF)
            && (n <= 0x7F ==> |b| == 1 && n == b[0])
            && (0x80 <= n <= 0x7FF ==>
                  |b| == 2 && 0xC0 <= b[0] <= 0xDF && n == (b[0] as int - 0xC0) * 0x40 + (b[1] as int - 0x80))
            && (0x800 <= n <= 0xFFFF ==>
                  |b| == 3 && 0xE0 <= b[0] <= 0xEF &&
                  n == (b[0] as int - 0xE0) * 0x1000 + (b[1] as int - 0x80) * 0x40 + (b[2] as int - 0x80))
            && (0x1_0000 <= n ==>
                  |b| == 4 && 0xF0 <= b[0] <= 0xF4 &&
                  n == (b[0] as int - 0xF0) * 0x4_0000 + (b[1] as int - 0x80) * 0x1000
                       + (b[2] as int - 0x80) * 0x40 + (b[3] as int - 0x80))
  {
    var n := c as int;
    if n < 0x80 {
    } else if n < 0x800 {
    } else if n < 0x1_0000 {
    } else {
    }
  }

  /** Text is encoded character by character, in order. */
  lemma {:induction false} EncodeAppend(s: string, t: string)
    ensures Encode(s + t) == Encode(s) + Encode(t)
  {
    if s == [] {
      assert s + t == t;
    } else {
      EncodeAppend(s[1..], t);
      Assoc(EncodeChar(s[0]), Encode(s[1..]), Encode(t));
      AppendTail(s, t);
    }
  }

  lemma EncodeOne(c: char)
    ensures Encode([c]) == EncodeChar(c)
  {
    assert [c][1..] == "" && EncodeChar(c) + [] == EncodeChar(c);
  }

  lemma CharRoundTrip(c: char)
    ensures var b := EncodeChar(c); FirstChar(b) == Some(c) && Width(b[0]) == |b|
  {
    var n, b := c as int, EncodeChar(c);
    if n < 0x80 {
    } else if n < 0x800 {
      assert Number(b, 2) == n;
    } else if n < 0x1_0000 {
      assert Number(b, 3) == n;
    } else {
      assert Number(b, 4) == n;
    }
  }

  /** Only the announced bytes matter. */
  lemma FirstCharLocal(b: Bytes, rest: Bytes)
    requires b != [] && Width(b[0]) == |b|
    ensures FirstChar(b + rest) == FirstChar(b)
  {
    var w := |b|;
    assert forall i :: 0 <= i < w ==> (b + rest)[i] == b[i];
    assert Number(b + rest, w) == Number(b, w);
  }

  lemma {:induction false} RoundTrip(s: string)
    ensures Decode(Encode(s)) == Some(s)
  {
    if s != [] {
      var b, rest := EncodeChar(s[0]), Encode(s[1..]);
      RoundTrip(s[1..]);
      CharRoundTrip(s[0]);
      FirstCharLocal(b, rest);
      assert (b + rest)[0] == b[0] && (b + rest)[|b|..] == rest;
      assert [s[0]] + s[1..] == s;
    }
  }

  lemma Injective(s: string, t: string)
    requires Encode(s) == Encode(t)
    ensures s == t
  {
    RoundTrip(s);
    RoundTrip(t);
  }

  // ----- Order -----

  /** Lexicographic order on bytes, as strings are compared. */
  predicate BytesLess(a: Bytes, b: Bytes)
  {
    b != [] && (a == [] || a[0] < b[0] || (a[0] == b[0] && BytesLess(a[1..], b[1..])))
  }

  predicate Less(s: string, t: string)
  {
    BytesLess(Encode(s), Encode(t))
  }

  lemma {:induction false} BytesTransitive(a: Bytes, b: Bytes, c: Bytes)
    requires BytesLess(a, b) && BytesLess(b, c)
    ensures BytesLess(a, c)
  {
    if a != [] && a[0] == b[0] == c[0] {
      BytesTransitive(a[1..], b[1..], c[1..]);
    }
  }

  lemma {:induction false} BytesTotal(a: Bytes, b: Bytes)
    ensures a == b || BytesLess(a, b) || BytesLess(b, a)
    ensures !(BytesLess(a, b) && BytesLess(b, a)) && (a == b ==> !BytesLess(a, b))
  {
    if a != [] && b != [] && a[0] == b[0] {
      BytesTotal(a[1..], b[1..]);
    }
  }

  /** Less is a strict total order on text. */
  lemma LessIsStrictTotal(s: string, t: string)
    ensures s == t || Less(s, t) || Less(t, s)
    ensures !(Less(s, t) && Less(t, s)) && !Less(s, s)
  {
    BytesTotal(Encode(s), Encode(t));
    BytesTotal(Encode(s), Encode(s));
    if Encode(s) == Encode(t) {
      Injective(s, t);
    }
  }

  lemma LessTransitive(s: string, t: string, u: string)
    requires Less(s, t) && Less(t, u)
    ensures Less(s, u)
  {
    BytesTransitive(Encode(s), Encode(t), Encode(u));
  }

  /** Comparing bytes compares code points. */
  predicate CharsLess(s: string, t: string)
  {
    t != [] && (s == [] || s[0] < t[0] || (s[0] == t[0] && CharsLess(s[1..], t[1..])))
  }

  /** The position where the encodings of two different characters differ. */
  lemma DifferAt(c: char, d: char) returns (i: nat)
    requires c < d
    ensures var a, b := EncodeChar(c), EncodeChar(d);
            i < |a| && i < |b| && a[..i] == b[..i] && a[i] < b[i]
  {
    var a, b := EncodeChar(c), EncodeChar(d);
    i := if a[0] != b[0] then 0 else if a[1] != b[1] then 1 else if a[2] != b[2] then 2 else 3;
    SameWidth(c, d);
  }

  lemma SameWidth(c: char, d: char)
    requires c < d
    ensures var a, b := EncodeChar(c), EncodeChar(d);
            |a| < |b| ==> a[0] < b[0]
  {
  }

  lemma {:induction false} FirstDifference(x: Bytes, y: Bytes, i: nat)
    requires i < |x| && i < |y| && x[..i] == y[..i] && x[i] < y[i]
    ensures BytesLess(x, y)
  {
    if i > 0 {
      assert x[0] == x[..i][0] == y[..i][0] == y[0];
      assert x[1..][..i - 1] == x[..i][1..] && y[1..][..i - 1] == y[..i][1..];
      FirstDifference(x[1..], y[1..], i - 1);
    }
  }

  lemma {:induction false} CommonPrefix(p: Bytes, x: Bytes, y: Bytes)
    ensures BytesLess(p + x, p + y) <==> BytesLess(x, y)
  {
    if p == [] {
      assert p + x == x && p + y == y;
    } else {
      CommonPrefix(p[1..], x, y);
      assert (p + x)[1..] == p[1..] + x && (p + y)[1..] == p[1..] + y;
    }
  }

  lemma FirstCharDecides(c: char, d: char, x: Bytes, y: Bytes)
    requires c < d
    ensures BytesLess(EncodeChar(c) + x, EncodeChar(d) + y)
  {
    var i := DifferAt(c, d);
    var a, b := EncodeChar(c) + x, EncodeChar(d) + y;
    assert a[..i] == EncodeChar(c)[..i] && b[..i] == EncodeChar(d)[..i];
    FirstDifference(a, b, i);
  }

  /** Comparing the bytes of two texts compares their characters. */
  lemma {:induction false} LessIsCharOrder(s: string, t: string)
    ensures Less(s, t) <==> CharsLess(s, t)
  {
    if s != [] && t != [] {
      if s[0] < t[0] {
        FirstCharDecides(s[0], t[0], Encode(s[1..]), Encode(t[1..]));
      } else if t[0] < s[0] {
        FirstCharDecides(t[0], s[0], Encode(t[1..]), Encode(s[1..]));
        BytesTotal(Encode(s), Encode(t));
      } else {
        CommonPrefix(EncodeChar(s[0]), Encode(s[1..]), Encode(t[1..]));
        LessIsCharOrder(s[1..], t[1..]);
      }
    }
  }
}
