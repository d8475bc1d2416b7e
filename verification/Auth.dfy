/** Bearer authentication with a comparison that looks at every byte. */
module Auth {
  import opened Basics
  import opened Utf8
  import opened Headers

  predicate StartsWith(s: string, p: string)
  {
    |p| <= |s| && s[..|p|] == p
  }

  function LowerChar(c: char): char
  {
    if 'A' <= c <= 'Z' then (c as int + 32) as char else c
  }

  /** Lower-casing of ASCII text. */
  function Lower(s: string): (r: string)
    ensures |r| == |s| && forall i :: 0 <= i < |s| ==> r[i] == LowerChar(s[i])
  {
    seq(|s|, i requires 0 <= i < |s| => LowerChar(s[i]))
  }

  /** The token after the scheme name, first as usually written, then in any casing. */
  function BearerToken(s: string): Option<string>
  {
    if StartsWith(s, "Bearer ") then Some(s[7..])
    else if StartsWith(Lower(s), "bearer ") then Some(s[7..])
    else None
  }

  /** The text starts with some casing of "Bearer ". */
  predicate Scheme(s: string)
  {
    && |s| >= 7
    && (s[0] == 'B' || s[0] == 'b') && (s[1] == 'E' || s[1] == 'e') && (s[2] == 'A' || s[2] == 'a')
    && (s[3] == 'R' || s[3] == 'r') && (s[4] == 'E' || s[4] == 'e') && (s[5] == 'R' || s[5] == 'r')
    && s[6] == ' '
  }

  lemma SchemeIff(s: string)
    requires |s| >= 7
    ensures Lower(s)[..7] == "bearer " <==> Scheme(s)
  {
    var r := Lower(s)[..7];
    assert forall i :: 0 <= i < 7 ==> r[i] == LowerChar(s[i]);
    assert r == [r[0], r[1], r[2], r[3], r[4], r[5], r[6]];
  }

  /** Both paths together accept exactly the casings of the scheme, and give the same token. */
  lemma BearerTokenIff(s: string, t: string)
    ensures BearerToken(s) == Some(t) <==> Scheme(s) && t == s[7..]
  {
    if |s| >= 7 {
      SchemeIff(s);
      if s[..7] == "Bearer " {
        assert forall i :: 0 <= i < 7 ==> s[i] == s[..7][i] == "Bearer "[i];
      }
    }
  }

  /** Exclusive or, bit by bit. */
  function Xor(x: nat, y: nat): nat
    decreases x + y
  {
    if x == 0 && y == 0 then 0 else (if x % 2 == y % 2 then 0 else 1) + 2 * Xor(x / 2, y / 2)
  }

  /** Inclusive or, bit by bit. */
  function Or(x: nat, y: nat): nat
    decreases x + y
  {
    if x == 0 && y == 0 then 0 else (if x % 2 == 0 && y % 2 == 0 then 0 else 1) + 2 * Or(x / 2, y / 2)
  }

  lemma {:induction false} XorZero(x: nat, y: nat)
    ensures Xor(x, y) == 0 <==> x == y
    decreases x + y
  {
    if x != 0 || y != 0 {
      XorZero(x / 2, y / 2);
    }
  }

  lemma {:induction false} OrZero(x: nat, y: nat)
    ensures Or(x, y) == 0 <==> x == 0 && y == 0
    decreases x + y
  {
    if x != 0 || y != 0 {
      OrZero(x / 2, y / 2);
    }
  }

  /** Bytes stay bytes. */
  lemma {:induction false} BitsFit(x: nat, y: nat, n: nat)
    requires x < Pow2(n) && y < Pow2(n)
    ensures Xor(x, y) < Pow2(n) && Or(x, y) < Pow2(n)
  {
    if n > 0 {
      BitsFit(x / 2, y / 2, n - 1);
    }
  }

  function Pow2(n: nat): nat
  {
    if n == 0 then 1 else 2 * Pow2(n - 1)
  }

  /** One round of the comparison: the accumulated difference of the bytes. */
  function Accumulate(acc: byte, x: byte, y: byte): (r: byte)
    ensures r == 0 <==> acc == 0 && x == y
  {
    assert Pow2(8) == 256 by {
      assert Pow2(4) == 16;
    }
    BitsFit(x, y, 8);
    BitsFit(acc, Xor(x, y), 8);
    XorZero(x, y);
    OrZero(acc, Xor(x, y));
    Or(acc, Xor(x, y))
  }

  /** True exactly for equal byte strings, although it never stops at a difference. */
  method ConstantTimeEq(a: Bytes, b: Bytes) returns (equal: bool)
    ensures equal <==> a == b
  {
    if |a| != |b| {
      return false;
    }
    var result: byte := 0;
    for i := 0 to |a|
      invariant result == 0 <==> a[..i] == b[..i]
    {
      assert a[..i + 1] == a[..i] + [a[i]] && b[..i + 1] == b[..i] + [b[i]];
      result := Accumulate(result, a[i], b[i]);
    }
    assert a[..|a|] == a && b[..|a|] == b;
    equal := result == 0;
  }

  /** The header bytes are some casing of "Bearer ", then the characters of a non-empty token. */
  ghost predicate BearerBytes(v: Bytes, token: string)
  {
    && token != "" && |v| == 7 + |token|
    && (v[0] == 0x42 || v[0] == 0x62) && (v[1] == 0x45 || v[1] == 0x65) && (v[2] == 0x41 || v[2] == 0x61)
    && (v[3] == 0x52 || v[3] == 0x72) && (v[4] == 0x45 || v[4] == 0x65) && (v[5] == 0x52 || v[5] == 0x72)
    && v[6] == 0x20
    && forall i :: 0 <= i < |token| ==> (v[7 + i] == 0x09 || 0x20 <= v[7 + i] <= 0x7E) && token[i] as int == v[7 + i]
  }

  lemma BearerBytesIff(v: Bytes, s: string, token: string)
    requires Shows(v, s)
    ensures BearerBytes(v, token) <==> |s| > 7 && Scheme(s) && s[7..] == token
  {
    if |s| > 7 {
      assert s[0] as int == v[0] && s[1] as int == v[1] && s[2] as int == v[2] && s[3] as int == v[3];
      assert s[4] as int == v[4] && s[5] as int == v[5] && s[6] as int == v[6];
      assert forall i :: 0 <= i < |s| - 7 ==> s[7..][i] == s[7 + i] && s[7 + i] as int == v[7 + i];
    }
  }

  lemma BearerBytesShow(v: Bytes, token: string)
    requires BearerBytes(v, token)
    ensures exists s :: Shows(v, s)
  {
    forall i | 0 <= i < |v|
      ensures v[i] == 0x09 || 0x20 <= v[i] <= 0x7E
    {
      if i >= 7 {
        var j := i - 7;
        assert token[j] as int == v[7 + j];
      }
    }
    var s := seq(|v|, i requires 0 <= i < |v| => v[i] as char);
    assert Shows(v, s);
  }

  /**
   * A request is let in exactly when its header is some casing of "Bearer "
   * followed by the configured, non-empty token and nothing else.
   */
  method FromRequestParts(h: Headers, bridgeToken: string) returns (r: Result<()>)
    ensures r.Ok? <==> "authorization" in h && BearerBytes(h["authorization"], bridgeToken)
    ensures r.Err? ==> r.error.Unauthenticated?
  {
    var header := HeaderText(h, "authorization");
    CarriesIff(h, "authorization");
    if header.None? {
      if "authorization" in h && BearerBytes(h["authorization"], bridgeToken) {
        BearerBytesShow(h["authorization"], bridgeToken);
      }
      return Err(AppError.Unauthenticated("缺少 Authorization header"));
    }
    var found := BearerToken(header.value);
    ghost var s := header.value;
    BearerTokenIff(s, if |s| >= 7 then s[7..] else "");
    BearerBytesIff(h["authorization"], s, bridgeToken);
    if found.None? {
      return Err(AppError.Unauthenticated("Authorization header 格式应为: Bearer <token>"));
    }
    var token := found.value;
    if token == "" {
      return Err(AppError.Unauthenticated("Authorization header 格式应为: Bearer <token>"));
    }
    var equal := ConstantTimeEq(Encode(token), Encode(bridgeToken));
    if !equal {
      return Err(AppError.Unauthenticated("Token 无效"));
    }
    Injective(token, bridgeToken);
    r := Ok(());
  }
}
