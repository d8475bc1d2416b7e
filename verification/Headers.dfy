/** Header values as text, and the decimal port number. */
module Headers {
  import opened Basics

  /** The first value of each header, by lower-case name. */
  type Headers = map<string, seq<byte>>

  predicate Visible(b: byte)
  {
    b == 9 || 32 <= b < 127
  }

  /** A value is text when it is tabs and visible ASCII only. */
  function ToStr(v: seq<byte>): (s: Option<string>)
    ensures s.Some? <==> forall i :: 0 <= i < |v| ==> Visible(v[i])
    ensures s.Some? ==> |s.value| == |v| && forall i :: 0 <= i < |v| ==> s.value[i] as int == v[i]
  {
    if forall i :: 0 <= i < |v| ==> Visible(v[i]) then
      Some(seq(|v|, i requires 0 <= i < |v| => v[i] as char))
    else None
  }

  function HeaderText(h: Headers, name: string): Option<string>
  {
    if name in h then ToStr(h[name]) else None
  }

  /** The bytes are tabs and printable ASCII, and s is these characters. */
  ghost predicate Shows(v: seq<byte>, s: string)
  {
    && |v| == |s|
    && forall i :: 0 <= i < |v| ==> (v[i] == 0x09 || 0x20 <= v[i] <= 0x7E) && s[i] as int == v[i]
  }

  ghost predicate Carries(h: Headers, name: string, s: string)
  {
    name in h && Shows(h[name], s)
  }

  /** The text of a header is what its bytes show, and there is none when they show no text. */
  lemma CarriesIff(h: Headers, name: string)
    ensures forall s :: HeaderText(h, name) == Some(s) <==> Carries(h, name, s)
  {
    forall s
      ensures HeaderText(h, name) == Some(s) <==> Carries(h, name, s)
    {
      if Carries(h, name, s) {
        assert ToStr(h[name]).value == s;
      }
    }
  }

  // ----- Port numbers -----

  predicate Digit(c: char)
  {
    '0' <= c <= '9'
  }

  function DigitValue(c: char): (d: nat)
    requires Digit(c)
    ensures d < 10
  {
    c as int - '0' as int
  }

  /** Reads digits from the left and gives up on the first overflow. */
  function ReadDigits(s: string, acc: u16): Option<u16>
  {
    if s == [] then Some(acc)
    else if !Digit(s[0]) then None
    else
      var n := acc * 10 + DigitValue(s[0]);
      if n < 0x1_0000 then ReadDigits(s[1..], n) else None
  }

  /** An unsigned 16-bit number: an optional plus sign, then at least one digit. */
  function ParsePort(s: string): Option<u16>
  {
    var digits := if s != [] && s[0] == '+' then s[1..] else s;
    if digits == [] then None else ReadDigits(digits, 0)
  }

  predicate AllDigits(s: string)
  {
    forall i :: 0 <= i < |s| ==> Digit(s[i])
  }

  /** The value of a decimal numeral, read from its last digit. */
  function Numeral(s: string): nat
    requires AllDigits(s)
  {
    if s == [] then 0 else 10 * Numeral(s[..|s| - 1]) + DigitValue(s[|s| - 1])
  }

  predicate Digits(s: string)
  {
    s != [] && AllDigits(s)
  }

  lemma {:induction false} NumeralSnoc(g: string, c: char)
    requires AllDigits(g) && Digit(c)
    ensures Digits(g + [c]) && Numeral(g + [c]) == 10 * Numeral(g) + DigitValue(c)
  {
    assert (g + [c])[..|g|] == g;
  }

  lemma {:induction false} ReadDigitsValue(done: string, s: string)
    requires AllDigits(done) && Numeral(done) < 0x1_0000
    ensures ReadDigits(s, Numeral(done)) ==
            if AllDigits(done + s) && Numeral(done + s) < 0x1_0000 then Some(Numeral(done + s)) else None
    decreases |s|
  {
    if s == [] {
      assert done + s == done;
    } else if Digit(s[0]) {
      var d := done + [s[0]];
      NumeralSnoc(done, s[0]);
      assert done + s == d + s[1..];
      if Numeral(d) < 0x1_0000 {
        ReadDigitsValue(d, s[1..]);
      } else if AllDigits(d + s[1..]) {
        NumeralGrows(d, s[1..]);
      }
    } else {
      assert (done + s)[|done|] == s[0];
    }
  }

  lemma {:induction false} NumeralGrows(a: string, b: string)
    requires AllDigits(a + b) && AllDigits(a)
    ensures Numeral(a) <= Numeral(a + b)
    decreases |b|
  {
    if b == [] {
      assert a + b == a;
    } else {
      assert (a + b)[..|a + b| - 1] == a + b[..|b| - 1];
      NumeralGrows(a, b[..|b| - 1]);
    }
  }

  /** The decimal form of a number. */
  function Print(n: nat): string
  {
    (if n < 10 then "" else Print(n / 10)) + ["0123456789"[n % 10]]
  }

  function Zeros(z: nat): string
  {
    if z == 0 then "" else Zeros(z - 1) + "0"
  }

  ghost predicate Padded(s: string, n: nat, z: nat)
  {
    s == Zeros(z) + Print(n)
  }

  /** s is the decimal form of n after any number of zeros, and possibly a plus sign in front. */
  ghost predicate Spells(s: string, n: nat)
  {
    exists z: nat :: Padded(s, n, z) || (s != "" && s[0] == '+' && Padded(s[1..], n, z))
  }

  lemma DigitChar(c: char)
    requires Digit(c)
    ensures "0123456789"[DigitValue(c)] == c
  {
  }

  /** A digit after a padded numeral: more padding while the number is zero, or else one more printed digit. */
  lemma PaddedSnoc(g: string, m: nat, y: nat, c: char) returns (z: nat)
    requires Padded(g, m, y) && Digit(c)
    ensures Padded(g + [c], 10 * m + DigitValue(c), z)
  {
    var d := DigitValue(c);
    DigitChar(c);
    if m == 0 {
      z := y + 1;
      assert Print(0) == "0" && Print(d) == [c];
      assert Zeros(y) + "0" == Zeros(z);
    } else {
      z := y;
      assert (10 * m + d) / 10 == m && (10 * m + d) % 10 == d;
      assert Print(10 * m + d) == Print(m) + [c];
      assert Zeros(y) + (Print(m) + [c]) == Zeros(y) + Print(m) + [c];
    }
  }

  lemma PaddedOne(c: char)
    requires Digit(c)
    ensures Padded([c], DigitValue(c), 0)
  {
    DigitChar(c);
    assert Zeros(0) == "" && Print(DigitValue(c)) == [c];
  }

  lemma DigitAfter(s: string, g: string, c: char, y: nat) returns (z: nat)
    requires s == g + [c] && AllDigits(g) && Digit(c) && Padded(g, Numeral(g), y)
    ensures Digits(s) && Padded(s, Numeral(s), z)
  {
    NumeralSnoc(g, c);
    z := PaddedSnoc(g, Numeral(g), y, c);
  }

  lemma {:induction false} DigitsArePadded(s: string) returns (z: nat)
    requires Digits(s)
    ensures Padded(s, Numeral(s), z)
  {
    var g, c := s[..|s| - 1], s[|s| - 1];
    assert s == g + [c];
    if g == "" {
      z := 0;
      PaddedOne(c);
      NumeralSnoc("", c);
    } else {
      var y := DigitsArePadded(g);
      z := DigitAfter(s, g, c, y);
    }
  }

  lemma {:induction false} ZerosAreZero(z: nat)
    ensures AllDigits(Zeros(z)) && Numeral(Zeros(z)) == 0
  {
    if z > 0 {
      ZerosAreZero(z - 1);
      NumeralSnoc(Zeros(z - 1), '0');
    }
  }

  lemma DigitOf(d: nat)
    requires d < 10
    ensures Digit("0123456789"[d]) && DigitValue("0123456789"[d]) == d
  {
  }

  lemma {:induction false} PaddedAreDigits(s: string, n: nat, z: nat)
    requires Padded(s, n, z)
    ensures Digits(s) && Numeral(s) == n
    decreases n
  {
    var c := "0123456789"[n % 10];
    DigitOf(n % 10);
    if n < 10 {
      ZerosAreZero(z);
      NumeralSnoc(Zeros(z), c);
      assert s == Zeros(z) + [c];
    } else {
      var g := Zeros(z) + Print(n / 10);
      PaddedAreDigits(g, n / 10, z);
      NumeralSnoc(g, c);
      assert s == g + [c];
    }
  }

  lemma NumeralIff(s: string, n: nat)
    ensures Digits(s) && Numeral(s) == n <==> exists z: nat :: Padded(s, n, z)
  {
    if Digits(s) {
      var z := DigitsArePadded(s);
    }
    if z: nat :| Padded(s, n, z) {
      PaddedAreDigits(s, n, z);
    }
  }

  /** A port is accepted exactly when it spells a number below 65536. */
  lemma ParsePortIff(s: string, n: u16)
    ensures ParsePort(s) == Some(n) <==> Spells(s, n)
  {
    var digits := if s != [] && s[0] == '+' then s[1..] else s;
    ReadDigitsValue([], digits);
    assert [] + digits == digits;
    NumeralIff(s, n);
    if s != [] && s[0] == '+' {
      assert !Digit(s[0]);
      NumeralIff(s[1..], n);
    }
  }
}
