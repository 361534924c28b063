/** Numbers as text, in any radix from 2 to 36: itoa, atoi and the in-place reversal. */
module Numerals {
  import opened ByteStrings
  import opened Wrappers

  const MIN_INT := -0x8000_0000_0000_0000
  const MAX_INT := 0x7FFF_FFFF_FFFF_FFFF
  const MINUS: Byte := '-' as int

  // Two's complement, 64 bits wide.
  function Wrap64(n: int): (r: int)
    ensures MIN_INT <= r <= MAX_INT && (MIN_INT <= n <= MAX_INT ==> r == n)
    ensures (n - r) % 0x1_0000_0000_0000_0000 == 0
  {
    (n - MIN_INT) % 0x1_0000_0000_0000_0000 + MIN_INT
  }

  // ---- Reversal ----

  function Reversed(s: Bytes): (r: Bytes)
    ensures |r| == |s| && forall k :: 0 <= k < |s| ==> r[k] == s[|s| - 1 - k]
  {
    if s == [] then [] else Reversed(s[1..]) + [s[0]]
  }

  // memrev
  method Memrev(buf: array<Byte>, n: nat) returns (i: nat)
    requires n <= buf.Length
    modifies buf
    ensures i == n / 2 && buf[..n] == Reversed(old(buf[..n])) && buf[n..] == old(buf[n..])
  {
    hide Reversed;
    ghost var was := buf[..];
    i := 0;
    while i < n / 2
      invariant i <= n / 2
      invariant forall k :: 0 <= k < i ==> buf[k] == was[n - 1 - k]
      invariant forall k :: n - i <= k < n ==> buf[k] == was[n - 1 - k]
      invariant forall k :: i <= k < n - i || n <= k < buf.Length ==> buf[k] == was[k]
    {
      var x := buf[i];
      buf[i] := buf[n - i - 1];
      buf[n - i - 1] := x;
      i := i + 1;
    }
    Mirrored(was, buf[..], n);
    assert buf[..][n..] == buf[n..] && was[n..] == old(buf[n..]);
  }

  lemma Mirrored(a: Bytes, b: Bytes, n: nat)
    requires n <= |a| == |b|
    requires forall k :: 0 <= k < n / 2 ==> b[k] == a[n - 1 - k]
    requires forall k :: n - n / 2 <= k < n ==> b[k] == a[n - 1 - k]
    requires forall k :: n / 2 <= k < n - n / 2 || n <= k < |a| ==> b[k] == a[k]
    ensures b[..n] == Reversed(a[..n]) && b[n..] == a[n..]
  {
    var r, head := Reversed(a[..n]), b[..n];
    hide Reversed;
    forall k | 0 <= k < n ensures head[k] == r[k] {
      assert r[k] == a[..n][n - 1 - k];
      assert head[k] == b[k];
      if n / 2 <= k < n - n / 2 {
        assert n - 1 - k == k;
      }
    }
  }

  // ---- Digits ----

  predicate Radix(radix: int) {
    2 <= radix <= 36
  }

  // The character at place d of "0123456789ABCDEFGHIJKLMNOPQRSTUVWXYZ".
  function Digit(d: nat): Byte
    requires d < 36
  {
    if d < 10 then '0' as int + d else 'A' as int + d - 10
  }

  function Upper(c: Byte): Byte {
    if 'a' as int <= c <= 'z' as int then c - 32 else c
  }

  // strchr(alphabet, toupper(c)) - alphabet
  function DigitValue(c: Byte): Option<nat> {
    var u := Upper(c);
    if '0' as int <= u <= '9' as int then Some(u - '0' as int)
    else if 'A' as int <= u <= 'Z' as int then Some(u - 'A' as int + 10)
    else None
  }

  // "\t\n\v\f\r +_"
  predicate Skipped(c: Byte) {
    9 <= c <= 13 || c == ' ' as int || c == '+' as int || c == '_' as int
  }

  function Numeral(n: nat, radix: nat): Bytes
    requires Radix(radix)
    decreases n
  {
    if n < radix then [Digit(n)]
    else Smaller(n, radix); Numeral(n / radix, radix) + [Digit(n % radix)]
  }

  lemma Smaller(n: nat, radix: nat)
    requires Radix(radix)
    ensures n / radix * radix + n % radix == n && n % radix < radix
    ensures n >= radix ==> n / radix < n
    ensures n / radix == 0 <==> n < radix
  {
    var q := n / radix;
    assert q * radix + n % radix == n;
    if q > 0 {
      assert q * radix >= q * 2;
    }
  }

  function Text(x: int, radix: nat): Bytes
    requires Radix(radix)
  {
    if x < 0 then [MINUS] + Numeral(-x, radix) else Numeral(x, radix)
  }

  // The digit loop of itoa: lowest digit first.
  method PutDigits(target: nat, buf: array<Byte>, radix: nat) returns (p: nat)
    requires Radix(radix) && |Numeral(target, radix)| < buf.Length
    modifies buf
    ensures p == |Numeral(target, radix)| && Reversed(buf[..p]) == Numeral(target, radix)
  {
    hide Numeral, Reversed, Digit;
    var t: nat := target;
    p := 0;
    while true
      invariant p + |Numeral(t, radix)| < buf.Length
      invariant Numeral(target, radix) == Numeral(t, radix) + Reversed(buf[..p])
      decreases t
    {
      NumeralStep(t, radix);
      var digit := Digit(t % radix);
      ReversedSnoc(buf[..p], digit);
      ghost var was := buf[..p];
      buf[p] := digit;
      assert buf[..p + 1] == was + [digit];
      p := p + 1;
      t := t / radix;
      if t == 0 {
        break;
      }
    }
  }

  lemma NumeralStep(t: nat, radix: nat)
    requires Radix(radix)
    ensures t % radix < radix && (t / radix == 0 <==> t < radix) && (t >= radix ==> t / radix < t)
    ensures Numeral(t, radix) == (if t / radix == 0 then [] else Numeral(t / radix, radix)) + [Digit(t % radix)]
  {
    Smaller(t, radix);
  }

  // itoa, into a buffer that is large enough; null for a radix it does not know.
  method Itoa(target: int, buf: array<Byte>, radix: int) returns (end: Option<nat>)
    requires MIN_INT < target <= MAX_INT && (Radix(radix) ==> |Text(target, radix)| < buf.Length)
    modifies buf
    ensures !Radix(radix) ==> end == None && buf[..] == old(buf[..])
    ensures Radix(radix) ==>
      end == Some(|Text(target, radix)|) && buf[..|Text(target, radix)| + 1] == Text(target, radix) + [0]
  {
    hide Reversed, Numeral;
    if radix < 2 || radix > 36 {
      return None;
    }
    var t := target;
    var sign := false;
    if t < 0 {
      sign := true;
      t := -t;
    }
    var p := PutDigits(t, buf, radix);
    if sign {
      p := PutMinus(buf, p);
    }
    ghost var whole := buf[..p];
    buf[p] := 0;
    assert buf[..p] == whole;
    var _ := Memrev(buf, p);
    assert buf[p..][0] == 0;
    assert buf[..p + 1] == buf[..p] + [0];
    end := Some(p);
  }

  method PutMinus(buf: array<Byte>, p: nat) returns (end: nat)
    requires p < buf.Length
    modifies buf
    ensures end == p + 1 && Reversed(buf[..end]) == [MINUS] + old(Reversed(buf[..p]))
  {
    ghost var digits := buf[..p];
    ReversedSnoc(digits, MINUS);
    buf[p] := MINUS;
    assert buf[..p + 1] == digits + [MINUS];
    end := p + 1;
  }

  lemma ReversedSnoc(s: Bytes, c: Byte)
    ensures Reversed(s + [c]) == [c] + Reversed(s)
  {
    var r, t := Reversed(s + [c]), [c] + Reversed(s);
    assert forall k :: 0 <= k < |r| ==> r[k] == t[k];
  }

  // ---- Parsing ----

  // What atoi makes of the rest of a string, the number so far being res.
  function Scan(s: Bytes, radix: nat, res: int, negative: bool): int
    requires Radix(radix)
  {
    if s != [] && s[0] == MINUS then Scan(s[1..], radix, res, true)
    else if s != [] && Skipped(s[0]) then Scan(s[1..], radix, res, negative)
    else if s != [] && DigitValue(s[0]).Some? && DigitValue(s[0]).value < radix then
      Scan(s[1..], radix, Wrap64(res * radix + DigitValue(s[0]).value), negative)
    else if negative then Wrap64(-res)
    else res
  }

  // atoi of the string s in buf; -4 for a radix it does not know.
  method Atoi(buf: array<Byte>, ghost s: Bytes, radix: int) returns (r: int)
    requires |s| < buf.Length && buf[..|s|] == s && buf[|s|] == 0 && 0 !in s
    ensures r == if Radix(radix) then Scan(s, radix, 0, false) else -4
  {
    if radix < 2 || radix > 36 {
      return -4;
    }
    var res, sign, ptr := 0, false, 0;
    assert s[0..] == s;
    while buf[ptr] != 0
      invariant ptr <= |s| && Scan(s[ptr..], radix, res, sign) == Scan(s, radix, 0, false)
      decreases |s| - ptr
    {
      assert buf[ptr] == s[ptr] && s[ptr..][0] == s[ptr] && s[ptr..][1..] == s[ptr + 1..];
      var c := buf[ptr];
      ptr := ptr + 1;
      if c == MINUS {
        sign := true;
      } else if Skipped(c) {
      } else {
        var pos := DigitValue(c);
        if pos.None? || pos.value >= radix {
          return if sign then Wrap64(-res) else res;
        }
        res := Wrap64(res * radix + pos.value);
      }
    }
    return if sign then Wrap64(-res) else res;
  }

  lemma DigitScanned(d: nat, rest: Bytes, radix: nat, res: int, negative: bool)
    requires Radix(radix) && d < radix
    ensures Scan([Digit(d)] + rest, radix, res, negative) == Scan(rest, radix, Wrap64(res * radix + d), negative)
  {
    var s := [Digit(d)] + rest;
    assert s[0] == Digit(d) && s[1..] == rest && DigitValue(Digit(d)) == Some(d);
  }

  lemma {:induction false} NumeralScanned(n: nat, rest: Bytes, radix: nat, negative: bool)
    requires Radix(radix) && n <= MAX_INT
    ensures Scan(Numeral(n, radix) + rest, radix, 0, negative) == Scan(rest, radix, n, negative)
    decreases n
  {
    if n < radix {
      DigitScanned(n, rest, radix, 0, negative);
    } else {
      Smaller(n, radix);
      var d := n % radix;
      NumeralScanned(n / radix, [Digit(d)] + rest, radix, negative);
      DigitScanned(d, rest, radix, n / radix, negative);
      assert Numeral(n, radix) + rest == Numeral(n / radix, radix) + ([Digit(d)] + rest);
    }
  }

  // atoi undoes itoa.
  lemma RoundTrip(x: int, radix: nat)
    requires Radix(radix) && MIN_INT < x <= MAX_INT
    ensures Scan(Text(x, radix), radix, 0, false) == x
  {
    var s := Text(x, radix);
    if x < 0 {
      assert s[0] == MINUS && s[1..] == Numeral(-x, radix);
      NumeralScanned(-x, [], radix, true);
      assert s[1..] + [] == s[1..];
    } else {
      NumeralScanned(x, [], radix, false);
      assert s + [] == s;
    }
  }

  lemma {:induction false} TextIsString(x: int, radix: nat)
    requires Radix(radix)
    ensures Text(x, radix) != [] && 0 !in Text(x, radix)
  {
    NumeralIsString(if x < 0 then -x else x, radix);
  }

  lemma {:induction false} NumeralIsString(n: nat, radix: nat)
    requires Radix(radix)
    ensures Numeral(n, radix) != [] && 0 !in Numeral(n, radix)
    decreases n
  {
    if n >= radix {
      Smaller(n, radix);
      NumeralIsString(n / radix, radix);
    }
  }

  // ---- What texts mean ----

  const ALPHABET := "0123456789ABCDEFGHIJKLMNOPQRSTUVWXYZ"
  const LOWER := "0123456789abcdefghijklmnopqrstuvwxyz"

  lemma DigitInAlphabet(d: nat)
    requires d < 36
    ensures Digit(d) == ALPHABET[d] as int
  {
  }

  lemma LowerCase(d: nat)
    requires d < 36
    ensures LOWER[d] as int == if d < 10 then Digit(d) else Digit(d) + 32
  {
  }

  // A character counts as a digit exactly if it is in the alphabet, in either case.
  lemma DigitValues(c: Byte, d: nat)
    ensures DigitValue(c) == Some(d) <==> d < 36 && (c == ALPHABET[d] as int || c == LOWER[d] as int)
  {
    hide ALPHABET, LOWER;
    if d < 36 {
      DigitInAlphabet(d);
      LowerCase(d);
    }
  }

  function Power(radix: nat, n: nat): nat {
    if n == 0 then 1 else radix * Power(radix, n - 1)
  }

  // The value of digits, the first one weighing most.
  function Positional(ds: seq<nat>, radix: nat): nat {
    if ds == [] then 0 else ds[0] * Power(radix, |ds| - 1) + Positional(ds[1..], radix)
  }

  lemma Distribute(d: nat, p: nat, rest: nat, radix: nat)
    ensures d * (radix * p) + radix * rest == radix * (d * p + rest)
  {
    assert d * (radix * p) == radix * (d * p);
  }

  lemma {:induction false} PositionalSnoc(ds: seq<nat>, d: nat, radix: nat)
    ensures Positional(ds + [d], radix) == radix * Positional(ds, radix) + d
    decreases |ds|
  {
    var more := ds + [d];
    if ds == [] {
      assert more[1..] == [];
    } else {
      assert more[1..] == ds[1..] + [d];
      PositionalSnoc(ds[1..], d, radix);
      var p := Power(radix, |ds| - 1);
      Distribute(ds[0], p, Positional(ds[1..], radix), radix);
    }
  }

  // The digits of a numeral: below the radix, weighted by their places worth the number, and no
  // zero in front of others.
  lemma {:induction false} NumeralMeans(n: nat, radix: nat) returns (ds: seq<nat>)
    requires Radix(radix)
    ensures |ds| == |Numeral(n, radix)| && ds != [] && Positional(ds, radix) == n && (|ds| > 1 ==> ds[0] != 0)
    ensures forall k :: 0 <= k < |ds| ==> ds[k] < radix && Numeral(n, radix)[k] == ALPHABET[ds[k]] as int
    decreases n
  {
    hide ALPHABET, Digit, Positional;
    if n < radix {
      ds := [n];
      DigitInAlphabet(n);
      OneDigit(n, radix);
    } else {
      Smaller(n, radix);
      var before := NumeralMeans(n / radix, radix);
      ds := before + [n % radix];
      LastDigit(before, n / radix, n % radix, radix);
    }
  }

  lemma LastDigit(before: seq<nat>, n: nat, d: nat, radix: nat)
    requires Radix(radix) && before != [] && Positional(before, radix) == n > 0 && d < radix
    requires |before| > 1 ==> before[0] != 0
    ensures Positional(before + [d], radix) == radix * n + d && (before + [d])[0] != 0
    ensures Digit(d) == ALPHABET[d] as int
  {
    hide ALPHABET, Digit, Positional;
    PositionalSnoc(before, d, radix);
    DigitInAlphabet(d);
    if |before| == 1 {
      OneDigit(before[0], radix);
      assert before == [before[0]];
    }
  }

  lemma OneDigit(d: nat, radix: nat)
    ensures Positional([d], radix) == d
  {
    assert [d][1..] == [];
  }

  // A sign exactly for negative numbers, then the digits of the absolute value.
  lemma TextMeans(x: int, radix: nat) returns (ds: seq<nat>)
    requires Radix(radix)
    ensures Positional(ds, radix) == (if x < 0 then -x else x) && ds != [] && (|ds| > 1 ==> ds[0] != 0)
    ensures |Text(x, radix)| == |ds| + (if x < 0 then 1 else 0) && (x < 0 ==> Text(x, radix)[0] == '-' as int)
    ensures forall k :: 0 <= k < |ds| ==>
      ds[k] < radix && Text(x, radix)[k + (if x < 0 then 1 else 0)] == ALPHABET[ds[k]] as int
  {
    ds := NumeralMeans(if x < 0 then -x else x, radix);
  }

  // The characters that are passed over, wherever they stand.
  lemma {:induction false} ScanSkips(a: Bytes, c: Byte, b: Bytes, radix: nat, res: int, negative: bool)
    requires Radix(radix)
    requires c in {'\t' as int, '\n' as int, 11, 12, '\r' as int, ' ' as int, '+' as int, '_' as int}
    ensures Scan(a + [c] + b, radix, res, negative) == Scan(a + b, radix, res, negative)
    decreases |a|
  {
    var s, t := a + [c] + b, a + b;
    if a == [] {
      assert s[1..] == b && t == b;
    } else {
      assert s[0] == t[0] == a[0] && s[1..] == a[1..] + [c] + b && t[1..] == a[1..] + b;
      ScanSkips(a[1..], c, b, radix, res, true);
      ScanSkips(a[1..], c, b, radix, res, negative);
      if DigitValue(a[0]).Some? {
        ScanSkips(a[1..], c, b, radix, Wrap64(res * radix + DigitValue(a[0]).value), negative);
      }
    }
  }

  // The first character that is none of these, no sign and no digit of the radix ends the number.
  lemma NumeralStops(n: nat, c: Byte, rest: Bytes, radix: nat)
    requires Radix(radix) && n <= MAX_INT
    requires c !in {'-' as int, '\t' as int, '\n' as int, 11, 12, '\r' as int, ' ' as int, '+' as int, '_' as int}
    requires forall d: nat :: d < radix ==> c != ALPHABET[d] as int && c != LOWER[d] as int
    ensures Scan(Numeral(n, radix) + [c] + rest, radix, 0, false) == n
    ensures Scan([MINUS] + (Numeral(n, radix) + [c] + rest), radix, 0, false) + n == 0
  {
    hide Numeral, DigitValue, ALPHABET, LOWER;
    var after := [c] + rest;
    var t := Numeral(n, radix) + after;
    assert Numeral(n, radix) + [c] + rest == t;
    NumeralScanned(n, after, radix, false);
    NumeralScanned(n, after, radix, true);
    Stops(n, c, rest, radix, false);
    Stops(n, c, rest, radix, true);
    SignScanned(t, radix);
  }

  lemma Stops(n: nat, c: Byte, rest: Bytes, radix: nat, negative: bool)
    requires Radix(radix) && n <= MAX_INT
    requires c !in {'-' as int, '\t' as int, '\n' as int, 11, 12, '\r' as int, ' ' as int, '+' as int, '_' as int}
    requires forall d: nat :: d < radix ==> c != ALPHABET[d] as int && c != LOWER[d] as int
    ensures Scan([c] + rest, radix, n, negative) == if negative then 0 - n else n as int
  {
    var s, v := [c] + rest, DigitValue(c);
    assert s[0] == c && !Skipped(c) && c != MINUS;
    if v.Some? {
      DigitValues(c, v.value);
    }
  }

  lemma SignScanned(t: Bytes, radix: nat)
    requires Radix(radix)
    ensures Scan([MINUS] + t, radix, 0, false) == Scan(t, radix, 0, true)
  {
    assert ([MINUS] + t)[1..] == t;
  }
}
