/** `kstrtoint(s, 0, &res)`: the kernel's string-to-int conversion with the
    radix detected from the text. The routine lives in the kernel library, not
    in the driver; this module follows its documented behaviour: an optional
    sign, a radix chosen from the prefix ("0x" hexadecimal, "0" octal, anything
    else decimal), at least one digit, at most one trailing newline, and a
    result that must fit in a 32-bit `int`. On any failure `res` is left alone. */
module Kstrtoint {
  import opened Bytes

  const IntMin: int := -0x8000_0000
  const IntMax: int := 0x7fff_ffff

  const Zero: byte := 0x30
  const Nine: byte := 0x39
  const LowerA: byte := 0x61
  const LowerF: byte := 0x66
  const LowerX: byte := 0x78
  const UpperA: byte := 0x41
  const UpperF: byte := 0x46
  const UpperX: byte := 0x58
  const Minus: byte := 0x2d
  const Plus: byte := 0x2b

  /** The kernel parser's case folding: it sets bit 5 (value 0x20) of the byte. */
  function ToLower(c: byte): (r: byte)
    ensures r as int % 0x40 >= 0x20
  {
    if c as int % 0x40 >= 0x20 then c else c + 0x20
  }

  /** The value of a hexadecimal digit in either case, or None for a byte that
      is no digit in any radix up to 16. */
  function DigitValue(c: byte): (r: Option<nat>)
    ensures r.Some? <==> Zero <= c <= Nine || LowerA <= c <= LowerF || UpperA <= c <= UpperF
    ensures Zero <= c <= Nine ==> r == Some((c - Zero) as nat)
    ensures LowerA <= c <= LowerF ==> r == Some((c - LowerA) as nat + 10)
    ensures UpperA <= c <= UpperF ==> r == Some((c - UpperA) as nat + 10)
  {
    if Zero <= c <= Nine then Some((c - Zero) as nat)
    else if LowerA <= ToLower(c) <= LowerF then Some((ToLower(c) - LowerA) as nat + 10)
    else None
  }

  predicate IsDigit(c: byte, base: nat) {
    DigitValue(c).Some? && DigitValue(c).value < base
  }

  /** Radix detection for base 0: returns the radix and how many prefix bytes
      to skip. A "0x" prefix selects 16 only when a hex digit follows it;
      otherwise a leading '0' selects 8 and is itself parsed as a digit. */
  function Radix(s: seq<byte>): (r: (nat, nat))
    ensures r.0 in {8, 10, 16}
    ensures r.0 == 10 <==> |s| == 0 || s[0] != Zero
    ensures r.0 == 16 <==>
      |s| > 2 && s[0] == Zero && (s[1] == LowerX || s[1] == UpperX) && IsDigit(s[2], 16)
    ensures r.1 == if r.0 == 16 then 2 else 0
  {
    if |s| > 0 && s[0] == Zero then
      if |s| > 2 && ToLower(s[1]) == LowerX && DigitValue(s[2]).Some? then (16, 2) else (8, 0)
    else (10, 0)
  }

  /** Length of the longest prefix of `s` made of digits of `base`. */
  function DigitRun(s: seq<byte>, base: nat): (n: nat)
    ensures n <= |s|
    ensures forall i :: 0 <= i < n ==> IsDigit(s[i], base)
    ensures n < |s| ==> !IsDigit(s[n], base)
  {
    if |s| == 0 || !IsDigit(s[0], base) then 0 else 1 + DigitRun(s[1..], base)
  }

  /** Positional value of a run of digits, most significant first. */
  function Value(s: seq<byte>, base: nat): nat
    requires forall i :: 0 <= i < |s| ==> IsDigit(s[i], base)
  {
    if |s| == 0 then 0
    else
      var last := s[|s| - 1];
      assert IsDigit(last, base);
      var prefix := Value(s[..|s| - 1], base);
      ProductNat(prefix, base);
      prefix * base + DigitValue(last).value
  }

  /** Shifting a value by the radix keeps it a natural number. */
  lemma ProductNat(a: nat, b: nat)
    ensures a * b >= 0
  {
  }

  /** The digits after the radix prefix: one or more digits of `base`, then
      either the end of the text or a single newline. */
  function Unsigned(t: seq<byte>, base: nat): Option<nat> {
    var n := DigitRun(t, base);
    var rest := t[n..];
    if n == 0 || !(rest == [] || rest == [Newline]) then None
    else Some(Value(t[..n], base))
  }

  /** The unsigned conversion: radix prefix, one or more digits, then either
      the end of the text or a single newline. The magnitude is unbounded
      here; the range check is made once, on the signed result. */
  function ParseUnsigned(s: seq<byte>): (r: Option<nat>)
    ensures r.Some? ==> |s| > 0 && DigitValue(s[0]).Some?
  {
    var (base, skip) := Radix(s);
    Unsigned(s[skip..], base)
  }

  /** The sign in front of the digits: a leading '-' negates, a leading '+'
      is dropped, and no other byte is taken as a sign. Returns whether the
      value is negated and the text after the sign. */
  function SignSplit(s: seq<byte>): (bool, seq<byte>) {
    if |s| > 0 && s[0] == Minus then (true, s[1..])
    else if |s| > 0 && s[0] == Plus then (false, s[1..])
    else (false, s)
  }

  /** The signed conversion: the unsigned conversion of the text after the
      sign, negated when the sign is '-'. */
  function Signed(s: seq<byte>): Option<int> {
    var (negative, body) := SignSplit(s);
    match ParseUnsigned(body)
    case Some(m) => Some(if negative then -(m as int) else m as int)
    case None => None
  }

  /** `kstrtoint(s, 0, &res)` on the C string `s`: Some(v) exactly when the
      conversion succeeds and would store v, None when it returns an error
      (a malformed text, or a value outside the 32-bit range). */
  function ParseInt(s: seq<byte>): (r: Option<int>)
    requires NulFree(s)
    ensures r.Some? ==> IntMin <= r.value <= IntMax
  {
    match Signed(s)
    case Some(v) => if IntMin <= v <= IntMax then Some(v) else None
    case None => None
  }

  /** The character of a digit, lower case above 9. */
  function DigitByte(k: nat): (c: byte)
    requires k < 16
    ensures DigitValue(c) == Some(k)
  {
    if k < 10 then Zero + k as byte else LowerA + (k - 10) as byte
  }

  /** The digits of n in radix `base`, most significant first, without
      leading zeros. */
  function Digits(n: nat, base: nat): (r: seq<byte>)
    requires 2 <= base <= 16
    ensures |r| > 0
    ensures forall i :: 0 <= i < |r| ==> IsDigit(r[i], base)
    ensures NulFree(r)
  {
    if n < base then [DigitByte(n)]
    else
      DivStep(n, base);
      Digits(n / base, base) + [DigitByte(n % base)]
  }

  /** One step of positional notation: n is its quotient by `base`, shifted,
      plus a smaller remainder. */
  lemma DivStep(n: nat, base: nat)
    requires 2 <= base <= n
    ensures 0 < n / base < n && n % base < base
    ensures n == n / base * base + n % base
  {
  }

  /** The decimal text of an int, as `printf("%d")` or `echo` would give it. */
  function Decimal(v: int): (r: seq<byte>)
    ensures |r| > 0 && NulFree(r)
  {
    if v < 0 then [Minus] + Digits(-v, 10) else Digits(v, 10)
  }

  /** The "0x" form of a non-negative number. */
  function Hex(n: nat): (r: seq<byte>)
    ensures |r| > 2 && NulFree(r)
  {
    [Zero, LowerX] + Digits(n, 16)
  }

  /** The leading-zero octal form of a non-negative number. */
  function Octal(n: nat): (r: seq<byte>)
    ensures |r| > 1 && NulFree(r)
  {
    [Zero] + Digits(n, 8)
  }

  /** Only zero is written with a leading '0'. */
  lemma {:induction false} DigitsLead(n: nat, base: nat)
    requires 2 <= base <= 16
    ensures Digits(n, base)[0] == Zero <==> n == 0
  {
    if n >= base {
      DivStep(n, base);
      DigitsLead(n / base, base);
    }
  }

  /** The digits of n in any radix have value n in that radix. */
  lemma {:induction false} DigitsValue(n: nat, base: nat)
    requires 2 <= base <= 16
    ensures Value(Digits(n, base), base) == n
  {
    if n >= base {
      DivStep(n, base);
      var d := Digits(n, base);
      assert d[..|d| - 1] == Digits(n / base, base);
      DigitsValue(n / base, base);
    }
  }

  /** A leading zero digit does not change a value. */
  lemma {:induction false} LeadingZeroValue(t: seq<byte>, base: nat)
    requires 2 <= base
    requires forall i :: 0 <= i < |t| ==> IsDigit(t[i], base)
    ensures forall i :: 0 <= i < |[Zero] + t| ==> IsDigit(([Zero] + t)[i], base)
    ensures Value([Zero] + t, base) == Value(t, base)
  {
    if |t| > 0 {
      var z := [Zero] + t;
      assert z[..|z| - 1] == [Zero] + t[..|t| - 1];
      LeadingZeroValue(t[..|t| - 1], base);
    }
  }

  /** A run of digits stops exactly where the digits do. */
  lemma {:induction false} DigitRunOfDigits(t: seq<byte>, rest: seq<byte>, base: nat)
    requires forall i :: 0 <= i < |t| ==> IsDigit(t[i], base)
    requires rest == [] || !IsDigit(rest[0], base)
    ensures DigitRun(t + rest, base) == |t|
  {
    if |t| > 0 {
      assert (t + rest)[1..] == t[1..] + rest;
      DigitRunOfDigits(t[1..], rest, base);
    }
  }

  /** The magnitude digits of any n parse back to n, followed by nothing or
      by one newline. */
  lemma DecimalDigitsParse(n: nat, tail: seq<byte>)
    requires tail == [] || tail == [Newline]
    ensures ParseUnsigned(Digits(n, 10) + tail) == Some(n)
  {
    var d := Digits(n, 10);
    var s := d + tail;
    DigitsLead(n, 10);
    var base := if n == 0 then 8 else 10;
    assert Radix(s) == (base, 0);
    assert s[0..] == s;
    if n == 0 {
      assert d == [DigitByte(0)];
    } else {
      DigitsValue(n, 10);
    }
    assert Value(d, base) == n;
    DigitRunOfDigits(d, tail, base);
    assert s[..|d|] == d;
    assert s[|d|..] == tail;
  }

  /** The text with one trailing newline, if there is one, removed. */
  function Trimmed(t: seq<byte>): (r: seq<byte>)
    ensures t == r || t == r + [Newline]
  {
    if |t| > 0 && t[|t| - 1] == Newline then t[..|t| - 1] else t
  }

  /** The digit scan accepts exactly a non-empty run of digits followed by at
      most one newline, and yields the value of that run. */
  lemma UnsignedSpec(t: seq<byte>, base: nat)
    ensures Unsigned(t, base).Some? <==>
      |Trimmed(t)| > 0 && forall i :: 0 <= i < |Trimmed(t)| ==> IsDigit(Trimmed(t)[i], base)
    ensures Unsigned(t, base).Some? ==>
      (forall i :: 0 <= i < |Trimmed(t)| ==> IsDigit(Trimmed(t)[i], base)) &&
      Unsigned(t, base).value == Value(Trimmed(t), base)
  {
    var d := Trimmed(t);
    var n := DigitRun(t, base);
    assert !IsDigit(Newline, base);
    if |d| > 0 && forall i :: 0 <= i < |d| ==> IsDigit(d[i], base) {
      if d == t {
        assert t[..n] == t;
      } else {
        DigitRunOfDigits(d, [Newline], base);
        assert t[..n] == d;
        assert t[n..] == [Newline];
      }
    }
  }

  /** What the unsigned conversion accepts, stated without the digit scan:
      after the radix prefix, the text is one or more digits of the radix,
      optionally followed by a single newline, and the result is the value of
      those digits. */
  lemma ParseUnsignedSpec(s: seq<byte>)
    ensures var (base, skip) := Radix(s);
            var d := Trimmed(s[skip..]);
            ParseUnsigned(s).Some? <==> |d| > 0 && forall i :: 0 <= i < |d| ==> IsDigit(d[i], base)
    ensures var (base, skip) := Radix(s);
            var d := Trimmed(s[skip..]);
            ParseUnsigned(s).Some? ==>
              (forall i :: 0 <= i < |d| ==> IsDigit(d[i], base)) &&
              ParseUnsigned(s).value == Value(d, base)
  {
    var (base, skip) := Radix(s);
    UnsignedSpec(s[skip..], base);
  }

  /** The sign of a decimal text is read off its first byte, whatever follows
      the digits. */
  lemma DecimalSign(v: int, tail: seq<byte>)
    ensures SignSplit(Decimal(v) + tail) == (v < 0, Digits(if v < 0 then -v else v, 10) + tail)
  {
    var text := Decimal(v) + tail;
    var n: nat := if v < 0 then -v else v;
    var s := Digits(n, 10) + tail;
    if v < 0 {
      assert text == [Minus] + s;
      assert text[1..] == s;
      assert SignSplit(text) == (true, s);
    } else {
      assert text == s;
      var c := s[0];
      assert IsDigit(c, 10);
      assert c != Minus && c != Plus;
      assert SignSplit(text) == (false, s);
    }
  }

  /** Once the unsigned conversion of the text after the sign succeeds, the
      signed conversion applies the sign to it. */
  lemma AcceptedUnsigned(text: seq<byte>, m: nat)
    requires ParseUnsigned(SignSplit(text).1) == Some(m)
    ensures Signed(text) == Some(if SignSplit(text).0 then -(m as int) else m as int)
  {
  }

  /** A text that starts with a digit carries no sign. */
  lemma UnsignedSigned(s: seq<byte>)
    requires |s| > 0 && DigitValue(s[0]).Some?
    ensures SignSplit(s) == (false, s)
  {
    assert DigitValue(Minus).None? && DigitValue(Plus).None?;
  }

  /** The signed conversion of the decimal text of any int, with or without a
      trailing newline, is that int. */
  lemma DecimalSigned(v: int, tail: seq<byte>)
    requires tail == [] || tail == [Newline]
    ensures Signed(Decimal(v) + tail) == Some(v)
  {
    var n: nat := if v < 0 then -v else v;
    DecimalSign(v, tail);
    DecimalDigitsParse(n, tail);
    AcceptedUnsigned(Decimal(v) + tail, n);
  }

  /** Signs and the 32-bit range: an unsigned text converts when its value is
      at most INT_MAX, a '+' in front changes nothing, and a '-' in front
      negates it, which admits one more magnitude (INT_MIN). */
  lemma SignRules(t: seq<byte>, m: nat)
    requires NulFree(t) && ParseUnsigned(t) == Some(m)
    ensures ParseInt(t) == if m <= IntMax then Some(m) else None
    ensures ParseInt([Plus] + t) == ParseInt(t)
    ensures ParseInt([Minus] + t) == if m <= -IntMin then Some(-(m as int)) else None
  {
    assert DigitValue(Minus).None? && DigitValue(Plus).None?;
    assert SignSplit(t) == (false, t);
    assert ([Plus] + t)[1..] == t;
    assert ([Minus] + t)[1..] == t;
  }

  /** A sign may appear only once: two sign bytes in a row are rejected,
      whatever follows them. */
  lemma DoubleSignRejected(a: byte, b: byte, t: seq<byte>)
    requires a == Minus || a == Plus
    requires b == Minus || b == Plus
    requires NulFree(t)
    ensures ParseInt([a, b] + t) == None
  {
    var s := [a, b] + t;
    assert s[1..] == [b] + t;
    var body := [b] + t;
    assert DigitValue(b).None?;
    assert Radix(body) == (10, 0);
    assert body[0..] == body;
    assert DigitRun(body, 10) == 0;
  }

  /** Writing the decimal text of any 32-bit int, with or without the newline
      `echo` appends, parses back to that int. */
  lemma DecimalRoundTrip(v: int, tail: seq<byte>)
    requires IntMin <= v <= IntMax
    requires tail == [] || tail == [Newline]
    ensures ParseInt(Decimal(v) + tail) == Some(v)
  {
    DecimalSigned(v, tail);
  }

  /** A well-formed number that does not fit in 32 bits is rejected. */
  lemma OutOfRangeRejected(v: int, tail: seq<byte>)
    requires v < IntMin || IntMax < v
    requires tail == [] || tail == [Newline]
    ensures ParseInt(Decimal(v) + tail) == None
  {
    DecimalSigned(v, tail);
  }

  /** "0x" followed by the hexadecimal digits of n, then nothing or a newline,
      parses as n. */
  lemma HexParse(n: nat, tail: seq<byte>)
    requires tail == [] || tail == [Newline]
    ensures ParseUnsigned(Hex(n) + tail) == Some(n)
  {
    var d := Digits(n, 16);
    var s := Hex(n) + tail;
    assert s == [Zero, LowerX] + (d + tail);
    assert Radix(s) == (16, 2);
    var t := s[2..];
    assert t == d + tail;
    DigitsValue(n, 16);
    DigitRunOfDigits(d, tail, 16);
    assert t[..|d|] == d;
    assert t[|d|..] == tail;
  }

  /** A leading '0' followed by the octal digits of n, then nothing or a
      newline, parses as n: base 0 reads "010" as eight. */
  lemma OctalParse(n: nat, tail: seq<byte>)
    requires tail == [] || tail == [Newline]
    ensures ParseUnsigned(Octal(n) + tail) == Some(n)
  {
    var d := Digits(n, 8);
    var z := [Zero] + d;
    var s := z + tail;
    assert ToLower(d[0]) != LowerX;
    assert Radix(s) == (8, 0);
    assert s[0..] == s;
    LeadingZeroValue(d, 8);
    DigitsValue(n, 8);
    DigitRunOfDigits(z, tail, 8);
    assert s[..|z|] == z;
    assert s[|z|..] == tail;
  }

  /** Writing a 32-bit value in "0x" or leading-zero octal form, with or
      without a trailing newline, parses back to that value. */
  lemma PrefixedRoundTrip(n: nat, tail: seq<byte>)
    requires n <= IntMax
    requires tail == [] || tail == [Newline]
    ensures ParseInt(Hex(n) + tail) == Some(n)
    ensures ParseInt(Octal(n) + tail) == Some(n)
  {
    HexParse(n, tail);
    UnsignedSigned(Hex(n) + tail);
    OctalParse(n, tail);
    UnsignedSigned(Octal(n) + tail);
  }

  /** The unsigned conversion stops at a byte that cannot continue a number
      and rejects the text. */
  lemma DigitsThenGarbage(n: nat, c: byte, more: seq<byte>)
    requires !(Zero <= c <= Nine) && c != Newline && c != Nul
    requires n == 0 ==> ToLower(c) != LowerX
    ensures ParseUnsigned(Digits(n, 10) + ([c] + more)) == None
  {
    var d := Digits(n, 10);
    var s := d + ([c] + more);
    DigitsLead(n, 10);
    var base := if n == 0 then 8 else 10;
    assert Radix(s) == (base, 0);
    assert s[0..] == s;
    assert !IsDigit(c, base);
    DigitRunOfDigits(d, [c] + more, base);
    assert s[|d|..] == [c] + more;
  }

  /** When the unsigned conversion of the text after the sign fails, the signed
      conversion fails too. */
  lemma RejectedUnsigned(text: seq<byte>)
    requires ParseUnsigned(SignSplit(text).1) == None
    ensures Signed(text) == None
  {
  }

  /** A number followed by a byte that is neither a decimal digit nor a
      newline is rejected, whatever comes after that byte, except that "0x"
      starts a hexadecimal number. */
  lemma TrailingGarbageRejected(v: int, c: byte, more: seq<byte>)
    requires !(Zero <= c <= Nine) && c != Newline && c != Nul
    requires NulFree(more)
    requires v == 0 ==> ToLower(c) != LowerX
    ensures ParseInt(Decimal(v) + [c] + more) == None
  {
    var n: nat := if v < 0 then -v else v;
    assert Decimal(v) + [c] + more == Decimal(v) + ([c] + more);
    DecimalSign(v, [c] + more);
    DigitsThenGarbage(n, c, more);
    RejectedUnsigned(Decimal(v) + [c] + more);
  }
}
