// Printing numbers: uitoa (kernel/lib/uitoa.c) and fmtnum (kernel/lib/vprintf.c).

module Numbers {
  import opened Words

  const DIGITS: string := "0123456789abcdef"

  function Digit(d: nat): char
    requires d < 16
  {
    DIGITS[d]
  }

  function DigitValue(c: char): int {
    if '0' <= c <= '9' then c as int - '0' as int
    else if 'a' <= c <= 'f' then c as int - 'a' as int + 10
    else -1
  }

  lemma DigitRoundTrip(d: nat)
    requires d < 16
    ensures DigitValue(Digit(d)) == d
    ensures Digit(d) == '0' <==> d == 0
  {
    assert DIGITS == ['0', '1', '2', '3', '4', '5', '6', '7', '8', '9', 'a', 'b', 'c', 'd', 'e', 'f'];
  }

  // The value a numeral denotes, most significant digit first.
  function Eval(s: string, base: nat): int {
    if s == [] then 0 else Eval(s[..|s| - 1], base) * base + DigitValue(s[|s| - 1])
  }

  // The numeral of a value, most significant digit first.
  function Numeral(value: nat, base: nat): (s: string)
    requires 2 <= base <= 16
    ensures |s| >= 1
    decreases value
  {
    if value < base then [Digit(value)]
    else Numeral(Quotient(value, base), base) + [Digit(value % base)]
  }

  function Quotient(value: nat, base: nat): (q: nat)
    requires base >= 2
    ensures value > 0 ==> q < value
    ensures value == q * base + value % base
  {
    DivisionShrinks(value / base, value % base, value, base);
    value / base
  }

  lemma DivisionShrinks(q: int, r: nat, value: nat, base: nat)
    requires base >= 2 && r < base && value == q * base + r
    ensures 0 <= q && (value > 0 ==> q < value)
  {
    Product(q, base);
  }

  lemma Product(q: int, base: nat)
    requires base >= 2
    ensures q < 0 ==> q * base <= -1 * base
    ensures q >= 0 ==> q * base >= 2 * q
    ensures q >= 1 ==> q * base >= base
  {
    if q >= 0 {
      Scale(q, base);
    } else {
      Scale(-q, base);
      assert q * base == -1 * (-q * base);
    }
  }

  lemma Scale(q: nat, base: nat)
    requires base >= 2
    ensures q * base >= 2 * q
    ensures q >= 1 ==> q * base >= base
  {
    assert q * base == q * 2 + q * (base - 2);
    assert q >= 1 ==> q * base == base + (q - 1) * base;
  }

  // The numeral denotes the value it was made from, and has no leading zero.
  lemma {:induction false} NumeralRoundTrip(value: nat, base: nat)
    requires 2 <= base <= 16
    ensures Eval(Numeral(value, base), base) == value
    ensures Numeral(value, base)[0] == '0' <==> value == 0
    decreases value
  {
    if value < base {
      DigitRoundTrip(value);
      assert Eval([], base) == 0;
    } else {
      var q := Quotient(value, base);
      NumeralRoundTrip(q, base);
      DigitRoundTrip(value % base);
      var s := Numeral(value, base);
      assert s[..|s| - 1] == Numeral(q, base);
    }
  }

  function Power(base: nat, n: nat): nat {
    if n == 0 then 1 else Power(base, n - 1) * base
  }

  // A numeral has at most n digits exactly when its value is below base^n.
  lemma {:induction false} NumeralLength(value: nat, base: nat, n: nat)
    requires 2 <= base <= 16 && n >= 1
    ensures |Numeral(value, base)| <= n <==> value < Power(base, n)
    decreases n
  {
    if value < base {
      PowerGrows(base, n);
    } else if n == 1 {
      assert Power(base, 1) == Power(base, 0) * base;
    } else {
      var q := Quotient(value, base);
      NumeralLength(q, base, n - 1);
      BelowProduct(q, value % base, base, Power(base, n - 1));
    }
  }

  lemma {:induction false} PowerGrows(base: nat, n: nat)
    requires base >= 2 && n >= 1
    ensures Power(base, n) >= base
  {
    if n == 1 {
      assert Power(base, 1) == Power(base, 0) * base;
    } else {
      PowerGrows(base, n - 1);
      assert Power(base, n) == Power(base, n - 1) * base;
    }
  }

  lemma BelowProduct(q: nat, r: nat, base: nat, p: nat)
    requires r < base
    ensures q * base + r < p * base <==> q < p
  {
    if q < p {
      assert (q + 1) * base <= p * base;
    } else {
      assert q * base >= p * base;
    }
  }

  // 64-bit values fit 22, 20 and 16 digits in the bases fmtnum uses; each bound
  // is reached by the largest value.
  lemma BufferBounds(value: nat)
    requires value < WORD
    ensures |Numeral(value, 8)| <= 22 && |Numeral(value, 10)| <= 20 && |Numeral(value, 16)| <= 16
    ensures |Numeral(WORD - 1, 8)| > 21 && |Numeral(WORD - 1, 10)| > 19 && |Numeral(WORD - 1, 16)| > 15
  {
    NumeralLength(value, 8, 22);
    NumeralLength(value, 10, 20);
    NumeralLength(value, 16, 16);
    NumeralLength(WORD - 1, 8, 21);
    NumeralLength(WORD - 1, 10, 19);
    NumeralLength(WORD - 1, 16, 15);
    Powers();
  }

  lemma Powers()
    ensures Power(8, 21) < WORD <= Power(8, 22)
    ensures Power(10, 19) < WORD <= Power(10, 20)
    ensures Power(16, 15) < WORD == Power(16, 16)
  {
    assert Power(8, 7) == 0x20_0000;
    assert Power(8, 14) == 0x400_0000_0000;
    assert Power(10, 7) == 10_000_000;
    assert Power(10, 14) == 100_000_000_000_000;
    assert Power(16, 8) == 0x1_0000_0000;
  }

  // uitoa: digits from the least significant on, reversed in place, terminated.
  method Uitoa(value: nat, buf: array<char>, base: nat) returns (pos: nat)
    requires value < WORD && 2 <= base <= 16
    requires |Numeral(value, base)| < buf.Length
    modifies buf
    ensures pos == |Numeral(value, base)|
    ensures buf[..pos] == Numeral(value, base) && buf[pos] == '\0'
    ensures buf[pos + 1..] == old(buf[pos + 1..])
  {
    ghost var was := buf[..];
    pos := WriteDigits(value, buf, base);
    Reverse(buf, pos, Numeral(value, base));
    buf[pos] := '\0';
    assert buf[..pos] == Numeral(value, base);
    assert buf[pos + 1..] == was[pos + 1..];
  }

  // The first loop of uitoa writes the digits from the least significant on.
  method WriteDigits(value: nat, buf: array<char>, base: nat) returns (pos: nat)
    requires 2 <= base <= 16 && |Numeral(value, base)| <= buf.Length
    modifies buf
    ensures pos == |Numeral(value, base)|
    ensures forall i :: 0 <= i < pos ==> buf[i] == Numeral(value, base)[pos - 1 - i]
    ensures forall i :: pos <= i < buf.Length ==> buf[i] == old(buf[i])
  {
    ghost var all := Numeral(value, base);
    var v: nat := value;
    LastDigit(v, base);
    buf[0] := Digit(v % base);
    pos := 1;
    v := Quotient(v, base);
    while v != 0
      invariant 1 <= pos <= |all| <= buf.Length
      invariant v == 0 ==> pos == |all|
      invariant v != 0 ==> all[..|all| - pos] == Numeral(v, base)
      invariant forall i :: 0 <= i < pos ==> buf[i] == all[|all| - 1 - i]
      invariant forall i :: pos <= i < buf.Length ==> buf[i] == old(buf[i])
      decreases v
    {
      LastDigit(v, base);
      buf[pos] := Digit(v % base);
      pos := pos + 1;
      v := Quotient(v, base);
    }
  }

  lemma LastDigit(v: nat, base: nat)
    requires 2 <= base <= 16
    ensures var s := Numeral(v, base);
            s[|s| - 1] == Digit(v % base)
            && (Quotient(v, base) == 0 ==> |s| == 1)
            && (Quotient(v, base) != 0 ==> s[..|s| - 1] == Numeral(Quotient(v, base), base))
  {
    var q := Quotient(v, base);
    if v < base {
      SmallQuotient(q, v % base, v, base);
    } else {
      assert q != 0;
      assert Numeral(v, base) == Numeral(q, base) + [Digit(v % base)];
    }
  }

  lemma SmallQuotient(q: nat, r: nat, v: nat, base: nat)
    requires base >= 2 && v < base && r < base && v == q * base + r
    ensures q == 0 && r == v
  {
    Product(q, base);
  }

  // The second loop of uitoa reverses the first `pos` characters in place.
  method Reverse(buf: array<char>, pos: nat, ghost all: string)
    requires pos <= buf.Length && pos == |all|
    requires forall i :: 0 <= i < pos ==> buf[i] == all[pos - 1 - i]
    modifies buf
    ensures forall i :: 0 <= i < pos ==> buf[i] == all[i]
    ensures forall i :: pos <= i < buf.Length ==> buf[i] == old(buf[i])
  {
    var i := 0;
    while i != pos / 2
      invariant 0 <= i <= pos / 2
      invariant forall k :: 0 <= k < i || pos - i <= k < pos ==> buf[k] == all[k]
      invariant forall k :: i <= k < pos - i ==> buf[k] == all[pos - 1 - k]
      invariant forall k :: pos <= k < buf.Length ==> buf[k] == old(buf[k])
      decreases pos / 2 - i
    {
      var tmp := buf[i];
      buf[i] := buf[pos - i - 1];
      buf[pos - i - 1] := tmp;
      i := i + 1;
    }
  }

  // ---- fmtnum ----

  // intmax_t, from the bits of a uintmax_t.
  function Signed(value: nat): (r: int)
    requires value < WORD
    ensures -(WORD / 2) <= r < WORD / 2
    ensures r == value || r + WORD == value
  {
    if value < WORD / 2 then value else value - WORD
  }

  function Prefix(base: nat): string {
    if base == 8 then "0" else if base == 16 then "0x" else ""
  }

  function Magnitude(value: nat, isSigned: bool): (r: nat)
    requires value < WORD
    ensures r < WORD
  {
    if isSigned && Signed(value) < 0 then -Signed(value) else value
  }

  // What fmtnum emits.
  function Text(value: nat, base: nat, isSigned: bool): string
    requires value < WORD && 2 <= base <= 16
  {
    (if isSigned && Signed(value) < 0 then "-" else "") + Prefix(base) + Numeral(Magnitude(value, isSigned), base)
  }

  method FmtNum(value: nat, base: nat, isSigned: bool) returns (text: string)
    requires value < WORD && base in {8, 10, 16}
    ensures text == Text(value, base, isSigned)
  {
    var buffer := new char[64];
    var sign := '\0';
    var baseprefix := "";
    match base {
      case 8 => baseprefix := "0";
      case 16 => baseprefix := "0x";
      case _ =>
    }
    BufferBounds(Magnitude(value, isSigned));
    var len;
    if isSigned && Signed(value) < 0 {
      sign := '-';
      len := Uitoa(-Signed(value), buffer, base);
    } else {
      len := Uitoa(value, buffer, base);
    }
    var signText := if sign != '\0' then [sign] else "";
    text := signText + baseprefix + buffer[..len];
  }

  // Reading a number as C writes constants: an optional sign, then "0x" and
  // hexadecimal digits, or "0" and octal ones, or decimal digits.
  function Read(text: string): int {
    if text != "" && text[0] == '-' then -ReadConstant(text[1..]) else ReadConstant(text)
  }

  function ReadConstant(text: string): int {
    if |text| >= 2 && text[0] == '0' && text[1] == 'x' then Eval(text[2..], 16)
    else if text != "" && text[0] == '0' then Eval(text[1..], 8)
    else Eval(text, 10)
  }

  // fmtnum's text reads back as the signed or the unsigned argument; the base need
  // not be known.
  lemma TextRoundTrip(value: nat, base: nat, isSigned: bool)
    requires value < WORD && base in {8, 10, 16}
    ensures Read(Text(value, base, isSigned)) == if isSigned then Signed(value) else value
  {
    var m := Magnitude(value, isSigned);
    BodyReads(m, base);
    SignReads(isSigned && Signed(value) < 0, Prefix(base), Numeral(m, base));
  }

  lemma SignReads(negative: bool, prefix: string, numeral: string)
    requires prefix + numeral != "" && (prefix + numeral)[0] != '-'
    ensures Read((if negative then "-" else "") + prefix + numeral) ==
            if negative then -ReadConstant(prefix + numeral) else ReadConstant(prefix + numeral)
  {
    var body := prefix + numeral;
    var text := (if negative then "-" else "") + prefix + numeral;
    if negative {
      assert text == "-" + body;
      assert text[1..] == body;
    } else {
      assert text == body;
    }
  }

  lemma BodyReads(m: nat, base: nat)
    requires base in {8, 10, 16}
    ensures var body := Prefix(base) + Numeral(m, base);
            ReadConstant(body) == m && body != "" && body[0] != '-'
  {
    var numeral := Numeral(m, base);
    var body := Prefix(base) + numeral;
    NumeralRoundTrip(m, base);
    NumeralStart(m, base);
    if base == 10 {
      assert body == numeral;
      if m == 0 {
        assert body == "0" && body[1..] == [] && Eval([], 8) == 0;
      }
    } else {
      assert body[|Prefix(base)|..] == numeral;
    }
  }

  lemma {:induction false} NumeralStart(value: nat, base: nat)
    requires 2 <= base <= 16
    ensures Numeral(value, base)[0] != '-' && Numeral(value, base)[0] != 'x'
    decreases value
  {
    if value < base {
      DigitRoundTrip(value);
    } else {
      NumeralStart(Quotient(value, base), base);
    }
  }

  // No two arguments print the same text, whatever the bases of their directives.
  lemma TextInjective(v: nat, w: nat, base: nat, base': nat, isSigned: bool)
    requires v < WORD && w < WORD && base in {8, 10, 16} && base' in {8, 10, 16}
    requires Text(v, base, isSigned) == Text(w, base', isSigned)
    ensures v == w
  {
    TextRoundTrip(v, base, isSigned);
    TextRoundTrip(w, base', isSigned);
  }
}
