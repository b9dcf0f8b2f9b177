/** Printing and parsing numbers: do_div of libs/mips32s.h, printnum of libs/printfmt.c, strtol of libs/string.c. */
module Numbers {
  const UINT: nat := 0x1_0000_0000

  /** A 32-bit signed machine word */
  function Wrap(x: int): (r: int)
    ensures -0x8000_0000 <= r < 0x8000_0000
    ensures -0x8000_0000 <= x < 0x8000_0000 ==> r == x
  {
    (x + 0x8000_0000) % UINT - 0x8000_0000
  }

  lemma WrapMod(x: int)
    ensures exists k :: Wrap(x) == x + k * UINT
  {
    assert Wrap(x) == x + -((x + 0x8000_0000) / UINT) * UINT;
  }

  lemma WrapUnique(x: int, y: int, k: int)
    requires y == x + k * UINT
    ensures Wrap(x) == Wrap(y)
  {
    var a, b := x + 0x8000_0000, y + 0x8000_0000;
    assert b == a + k * UINT;
    assert b == (a / UINT + k) * UINT + a % UINT;
    assert b % UINT == a % UINT;
  }

  /** Wrapping in the middle of a computation does not matter. */
  lemma WrapStep(acc: int, base: int, dig: int)
    ensures Wrap(Wrap(acc) * base + dig) == Wrap(acc * base + dig)
  {
    WrapMod(acc);
    var k :| Wrap(acc) == acc + k * UINT;
    assert Wrap(acc) * base + dig == acc * base + dig + (k * base) * UINT;
    WrapUnique(acc * base + dig, Wrap(acc) * base + dig, k * base);
  }

  lemma WrapNeg(x: int)
    ensures Wrap(-Wrap(x)) == Wrap(-x)
  {
    WrapStep(x, -1, 0);
  }

  // --- dividing without a divide instruction ---

  const ULLONG: nat := 0x1_0000_0000_0000_0000

  /** From here on the estimate of do_div no longer fits 32 bits. */
  const TEN_LIMIT: nat := 0x1_4000_0002

  /** The sums of shifts that estimate 8 n / 10 */
  function Estimate(n: nat): nat {
    var q0 := n / 2 + n / 4;
    var q1 := q0 + q0 / 16;
    var q2 := q1 + q1 / 256;
    q2 + q2 / 65536
  }

  lemma SmallMod(x: nat)
    requires x < UINT
    ensures x % UINT == x && (x + 6 < UINT ==> (x + 6) % UINT == x + 6)
  {}

  /**
    The estimate is at most one below n / 10 as long as it fits: the shifts add up to 0.79999999981 n, less rounding.
    */
  lemma TenEstimate(n: nat)
    requires n < TEN_LIMIT
    ensures Estimate(n) < UINT && 0 <= n - Estimate(n) / 8 * 10 < 20
  {}

  /** The same sums in 32 bits */
  function WrappedEstimate(n: nat): (q: nat)
    ensures q < UINT
  {
    var q0 := (n / 2 + n / 4) % UINT;
    var q1 := (q0 + q0 / 16) % UINT;
    var q2 := (q1 + q1 / 256) % UINT;
    (q2 + q2 / 65536) % UINT
  }

  lemma EstimateFits(n: nat)
    requires n < TEN_LIMIT
    ensures WrappedEstimate(n) == Estimate(n)
  {
    TenEstimate(n);
    var q0 := n / 2 + n / 4;
    var q1 := q0 + q0 / 16;
    var q2 := q1 + q1 / 256;
    SmallMod(q0);
    SmallMod(q1);
    SmallMod(q2);
    SmallMod(q2 + q2 / 65536);
  }

  /** The first numbers past the limit, where the quotient is still near 2^29, have an estimate near zero. */
  lemma EstimateWraps(n: nat)
    requires TEN_LIMIT <= n < TEN_LIMIT + 18
    ensures WrappedEstimate(n) < 0x100
  {
    var q0 := n / 2 + n / 4;
    assert 0xf000_0001 <= q0 <= 0xf000_000d && q0 / 16 == 0xf00_0000;
    SmallMod(q0);
    var q1 := q0 + 0xf00_0000;
    SmallMod(q1);
    assert q1 / 256 == 0xff_0000;
    var q2 := q1 + 0xff_0000;
    SmallMod(q2);
    assert q2 / 65536 == 0xffff;
    PastMod(q2 + 0xffff);
  }

  lemma PastMod(x: nat)
    requires UINT <= x < 2 * UINT
    ensures x % UINT == x - UINT
  {}

  /** At the limit the estimate is zero, where the quotient is 2^29. */
  lemma FirstWrongEstimate()
    ensures WrappedEstimate(TEN_LIMIT) == 0 && Estimate(TEN_LIMIT) == UINT && TEN_LIMIT / 10 == 0x2000_0000
  {
    var q0 := 0xf000_0001;
    assert TEN_LIMIT / 2 + TEN_LIMIT / 4 == q0 && q0 / 16 == 0xf00_0000;
    SmallMod(q0);
    var q1 := q0 + 0xf00_0000;
    assert q1 / 256 == 0xff_0000;
    SmallMod(q1);
    var q2 := q1 + 0xff_0000;
    assert q2 / 65536 == 0xffff;
    SmallMod(q2);
    PastMod(UINT);
  }

  /** A corrected quotient can be right only if the first one was at most two below. */
  lemma Corrected(n: nat, q: nat, mod: nat)
    requires TEN_LIMIT <= n && q < 0x2000_0000 && mod == (n - 10 * q) % UINT && n / 10 == q + (mod + 6) % UINT / 16
    ensures n / 10 <= q + 2
  {
    var d := n / 10 - q;
    assert 0 < d <= 0x1000_0000;
    assert n - 10 * q == 10 * d + n % 10 < UINT;
    SmallMod(n - 10 * q);
  }

  /**
    do_div by 10 on a 64-bit number, its shifts written as divisions: exact if and only if the estimate fits 32 bits.
    */
  method DivideByTen(n: nat) returns (quotient: nat, remainder: nat)
    requires n < ULLONG
    ensures quotient == n / 10 && remainder == n % 10 <==> n < TEN_LIMIT
  {
    var q := (n / 2 + n / 4) % UINT;
    q := (q + q / 16) % UINT;
    q := (q + q / 256) % UINT;
    q := (q + q / 65536) % UINT;
    assert q == WrappedEstimate(n);
    q := q / 8;
    ghost var q0 := q;
    var mod := (n - 10 * q) % UINT;
    q := (q + (mod + 6) % UINT / 16) % UINT;
    quotient, remainder := q, (n - 10 * q) % UINT;
    DivisionFacts(n, q0, mod, quotient);
  }

  lemma DivisionFacts(n: nat, q: nat, mod: nat, quotient: nat)
    requires q == WrappedEstimate(n) / 8 && mod == (n - 10 * q) % UINT && quotient == (q + (mod + 6) % UINT / 16) % UINT
    ensures n < TEN_LIMIT ==> quotient == n / 10 && (n - 10 * quotient) % UINT == n % 10
    ensures n >= TEN_LIMIT ==> quotient != n / 10
  {
    hide WrappedEstimate, Estimate;
    if n < TEN_LIMIT {
      EstimateFits(n);
      TenEstimate(n);
      CorrectedRight(n, q);
    } else if quotient == n / 10 {
      Corrected(n, q, mod);
      EstimateWraps(n);
    }
  }

  lemma CorrectedRight(n: nat, q: nat)
    requires 0 <= n - 10 * q < 20 && q < 0x2000_0000
    ensures var mod := (n - 10 * q) % UINT; var quotient := (q + (mod + 6) % UINT / 16) % UINT;
            quotient == n / 10 && (n - 10 * quotient) % UINT == n % 10
  {
    SmallMod(n - 10 * q);
    SmallMod(n % 10);
  }

  /**
    The arguments for which do_div divides: its three powers of two, and 10 up to the limit. Any other base gives 1 and
    3 whatever the number, which is right for one number.
    */
  predicate Divides(n: nat, base: nat)
    requires base > 0
  {
    || base == 8 || base == 16 || base == 0x8000_0000
    || (if base == 10 then n < TEN_LIMIT else base > 3 && n == base + 3)
  }

  lemma OneAndThree(n: nat, base: nat)
    requires base > 0
    ensures n / base == 1 && n % base == 3 <==> base > 3 && n == base + 3
  {
    Quotient(n, base);
    var q := n / base;
    if q == 0 {
      assert base * q == 0;
    } else if q == 1 {
      assert base * q == base;
    } else {
      Twice(base, q);
    }
  }

  lemma Quotient(n: nat, base: nat)
    requires base > 0
    ensures n == base * (n / base) + n % base && n % base < base
  {}

  lemma {:induction false} Twice(base: nat, q: nat)
    requires q >= 2
    ensures base * q >= base + base
    decreases q
  {
    if q > 2 {
      Twice(base, q - 1);
      assert base * q == base * (q - 1) + base;
    }
  }

  method DoDiv(n: nat, base: nat) returns (quotient: nat, remainder: nat)
    requires n < ULLONG && 0 < base < UINT
    ensures quotient == n / base && remainder == n % base <==> Divides(n, base)
  {
    if base == 10 {
      quotient, remainder := DivideByTen(n);
    } else if base == 16 {
      quotient, remainder := n / 16, n % 16;
    } else if base == 8 {
      quotient, remainder := n / 8, n % 8;
    } else if base == 0x8000_0000 {
      quotient, remainder := n / 0x8000_0000, n % 0x8000_0000;
    } else {
      quotient, remainder := 1, 3;
      OneAndThree(n, base);
    }
  }

  // --- printing ---

  /** "0123456789abcdef"[d] */
  function HexChar(d: nat): char
    requires d < 16
  {
    if d < 10 then '0' + d as char else 'a' + (d - 10) as char
  }

  /** The characters printnum takes its digits from */
  const DIGITS := "0123456789abcdef"

  lemma HexCharTable(d: nat)
    requires d < 16
    ensures HexChar(d) == DIGITS[d]
  {}

  /** The digits of n, most significant first */
  function Digits(n: nat, base: nat): (d: string)
    requires 2 <= base <= 16
    ensures |d| > 0
  {
    if n < base then [HexChar(n)]
    else
      assert n / base < n by { Shrinks(n, base); }
      Digits(n / base, base) + [HexChar(n % base)]
  }

  lemma Shrinks(n: nat, base: nat)
    requires 2 <= base <= n
    ensures n / base < n
  {
    var q := n / base;
    assert (base - 2) * q >= 0 && n == base * q + n % base;
  }

  function Repeat(c: char, n: int): string {
    if n <= 0 then [] else [c] + Repeat(c, n - 1)
  }

  /** printnum: the digits, padded on the left to the width */
  method PrintNum(num: nat, base: nat, width: int, padc: char) returns (out: string)
    requires num < ULLONG && (base == 10 || base == 16 || base == 8) && Divides(num, base)
    ensures out == Repeat(padc, width - |Digits(num, base)|) + Digits(num, base)
    decreases num
  {
    hide HexChar, Digits, Divides;
    var result, mod := DoDiv(num, base);
    DigitsStep(num, base);
    if num >= base {
      StillDivides(num, base);
      out := PrintNum(result, base, width - 1, padc);
    } else {
      out := Pad(width - 1, padc);
    }
    out := out + [HexChar(mod)];
  }

  lemma StillDivides(num: nat, base: nat)
    requires (base == 10 || base == 16 || base == 8) && Divides(num, base)
    ensures Divides(num / base, base) && num / base <= num
  {}

  /** The padding loop of printnum */
  method Pad(width: int, padc: char) returns (out: string)
    ensures out == Repeat(padc, width)
  {
    out := [];
    var w := width;
    while w > 0
      invariant out + Repeat(padc, w) == Repeat(padc, width)
    {
      out := out + [padc];
      w := w - 1;
    }
  }

  /** What vprintfmt makes of an unpadded %d of a 32-bit integer */
  function Decimal(n: int): string
    requires -0x8000_0000 <= n < 0x8000_0000
  {
    if n < 0 then "-" + Digits(-n, 10) else Digits(n, 10)
  }

  /** The %d conversion without width: -1 is the width vprintfmt starts from */
  method PrintDecimal(n: int) returns (out: string)
    requires -0x8000_0000 <= n < 0x8000_0000
    ensures out == Decimal(n)
  {
    hide Digits;
    if n < 0 {
      var digits := PrintNum(-n, 10, -1, ' ');
      out := "-" + digits;
    } else {
      out := PrintNum(n, 10, -1, ' ');
    }
  }

  // --- parsing ---

  function DigitOf(c: char): (d: nat)
    ensures d <= 36
  {
    if '0' <= c <= '9' then (c - '0') as nat
    else if 'a' <= c <= 'z' then (c - 'a') as nat + 10
    else if 'A' <= c <= 'Z' then (c - 'A') as nat + 10
    else 36
  }

  /** A C string read at i: zero behind its end */
  function At(s: string, i: nat): char { if i < |s| then s[i] else '\0' }

  /** The number the digits from i on denote, continuing from acc, and where they end */
  function Scan(s: string, i: nat, base: nat, acc: int): (int, nat)
    requires i <= |s| && base <= 36
    decreases |s| - i
  {
    if i < |s| && DigitOf(s[i]) < base then Scan(s, i + 1, base, acc * base + DigitOf(s[i])) else (acc, i)
  }

  function SkipBlanks(s: string, i: nat): (r: nat)
    requires i <= |s|
    ensures r <= |s|
    decreases |s| - i
  {
    if i < |s| && (s[i] == ' ' || s[i] == '\t') then SkipBlanks(s, i + 1) else i
  }

  /** Where the digits start, whether a minus sign was seen, and in which base they are */
  function Prefix(s: string, base: nat): (r: (nat, bool, nat))
    requires base == 0 || 2 <= base <= 36
    ensures r.0 <= |s| && 2 <= r.2 <= 36
  {
    var i := SkipBlanks(s, 0);
    var neg := At(s, i) == '-';
    var j := if At(s, i) == '+' || neg then i + 1 else i;
    if (base == 0 || base == 16) && At(s, j) == '0' && At(s, j + 1) == 'x' then (j + 2, neg, 16)
    else if base == 0 && At(s, j) == '0' then (j + 1, neg, 8)
    else (j, neg, if base == 0 then 10 else base)
  }

  /** What strtol returns: the number as a 32-bit word, and where it stopped */
  function Parsed(s: string, base: nat): (int, nat)
    requires base == 0 || 2 <= base <= 36
  {
    var (i, neg, b) := Prefix(s, base);
    var (v, end) := Scan(s, i, b, 0);
    (Wrap(if neg then -v else v), end)
  }

  /** The digit loop of strtol */
  method StrtolDigits(s: string, start: nat, base: nat) returns (val: int, end: nat)
    requires start <= |s| && base <= 36
    ensures val == Wrap(Scan(s, start, base, 0).0) && end == Scan(s, start, base, 0).1
  {
    hide Wrap;
    val, end := 0, start;
    ghost var acc := 0;
    while true
      invariant end <= |s| && val == Wrap(acc) && Scan(s, start, base, 0) == Scan(s, end, base, acc)
      decreases |s| - end
    {
      var dig := DigitOf(At(s, end));
      if dig >= base {
        break;
      }
      WrapStep(acc, base, dig);
      val := Wrap(val * base + dig);
      acc := acc * base + dig;
      end := end + 1;
    }
  }

  /** strtol; val wraps at every step, as the machine's long does */
  method Strtol(s: string, base: nat) returns (val: int, end: nat)
    requires (base == 0 || 2 <= base <= 36) && '\0' !in s
    ensures (val, end) == Parsed(s, base)
  {
    hide Wrap, Scan, DigitOf;
    var i, b, neg := 0, base, false;
    while At(s, i) == ' ' || At(s, i) == '\t'
      invariant i <= |s| && SkipBlanks(s, i) == SkipBlanks(s, 0)
      decreases |s| - i
    {
      i := i + 1;
    }
    if At(s, i) == '+' {
      i := i + 1;
    } else if At(s, i) == '-' {
      i, neg := i + 1, true;
    }
    if (b == 0 || b == 16) && At(s, i) == '0' && At(s, i + 1) == 'x' {
      i, b := i + 2, 16;
    } else if b == 0 && At(s, i) == '0' {
      i, b := i + 1, 8;
    } else if b == 0 {
      b := 10;
    }
    assert (i, neg, b) == Prefix(s, base);
    hide *;
    val, end := StrtolDigits(s, i, b);
    WrapNeg(Scan(s, i, b, 0).0);
    val := if neg then Wrap(-val) else val;
  }

  // --- printing and parsing undo each other ---

  /** Nothing strtol would take for a blank, a sign, a prefix or the end */
  predicate Plain(c: char) { c != 'x' && c != '-' && c != '+' && c != ' ' && c != '\t' && c != '\0' }

  lemma HexDigit(d: nat)
    requires d < 16
    ensures DigitOf(HexChar(d)) == d && Plain(HexChar(d))
  {}

  lemma {:induction false} ScanAppend(s: string, c: char, i: nat, base: nat, acc: int)
    requires i <= |s| && base <= 36 && Scan(s, i, base, acc).1 == |s| && DigitOf(c) < base
    ensures Scan(s + [c], i, base, acc) == (Scan(s, i, base, acc).0 * base + DigitOf(c), |s| + 1)
    decreases |s| - i
  {
    if i < |s| {
      assert (s + [c])[i] == s[i];
      ScanAppend(s, c, i + 1, base, acc * base + DigitOf(s[i]));
    } else {
      assert (s + [c])[i] == c;
    }
  }

  lemma ScanNothing(s: string, base: nat)
    requires base <= 36
    ensures Scan(s, |s|, base, 0) == (0, |s|)
  {}

  lemma DigitsStep(n: nat, base: nat)
    requires 2 <= base <= 16
    ensures n % base < 16 && n / base * base + n % base == n && (n >= base ==> n / base < n)
    ensures (n < base ==> n % base == n)
    ensures Digits(n, base) == (if n < base then [] else Digits(n / base, base)) + [HexChar(n % base)]
  {
    hide HexChar;
    DivFacts(n, base);
  }

  lemma DivFacts(n: nat, base: nat)
    requires base >= 2
    ensures n % base < base && n / base * base + n % base == n
    ensures n < base ==> n % base == n
    ensures n >= base ==> n / base < n
  {
    MulFacts(n / base, base);
  }

  lemma {:induction false} MulFacts(q: nat, base: nat)
    requires base >= 2
    ensures q * base >= 2 * q && (q >= 1 ==> q * base >= base)
  {
    if q > 0 {
      MulFacts(q - 1, base);
      assert q * base == (q - 1) * base + base;
    }
  }

  /** Reading printed digits, whatever stands in front of them */
  lemma {:induction false} ScanDigits(pre: string, n: nat, base: nat)
    requires 2 <= base <= 16
    ensures Scan(pre + Digits(n, base), |pre|, base, 0) == (n, |pre| + |Digits(n, base)|)
    decreases n
  {
    hide DigitOf, HexChar, Scan, Digits;
    DigitsStep(n, base);
    HexDigit(n % base);
    var c := HexChar(n % base);
    if n < base {
      ScanNothing(pre, base);
      ScanAppend(pre, c, |pre|, base, 0);
      assert pre + Digits(n, base) == pre + [c];
    } else {
      ScanDigits(pre, n / base, base);
      ScanAppend(pre + Digits(n / base, base), c, |pre|, base, 0);
      assert pre + Digits(n, base) == pre + Digits(n / base, base) + [c];
    }
  }

  lemma {:induction false} DigitsPlain(n: nat, base: nat, i: nat)
    requires 2 <= base <= 16 && i < |Digits(n, base)|
    ensures Plain(Digits(n, base)[i])
    decreases n
  {
    hide DigitOf, HexChar, Plain, Digits;
    DigitsStep(n, base);
    HexDigit(n % base);
    if n >= base && i < |Digits(n / base, base)| {
      DigitsPlain(n / base, base, i);
    }
  }

  lemma {:induction false} ScanStops(s: string, rest: string, i: nat, base: nat, acc: int)
    requires i <= |s| && base <= 36 && Scan(s, i, base, acc).1 == |s| && (rest != "" ==> DigitOf(rest[0]) >= base)
    ensures Scan(s + rest, i, base, acc) == Scan(s, i, base, acc)
    decreases |s| - i
  {
    if i < |s| {
      assert (s + rest)[i] == s[i];
      ScanStops(s, rest, i + 1, base, acc * base + DigitOf(s[i]));
    } else if rest != "" {
      assert (s + rest)[i] == rest[0];
    }
  }

  /** Whatever follows the number and is no digit ends it, and strtol says where. */
  lemma ParseStops(n: nat, base: nat, rest: string)
    requires (base == 10 || base == 16 || base == 8) && (rest != "" ==> DigitOf(rest[0]) >= base && rest[0] != 'x')
    ensures Parsed(Digits(n, base) + rest, base) == (Wrap(n), |Digits(n, base)|)
  {
    hide Scan, Digits, DigitOf, Wrap;
    var d := Digits(n, base);
    DigitsPlain(n, base, 0);
    if |d| > 1 {
      DigitsPlain(n, base, 1);
    }
    var s := d + rest;
    assert s[0] == d[0] && (|s| > 1 ==> s[1] == if |d| > 1 then d[1] else rest[0]);
    assert Prefix(s, base) == (0, false, base);
    ScanDigits("", n, base);
    assert "" + d == d;
    ScanStops(d, rest, 0, base, 0);
  }

  /** strtol reads back what %x, %o, %u or %d printed, as far as a 32-bit word can hold it. */
  lemma ParsePrinted(n: nat, base: nat)
    requires base == 10 || base == 16 || base == 8
    ensures Parsed(Digits(n, base), base) == (Wrap(n), |Digits(n, base)|)
  {
    hide Scan, Digits, DigitOf, Wrap;
    var d := Digits(n, base);
    DigitsPlain(n, base, 0);
    if |d| > 1 {
      DigitsPlain(n, base, 1);
    }
    assert Prefix(d, base) == (0, false, base);
    ScanDigits("", n, base);
    assert "" + d == d;
  }

  /** strtol in base 10 of an unpadded %d gives the number back, for every 32-bit integer. */
  lemma DecimalRoundTrip(n: int)
    requires -0x8000_0000 <= n < 0x8000_0000
    ensures Parsed(Decimal(n), 10) == (n, |Decimal(n)|)
  {
    hide Scan, Digits, DigitOf, Wrap;
    if n >= 0 {
      ParsePrinted(n, 10);
    } else {
      var d, s := Digits(-n, 10), Decimal(n);
      DigitsPlain(-n, 10, 0);
      assert s[0] == '-' && At(s, 1) == d[0];
      assert Prefix(s, 10) == (1, true, 10);
      ScanDigits("-", -n, 10);
    }
  }

  /** %x or %o of an unsigned word comes back exactly when it fits a signed one. */
  lemma UnsignedRoundTripIff(n: nat, base: nat)
    requires n < UINT && (base == 16 || base == 8)
    ensures Parsed(Digits(n, base), base).0 == n <==> n < 0x8000_0000
  {
    ParsePrinted(n, base);
  }

  /** The largest word, printed with %x, is read back as -1. */
  lemma AllOnesReadBackNegative()
    ensures Parsed(Digits(0xffff_ffff, 16), 16).0 == -1
  {
    ParsePrinted(0xffff_ffff, 16);
  }

  // --- numbers as people write them ---

  const LOWER := "0123456789abcdefghijklmnopqrstuvwxyz"
  const UPPER := "0123456789ABCDEFGHIJKLMNOPQRSTUVWXYZ"

  /** Digits stand for their place in the alphabet, in either case. */
  lemma DigitTable(d: nat)
    requires d < 36
    ensures DigitOf(LOWER[d]) == d && DigitOf(UPPER[d]) == d
  {
    if d < 10 {
      Places(d, '0', d);
    } else {
      Places(d, 'a', d - 10);
    }
  }

  lemma Places(d: nat, first: char, k: nat)
    requires d < 36 && (if d < 10 then first == '0' && k == d else first == 'a' && k == d - 10)
    ensures LOWER[d] == first + k as char
    ensures UPPER[d] == (if d < 10 then '0' else 'A') + k as char
  {}

  /** Nothing else is a digit. */
  lemma OnlyDigits(c: char)
    ensures DigitOf(c) < 36 ==> LOWER[DigitOf(c)] == c || UPPER[DigitOf(c)] == c
  {
    if '0' <= c <= '9' {
      Places(DigitOf(c), '0', DigitOf(c));
    } else if DigitOf(c) < 36 {
      Places(DigitOf(c), 'a', DigitOf(c) - 10);
    }
  }

  /** The same in capital letters */
  function Capitals(s: string): (r: string)
    ensures |r| == |s| && forall i | 0 <= i < |s| :: r[i] == if 'a' <= s[i] <= 'z' then UPPER[DigitOf(s[i])] else s[i]
  {
    seq(|s|, i requires 0 <= i < |s| => if 'a' <= s[i] <= 'z' then UPPER[DigitOf(s[i])] else s[i])
  }

  lemma CapitalDigit(s: string, i: nat)
    requires i < |s|
    ensures DigitOf(Capitals(s)[i]) == DigitOf(s[i])
  {
    if 'a' <= s[i] <= 'z' {
      DigitTable(DigitOf(s[i]));
    }
  }

  lemma {:induction false} ScanCapitals(s: string, i: nat, base: nat, acc: int)
    requires i <= |s| && base <= 36
    ensures Scan(Capitals(s), i, base, acc) == Scan(s, i, base, acc)
    decreases |s| - i
  {
    hide DigitOf, Capitals;
    if i < |s| {
      CapitalDigit(s, i);
      if DigitOf(s[i]) < base {
        ScanCapitals(s, i + 1, base, acc * base + DigitOf(s[i]));
      }
    }
  }

  /** How a number may be written: in decimal, or behind 0x or 0 */
  datatype Form = Decimals | Hex | Octal

  function Radix(form: Form): (b: nat)
    ensures 2 <= b <= 16
  {
    match form
    case Decimals => 10
    case Hex => 16
    case Octal => 8
  }

  function Lead(form: Form): string {
    match form
    case Decimals => ""
    case Hex => "0x"
    case Octal => "0"
  }

  predicate IsBlank(c: char) { c == ' ' || c == '\t' }

  predicate Blanks(s: string) { forall i | 0 <= i < |s| :: IsBlank(s[i]) }

  predicate IsSign(s: string) { s == "" || s == "+" || s == "-" }

  lemma {:induction false} SkipsBlanks(s: string, k: nat, i: nat)
    requires i <= k <= |s| && (forall j | 0 <= j < k :: IsBlank(s[j])) && (k < |s| ==> !IsBlank(s[k]))
    ensures SkipBlanks(s, i) == k
    decreases k - i
  {
    if i < k {
      SkipsBlanks(s, k, i + 1);
    }
  }

  lemma {:induction false} FirstDigit(n: nat, base: nat)
    requires 2 <= base <= 16
    ensures Digits(n, base)[0] == '0' <==> n == 0
    decreases n
  {
    hide HexChar;
    DigitsStep(n, base);
    if n >= base {
      FirstDigit(n / base, base);
      MulFacts(n / base, base);
      assert n / base > 0;
    } else {
      assert HexChar(n) == '0' <==> n == 0 by { ZeroDigit(n); }
    }
  }

  lemma ZeroDigit(d: nat)
    requires d < 16
    ensures HexChar(d) == '0' <==> d == 0
  {}

  /**
    strtol reads a number the way it is written, behind any blanks and a sign: in decimal, behind 0x or behind 0 when
    the base is left to it, and in base 10 or 16 when it is not.
    */
  lemma ParseWritten(blanks: string, sign: string, form: Form, n: nat, base: nat)
    requires Blanks(blanks) && IsSign(sign) && (base == 0 || (base == Radix(form) && !form.Octal?))
    ensures var s := blanks + sign + Lead(form) + Digits(n, Radix(form));
            Parsed(s, base) == (Wrap(if sign == "-" then 0 - n else n), |s|)
  {
    hide Scan, Digits, DigitOf, Wrap;
    var d, pre := Digits(n, Radix(form)), blanks + sign + Lead(form);
    var s := pre + d;
    DigitsPlain(n, Radix(form), 0);
    FirstDigit(n, Radix(form));
    if |d| > 1 {
      DigitsPlain(n, Radix(form), 1);
    }
    ScanDigits(pre, n, Radix(form));
    WrittenPrefix(blanks, sign, form, d, base);
    if form.Decimals? && base == 0 && n == 0 {
      ZeroPrinted();
      ScanNothing(s, 8);
    }
  }

  lemma ZeroPrinted()
    ensures Digits(0, 10) == "0"
  {}

  lemma WrittenPrefix(blanks: string, sign: string, form: Form, d: string, base: nat)
    requires Blanks(blanks) && IsSign(sign) && (base == 0 || (base == Radix(form) && !form.Octal?))
    requires |d| > 0 && Plain(d[0]) && (|d| > 1 ==> Plain(d[1]))
    ensures var s, k := blanks + sign + Lead(form) + d, |blanks + sign + Lead(form)|;
            Prefix(s, base) ==
              if form.Decimals? && base == 0 && d[0] == '0' then (k + 1, sign == "-", 8)
              else (k, sign == "-", Radix(form))
  {
    var s, j, k := blanks + sign + Lead(form) + d, |blanks| + |sign|, |blanks + sign + Lead(form)|;
    hide SkipBlanks, Prefix, Plain;
    assert !IsBlank(s[|blanks|]) && SkipBlanks(s, 0) == |blanks| by { BlanksSkipped(blanks, sign, form, d); }
    assert s[k] == d[0] && (|d| > 1 ==> s[k + 1] == d[1]);
    assert forall i | 0 <= i < |Lead(form)| :: s[j + i] == Lead(form)[i];
    assert s[|blanks|] == if sign != "" then sign[0] else if Lead(form) != "" then '0' else d[0];
    PrefixBehind(s, |blanks|, sign, form, d, base);
  }

  lemma BlanksSkipped(blanks: string, sign: string, form: Form, d: string)
    requires Blanks(blanks) && IsSign(sign) && |d| > 0 && Plain(d[0])
    ensures var s := blanks + sign + Lead(form) + d; !IsBlank(s[|blanks|]) && SkipBlanks(s, 0) == |blanks|
  {
    var s := blanks + sign + Lead(form) + d;
    assert forall i | 0 <= i < |blanks| :: s[i] == blanks[i];
    assert s[|blanks|] == if sign != "" then sign[0] else if Lead(form) != "" then Lead(form)[0] else d[0];
    SkipsBlanks(s, |blanks|, 0);
  }

  lemma PrefixBehind(s: string, i: nat, sign: string, form: Form, d: string, base: nat)
    requires IsSign(sign) && (base == 0 || (base == Radix(form) && !form.Octal?)) && |d| > 0 && Plain(d[0])
    requires (|d| > 1 ==> Plain(d[1])) && SkipBlanks(s, 0) == i && |s| == i + |sign| + |Lead(form)| + |d|
    requires s[i] == if sign != "" then sign[0] else if Lead(form) != "" then '0' else d[0]
    requires var k := i + |sign| + |Lead(form)|; s[k] == d[0] && (|d| > 1 ==> s[k + 1] == d[1])
    requires forall x | 0 <= x < |Lead(form)| :: s[i + |sign| + x] == Lead(form)[x]
    ensures var k := i + |sign| + |Lead(form)|;
            Prefix(s, base) ==
              if form.Decimals? && base == 0 && d[0] == '0' then (k + 1, sign == "-", 8)
              else (k, sign == "-", Radix(form))
  {
    hide SkipBlanks;
    var j := i + |sign|;
    if form.Hex? {
      assert s[i + |sign| + 1] == Lead(form)[1];
      assert s[i + |sign| + 0] == Lead(form)[0];
    }
    assert form.Octal? ==> s[j] == '0' && s[j + 1] == d[0];
  }

  /** Hexadecimal digits are read alike in capitals, behind 0x too. */
  lemma ParseCapitals(n: nat, base: nat)
    requires base == 0 || base == 16
    ensures Parsed("0x" + Capitals(Digits(n, 16)), base) == (Wrap(n), 2 + |Digits(n, 16)|)
  {
    hide Scan, Digits, DigitOf, Wrap;
    var d := Digits(n, 16);
    var s, t := "0x" + Capitals(d), Capitals("__" + d);
    ScanDigits("__", n, 16);
    ScanCapitals("__" + d, 2, 16, 0);
    SameScan(s, t, 2, 16, 0);
    assert s[0] == '0' && s[1] == 'x';
    assert Prefix(s, base) == (2, false, 16);
  }

  lemma {:induction false} SameScan(s: string, t: string, i: nat, base: nat, acc: int)
    requires |s| == |t| && i <= |s| && base <= 36 && forall j | i <= j < |s| :: s[j] == t[j]
    ensures Scan(s, i, base, acc) == Scan(t, i, base, acc)
    decreases |s| - i
  {
    if i < |s| && DigitOf(s[i]) < base {
      SameScan(s, t, i + 1, base, acc * base + DigitOf(s[i]));
    }
  }
}
