/**
 * Formatted console output (kernel/printf.c): `printint`, `printptr`, `printf`
 * and `panic`. The console is a `Console` object whose `out` sequence is what
 * `consputc` has written so far. Each printing method is proved against a
 * function that says what text it writes, and lemmas say what that text means.
 */
module Printf {
  import opened Common

  /** The C `int` type. */
  newtype int32 = x: int | -0x8000_0000 <= x < 0x8000_0000

  /** The digit table of printf.c: index d holds the lowercase digit for d. */
  const Digits: string := "0123456789abcdef"

  /** The console device: `consputc` appends one character to `out`. */
  class Console {
    var out: seq<char>

    constructor ()
      ensures out == []
    {
      out := [];
    }

    method Putc(c: char)
      modifies this
      ensures out == old(out) + [c]
    {
      out := out + [c];
    }
  }

  // ---------------------------------------------------------------------------
  // Numerals

  /** The digit a character of `Digits` stands for (0 for any other character). */
  function DigitValue(c: char): (d: nat)
    ensures d < 16
  {
    if '0' <= c <= '9' then c as int - '0' as int
    else if 'a' <= c <= 'f' then c as int - 'a' as int + 10
    else 0
  }

  lemma DigitValueOfDigit(d: nat)
    requires d < 16
    ensures DigitValue(Digits[d]) == d
  {
    if d < 10 {
      assert Digits[d] as int == '0' as int + d;
    } else {
      assert Digits[d] as int == 'a' as int + d - 10;
    }
  }

  /** The base-`base` numeral of `n`, most significant digit first. */
  function DigitsOf(n: nat, base: nat): (s: string)
    requires 2 <= base <= 16
    decreases n
  {
    if n < base then [Digits[n]] else DigitsOf(n / base, base) + [Digits[n % base]]
  }

  /** The number a numeral denotes in base `base`: the independent decoder. */
  function Value(s: string, base: nat): nat
  {
    if s == [] then 0 else Value(s[..|s| - 1], base) * base + DigitValue(s[|s| - 1])
  }

  function Pow(b: nat, k: nat): (p: nat)
    ensures b > 0 ==> p > 0
  {
    if k == 0 then 1 else b * Pow(b, k - 1)
  }

  lemma ValueSnoc(s: string, c: char, base: nat)
    ensures Value(s + [c], base) == Value(s, base) * base + DigitValue(c)
  {
    assert (s + [c])[..|s|] == s;
  }

  /** Decoding the numeral of `n` gives back `n`. */
  lemma {:induction false} DigitsOfRoundTrip(n: nat, base: nat)
    requires 2 <= base <= 16
    ensures Value(DigitsOf(n, base), base) == n
    decreases n
  {
    if n < base {
      RoundTripDigit(n, base);
    } else {
      DigitsOfRoundTrip(n / base, base);
      RoundTripStep(n, base);
    }
  }

  lemma RoundTripDigit(n: nat, base: nat)
    requires 2 <= base <= 16 && n < base
    ensures Value(DigitsOf(n, base), base) == n
  {
    ValueSnocDigit([], n, base);
    assert [] + [Digits[n]] == [Digits[n]];
  }

  /** Appending the last digit multiplies the prefix's value by the base and adds the digit. */
  lemma RoundTripStep(n: nat, base: nat)
    requires 2 <= base <= 16 && n >= base
    requires Value(DigitsOf(n / base, base), base) == n / base
    ensures Value(DigitsOf(n, base), base) == n
  {
    var q, r := n / base, n % base;
    assert DigitsOf(n, base) == DigitsOf(q, base) + [Digits[r]];
    ValueSnocDigit(DigitsOf(q, base), r, base);
    DivModParts(n, base);
  }

  lemma ValueSnocDigit(s: string, r: nat, base: nat)
    requires r < base <= 16
    ensures Value(s + [Digits[r]], base) == Value(s, base) * base + r
  {
    DigitValueOfDigit(r);
    ValueSnoc(s, Digits[r], base);
  }

  /**
   * The numeral of `n` has at least one digit, every digit is one of the first
   * `base` entries of `Digits`, and it has no leading zero unless `n` is 0,
   * in which case it is exactly "0".
   */
  lemma {:induction false} DigitsOfCanonical(n: nat, base: nat)
    requires 2 <= base <= 16
    ensures 1 <= |DigitsOf(n, base)|
    ensures forall k :: 0 <= k < |DigitsOf(n, base)| ==> DigitsOf(n, base)[k] in Digits[..base]
    ensures n == 0 <==> DigitsOf(n, base) == "0"
    ensures n > 0 ==> DigitsOf(n, base)[0] != '0'
    decreases n
  {
    if n < base {
      CanonicalDigit(n, base);
    } else {
      DigitsOfCanonical(n / base, base);
      CanonicalStep(n, base);
    }
  }

  /** The facts `DigitsOfCanonical` states about the numeral `s` of `n`. */
  predicate Canonical(s: string, n: nat, base: nat)
    requires base <= 16
  {
    1 <= |s| && (forall k :: 0 <= k < |s| ==> s[k] in Digits[..base])
    && (n == 0 <==> s == "0") && (n > 0 ==> s[0] != '0')
  }

  lemma CanonicalDigit(n: nat, base: nat)
    requires 2 <= base <= 16 && n < base
    ensures Canonical(DigitsOf(n, base), n, base)
  {
    var s := DigitsOf(n, base);
    assert s == [Digits[n]];
    assert Digits[..base][n] == Digits[n];
    DigitValueOfDigit(n);
    assert Digits[0] == '0';
    assert s == "0" <==> Digits[n] == '0';
  }

  lemma CanonicalStep(n: nat, base: nat)
    requires 2 <= base <= 16 && n >= base
    requires Canonical(DigitsOf(n / base, base), n / base, base)
    ensures Canonical(DigitsOf(n, base), n, base)
  {
    var q, r := n / base, n % base;
    var s := DigitsOf(q, base);
    assert DigitsOf(n, base) == s + [Digits[r]];
    assert Digits[..base][r] == Digits[r];
    DivModParts(n, base);
    assert q > 0;
  }

  /** A number below `base^k` has at most `k` digits. */
  lemma {:induction false} DigitsOfLength(n: nat, base: nat, k: nat)
    requires 2 <= base <= 16 && 1 <= k
    requires n < Pow(base, k)
    ensures |DigitsOf(n, base)| <= k
    decreases k
  {
    if n >= base {
      DropDigit(n, base, k);
      DigitsOfLength(n / base, base, k - 1);
    }
  }

  lemma DropDigit(n: nat, base: nat, k: nat)
    requires 2 <= base <= 16 && 1 <= k
    requires base <= n < Pow(base, k)
    ensures 2 <= k && n / base < Pow(base, k - 1)
  {
    assert n < base * Pow(base, k - 1);
    DivBelow(n, base, Pow(base, k - 1));
    if k == 1 {
      DivModParts(n, base);
    }
  }

  // ---------------------------------------------------------------------------
  // Arithmetic helpers

  lemma DivModParts(n: nat, b: nat)
    requires b > 0
    ensures n == (n / b) * b + n % b
  {
  }

  lemma DivUnique(x: int, c: int, q: int, s: int)
    requires c > 0 && 0 <= s < c && x == q * c + s
    ensures x / c == q && x % c == s
  {
    var q0, s0 := x / c, x % c;
    assert x == q0 * c + s0;
    if q0 < q {
      MulAtLeast(q - q0, c);
    } else if q0 > q {
      MulAtLeast(q0 - q, c);
    }
  }

  lemma MulAtLeast(a: int, c: int)
    requires a >= 1 && c > 0
    ensures a * c >= c
  {
  }

  lemma DivBelow(n: nat, c: nat, m: nat)
    requires c > 0 && n < c * m
    ensures n / c < m
  {
    assert n == (n / c) * c + n % c;
  }

  lemma DivAddMultiple(m: nat, c: nat, r: nat)
    requires c > 0
    ensures (m * c + r) / c == m + r / c
  {
    DivUnique(m * c + r, c, m + r / c, r % c);
  }

  lemma DivCancel(r: nat, c: nat)
    requires c > 0
    ensures (16 * r) / (16 * c) == r / c
  {
    DivUnique(16 * r, 16 * c, r / c, 16 * (r % c));
  }

  lemma MulAssoc(a: nat, b: nat, c: nat)
    ensures (a * b) * c == a * (b * c)
  {
  }

  lemma PowAdd(b: nat, i: nat, j: nat)
    ensures Pow(b, i) * Pow(b, j) == Pow(b, i + j)
    decreases i
  {
    if i > 0 {
      PowAdd(b, i - 1, j);
    }
  }

  lemma HexPowers()
    ensures Pow(16, 8) == TWO32
    ensures Pow(16, 15) == TWO60
    ensures Pow(16, 16) == TWO64
  {
    assert Pow(16, 7) == 0x1000_0000;
    PowAdd(16, 8, 7);
    PowAdd(16, 8, 8);
  }

  // ---------------------------------------------------------------------------
  // printint

  /** One turn of `printint`'s digit loop takes the last digit off the numeral. */
  lemma DigitsOfStep(n: nat, base: nat)
    requires base == 10 || base == 16
    ensures DigitsOf(n, base) == (if n / base == 0 then [] else DigitsOf(n / base, base)) + [Digits[n % base]]
  {
    if n < base {
      DivUnique(n, base, 0, n);
    } else {
      DivModParts(n, base);
      assert n / base != 0;
    }
  }

  /** Whether `printint` prints a minus sign: only for a signed negative value. */
  predicate Negative(xx: int32, sign: int)
  {
    sign != 0 && xx < 0
  }

  /** The unsigned 32-bit value `x` whose digits `printint` prints. */
  function Magnitude(xx: int32, sign: int): (x: nat)
    ensures x < TWO32
    ensures Negative(xx, sign) ==> x == -(xx as int)
    ensures !Negative(xx, sign) ==> x == (xx as int) % TWO32
  {
    if Negative(xx, sign) then -(xx as int)
    else if xx < 0 then xx as int + TWO32
    else xx as int
  }

  /** The text `printint(xx, base, sign)` writes. */
  function IntText(xx: int32, base: nat, sign: int): string
    requires base == 10 || base == 16
  {
    (if Negative(xx, sign) then "-" else "") + DigitsOf(Magnitude(xx, sign), base)
  }

  /** The digits of a 32-bit value take at most 10 slots in base 10 and 8 in base 16. */
  lemma DigitsFitBuffer(x: nat, base: nat)
    requires base == 10 || base == 16
    requires x < TWO32
    ensures |DigitsOf(x, base)| <= (if base == 10 then 10 else 8)
  {
    if base == 10 {
      assert Pow(10, 5) == 100000;
      PowAdd(10, 5, 5);
      DigitsOfLength(x, 10, 10);
    } else {
      HexPowers();
      DigitsOfLength(x, 16, 8);
    }
  }

  /**
   * What `printint` writes first: a minus sign exactly for a signed negative
   * value; and the whole text, sign included, fits the 16-slot buffer.
   */
  lemma IntTextSign(xx: int32, base: nat, sign: int)
    requires base == 10 || base == 16
    ensures 1 <= |IntText(xx, base, sign)| <= 11
    ensures IntText(xx, base, sign)[0] == '-' <==> Negative(xx, sign)
  {
    var x := Magnitude(xx, sign);
    var ds := DigitsOf(x, base);
    DigitsFitBuffer(x, base);
    assert 1 <= |ds| && ds[0] != '-' by {
      DigitsOfCanonical(x, base);
      assert ds[0] in Digits[..base];
    }
  }

  /**
   * The digits `printint` writes after any sign decode to the unsigned value
   * it prints, which for a signed call is the absolute value of `xx`; zero
   * prints as "0".
   */
  lemma IntTextDigits(xx: int32, base: nat, sign: int)
    requires base == 10 || base == 16
    ensures var t := IntText(xx, base, sign);
      var digits := t[if Negative(xx, sign) then 1 else 0..];
      && 1 <= |digits|
      && Value(digits, base) == Magnitude(xx, sign)
      && (sign != 0 ==> Value(digits, base) == if xx < 0 then -(xx as int) else xx as int)
      && (xx == 0 ==> t == "0")
  {
    var x := Magnitude(xx, sign);
    var ds := DigitsOf(x, base);
    var t := IntText(xx, base, sign);
    assert t[if Negative(xx, sign) then 1 else 0..] == ds;
    DigitsOfRoundTrip(x, base);
    DigitsOfCanonical(x, base);
  }

  /**
   * printint: fills `buf` least significant digit first in a do-while loop,
   * adds '-', then writes `buf` back to front.
   */
  method PrintInt(cons: Console, xx: int32, base: nat, sign: int)
    requires base == 10 || base == 16
    modifies cons
    ensures cons.out == old(cons.out) + IntText(xx, base, sign)
  {
    var buf := new char[16];
    var neg := Negative(xx, sign);
    var x := Magnitude(xx, sign);
    DigitsFitBuffer(x, base);
    var i := FillDigits(buf, x, base);
    if neg {
      buf[i] := '-';
      assert buf[..i + 1] == buf[..i] + ['-'];
      RevSnoc(buf[..i], '-');
      i := i + 1;
    }
    EmitReversed(cons, buf, i);
  }

  /** `printint`'s digit loop: stores the numeral of `x`, least significant digit first. */
  method FillDigits(buf: array<char>, x: nat, base: nat) returns (i: nat)
    requires base == 10 || base == 16
    requires |DigitsOf(x, base)| < buf.Length
    modifies buf
    ensures i == |DigitsOf(x, base)| && i < buf.Length
    ensures Rev(buf[..i]) == DigitsOf(x, base)
  {
    var y: nat := x;
    i := 0;
    ghost var done: string := [];
    while i == 0 || y != 0
      invariant i == 0 ==> y == x
      invariant i <= |DigitsOf(x, base)|
      invariant done == Rev(buf[..i]) && |done| == i
      invariant DigitsOf(x, base) == (if i > 0 && y == 0 then [] else DigitsOf(y, base)) + done
      decreases y, if i == 0 then 1 else 0
    {
      var d := Digits[y % base];
      DigitLoopStep(x, y, base, i, done);
      buf[i] := d;
      assert buf[..i + 1] == buf[..i] + [d];
      RevSnoc(buf[..i], d);
      done := [d] + done;
      i := i + 1;
      y := y / base;
    }
  }

  /** One turn of the digit loop keeps the digits still to be stored in front of those stored. */
  lemma DigitLoopStep(x: nat, y: nat, base: nat, i: nat, done: string)
    requires base == 10 || base == 16
    requires i == 0 || y != 0
    requires DigitsOf(x, base) == (if i > 0 && y == 0 then [] else DigitsOf(y, base)) + done
    ensures DigitsOf(x, base) == (if y / base == 0 then [] else DigitsOf(y / base, base)) + ([Digits[y % base]] + done)
    ensures i > 0 ==> y / base < y
  {
    DigitsOfStep(y, base);
    Regroup(DigitsOf(x, base), DigitsOf(y, base), if y / base == 0 then [] else DigitsOf(y / base, base), Digits[y % base], done);
    if i > 0 {
      QuotientShrinks(y, base);
    }
  }

  /** Moving one element from the end of the front part to the start of the back part. */
  lemma Regroup<T>(whole: seq<T>, front: seq<T>, rest: seq<T>, d: T, done: seq<T>)
    requires whole == front + done && front == rest + [d]
    ensures whole == rest + ([d] + done)
  {
  }

  /** Dividing a positive value by the base makes it smaller: `printint`'s loop ends. */
  lemma QuotientShrinks(y: nat, base: nat)
    requires base == 10 || base == 16
    requires y > 0
    ensures y / base < y
  {
    if base == 10 {
      assert y / 10 < y;
    } else {
      assert y / 16 < y;
    }
  }

  /** `printint`'s output loop: writes `buf[..n]` from its last character to its first. */
  method EmitReversed(cons: Console, buf: array<char>, n: nat)
    requires n <= buf.Length
    modifies cons
    ensures cons.out == old(cons.out) + Rev(buf[..n])
  {
    var i := n;
    while i > 0
      invariant 0 <= i <= n
      invariant cons.out == old(cons.out) + Rev(buf[i..n])
    {
      i := i - 1;
      assert buf[i..n][1..] == buf[i + 1..n];
      cons.Putc(buf[i]);
    }
    assert buf[0..n] == buf[..n];
  }

  // ---------------------------------------------------------------------------
  // printptr

  /** 2^60: `x >> 60` on a 64-bit word is division by this. */
  const TWO60: nat := 0x1000_0000_0000_0000

  /**
   * The `n` hex digits `printptr` reads off the top nibble of the 64-bit word
   * `y` while shifting it left by 4 bits at a time.
   */
  function HexFrom(y: nat, n: nat): string
    requires y < TWO64
    decreases n
  {
    if n == 0 then [] else [Digits[y / TWO60]] + HexFrom((y * 16) % TWO64, n - 1)
  }

  /** Hex digits in a 64-bit word: `sizeof(uint64) * 2`. */
  const HexWidth: nat := 16

  /** The text `printptr(x)` writes. */
  function PtrText(x: nat): string
    requires x < TWO64
  {
    "0x" + HexFrom(x, HexWidth)
  }

  lemma {:induction false} ValueFront(c: char, s: string, base: nat)
    ensures Value([c] + s, base) == DigitValue(c) * Pow(base, |s|) + Value(s, base)
    decreases |s|
  {
    if s == [] {
      assert [c] + s == [] + [c];
      ValueSnoc([], c, base);
    } else {
      var init, last := s[..|s| - 1], s[|s| - 1];
      assert [c] + s == ([c] + init) + [last];
      assert s == init + [last];
      ValueSnoc([c] + init, last, base);
      ValueSnoc(init, last, base);
      ValueFront(c, init, base);
      Distribute(DigitValue(c), Pow(base, |init|), Value(init, base), base);
    }
  }

  lemma Distribute(a: nat, p: nat, v: nat, b: nat)
    ensures (a * p + v) * b == a * (b * p) + v * b
  {
  }

  /** The first `n` digits read from `y` denote `y`'s top `n` nibbles. */
  lemma {:induction false} HexFromValue(y: nat, n: nat)
    requires y < TWO64 && n <= 16
    ensures Value(HexFrom(y, n), 16) == y / Pow(16, 16 - n)
    decreases n
  {
    if n == 0 {
      HexPowers();
    } else {
      var d, y' := y / TWO60, (y * 16) % TWO64;
      assert HexFrom(y, n) == [Digits[d]] + HexFrom(y', n - 1);
      HexFromDigits(y', n - 1);
      DigitValueOfDigit(d);
      ValueFront(Digits[d], HexFrom(y', n - 1), 16);
      HexFromValue(y', n - 1);
      ShiftedDiv(y, n);
      TopSplit(y, n);
    }
  }

  /** Shifting left by a nibble and dividing by 16 more is dropping the top nibble. */
  lemma ShiftedDiv(y: nat, n: nat)
    requires y < TWO64 && 1 <= n <= 16
    ensures ((y * 16) % TWO64) / Pow(16, 17 - n) == (y % TWO60) / Pow(16, 16 - n)
  {
    var c := Pow(16, 16 - n);
    assert Pow(16, 17 - n) == 16 * c;
    assert (y * 16) % TWO64 == 16 * (y % TWO60);
    DivCancel(y % TWO60, c);
  }

  /** Splitting off the top nibble `y / 2^60` of a 64-bit word. */
  lemma TopSplit(y: nat, n: nat)
    requires y < TWO64 && 1 <= n <= 16
    ensures y / Pow(16, 16 - n) == (y / TWO60) * Pow(16, n - 1) + (y % TWO60) / Pow(16, 16 - n)
  {
    var d, r := y / TWO60, y % TWO60;
    var c, m := Pow(16, 16 - n), Pow(16, n - 1);
    Pow15Split(n);
    ScaleProduct(d, m, c, TWO60);
    assert y == (d * m) * c + r;
    DivAddMultiple(d * m, c, r);
  }

  lemma Pow15Split(n: nat)
    requires 1 <= n <= 16
    ensures Pow(16, n - 1) * Pow(16, 16 - n) == TWO60
  {
    PowAdd(16, n - 1, 16 - n);
    HexPowers();
  }

  lemma ScaleProduct(d: nat, m: nat, c: nat, t: nat)
    requires m * c == t
    ensures (d * m) * c == d * t
  {
    MulAssoc(d, m, c);
  }

  /**
   * What `printptr` promises: exactly 18 characters, "0x" then 16 lowercase
   * hex digits, most significant nibble first, which decode to `x`.
   */
  lemma PtrTextMeaning(x: nat)
    requires x < TWO64
    ensures |PtrText(x)| == 18
    ensures PtrText(x)[..2] == "0x"
    ensures forall k :: 2 <= k < 18 ==> PtrText(x)[k] in Digits
    ensures Value(PtrText(x)[2..], 16) == x
  {
    PtrTextShape(x);
    PtrTextValue(x);
  }

  lemma PtrTextShape(x: nat)
    requires x < TWO64
    ensures |PtrText(x)| == 18
    ensures PtrText(x)[..2] == "0x"
    ensures forall k :: 2 <= k < 18 ==> PtrText(x)[k] in Digits
  {
    var h := HexFrom(x, HexWidth);
    HexFromDigits(x, HexWidth);
    assert PtrText(x) == "0x" + h;
    forall k | 2 <= k < 18
      ensures PtrText(x)[k] in Digits
    {
      assert PtrText(x)[k] == h[k - 2];
    }
  }

  lemma PtrTextValue(x: nat)
    requires x < TWO64
    ensures Value(PtrText(x)[2..], 16) == x
  {
    assert PtrText(x)[2..] == HexFrom(x, HexWidth);
    HexFromFull(x, HexWidth);
  }

  /** All sixteen nibbles decode to the whole value. */
  lemma HexFromFull(y: nat, n: nat)
    requires y < TWO64 && n == 16
    ensures Value(HexFrom(y, n), 16) == y
  {
    HexFromValue(y, n);
    DivByOne(y, Pow(16, 16 - n));
  }

  lemma DivByOne(y: nat, p: nat)
    requires p == Pow(16, 0)
    ensures y / p == y
  {
  }

  /** Writing the first character still owed keeps the output on course for `target`. */
  lemma MoveFront<T>(o: seq<T>, d: T, rest: seq<T>, target: seq<T>)
    requires o + ([d] + rest) == target
    ensures (o + [d]) + rest == target
  {
  }

  /** One turn of `printptr`'s loop: the top nibble's digit, then the rest of the shifted value. */
  lemma HexFromStep(y: nat, n: nat)
    requires y < TWO64 && n > 0
    ensures y / TWO60 < 16 && (y * 16) % TWO64 < TWO64
    ensures HexFrom(y, n) == [Digits[y / TWO60]] + HexFrom((y * 16) % TWO64, n - 1)
  {
  }

  lemma {:induction false} HexFromDigits(y: nat, n: nat)
    requires y < TWO64
    ensures |HexFrom(y, n)| == n
    ensures forall k :: 0 <= k < n ==> HexFrom(y, n)[k] in Digits
    decreases n
  {
    if n > 0 {
      HexFromDigits((y * 16) % TWO64, n - 1);
    }
  }

  /** printptr: "0x", then the 16 nibbles of `x`. */
  method PrintPtr(cons: Console, x: nat)
    requires x < TWO64
    modifies cons
    ensures cons.out == old(cons.out) + PtrText(x)
  {
    ghost var o := cons.out;
    cons.Putc('0');
    cons.Putc('x');
    PrintNibbles(cons, x, HexWidth);
    PrefixThenRest(o, '0', 'x', HexFrom(x, HexWidth));
  }

  lemma PrefixThenRest(o: string, a: char, b: char, rest: string)
    ensures o + [a] + [b] + rest == o + ([a, b] + rest)
  {
  }

  /** printptr's loop: the top nibble `n` times while shifting `x` left by 4. */
  method PrintNibbles(cons: Console, x: nat, n: nat)
    requires x < TWO64
    modifies cons
    ensures cons.out == old(cons.out) + HexFrom(x, n)
  {
    ghost var target := old(cons.out) + HexFrom(x, n);
    var i: nat := 0;
    var y: nat := x;
    while i < n
      invariant i <= n && y < TWO64
      invariant cons.out + HexFrom(y, n - i) == target
    {
      HexFromStep(y, n - i);
      var d := Digits[y / TWO60];
      var y' := (y * 16) % TWO64;
      ghost var o := cons.out;
      cons.Putc(d);
      MoveFront(o, d, HexFrom(y', n - (i + 1)), target);
      i, y := i + 1, y';
    }
  }

  // ---------------------------------------------------------------------------
  // printf

  /** A variadic argument, by the type `printf` reads it as. */
  datatype Arg = IntArg(v: int32) | PtrArg(p: nat) | StrArg(s: Option<string>)

  /** The byte at index `i` of a NUL-terminated string: NUL from `|s|` on. */
  function At(s: string, i: nat): char
  {
    if i < |s| then s[i] else '\0'
  }

  /** The characters of a C string up to its terminating NUL. */
  function UntilNul(s: string): string
  {
    if s == [] || s[0] == '\0' then [] else [s[0]] + UntilNul(s[1..])
  }

  /** A string without NUL is its own C string. */
  lemma {:induction false} UntilNulNoNul(s: string)
    requires forall k :: 0 <= k < |s| ==> s[k] != '\0'
    ensures UntilNul(s) == s
  {
    if s != [] {
      UntilNulNoNul(s[1..]);
    }
  }

  /** Directives that consume one argument. */
  predicate Consumes(c: char)
  {
    c == 'd' || c == 'x' || c == 'p' || c == 's'
  }

  /** The argument a consuming directive reads has the type it reads. */
  predicate Fits(c: char, a: Arg)
  {
    match c
    case 'd' => a.IntArg?
    case 'x' => a.IntArg?
    case 'p' => a.PtrArg? && a.p < TWO64
    case _ => a.StrArg?
  }

  /**
   * What `printf` demands of its caller: one argument of the right type for
   * every consuming directive of `fmt` from index `i` on.
   */
  predicate ArgsOk(fmt: string, i: nat, args: seq<Arg>)
    decreases |fmt| - i
  {
    if At(fmt, i) == '\0' then true
    else if fmt[i] != '%' then ArgsOk(fmt, i + 1, args)
    else if At(fmt, i + 1) == '\0' then true
    else if Consumes(fmt[i + 1]) then
      |args| > 0 && Fits(fmt[i + 1], args[0]) && ArgsOk(fmt, i + 2, args[1..])
    else ArgsOk(fmt, i + 2, args)
  }

  /** The text one consuming directive writes for its argument. */
  function DirectiveText(c: char, a: Arg): string
    requires Consumes(c) && Fits(c, a)
  {
    match c
    case 'd' => IntText(a.v, 10, 1)
    case 'x' => IntText(a.v, 16, 1)
    case 'p' => PtrText(a.p)
    case _ => if a.s.None? then "(null)" else UntilNul(a.s.value)
  }

  /** The text `printf` writes for `fmt` from index `i` on, with `args` left. */
  function Render(fmt: string, i: nat, args: seq<Arg>): string
    requires ArgsOk(fmt, i, args)
    decreases |fmt| - i
  {
    if At(fmt, i) == '\0' then []
    else if fmt[i] != '%' then [fmt[i]] + Render(fmt, i + 1, args)
    else if At(fmt, i + 1) == '\0' then []
    else if Consumes(fmt[i + 1]) then
      DirectiveText(fmt[i + 1], args[0]) + Render(fmt, i + 2, args[1..])
    else if fmt[i + 1] == '%' then "%" + Render(fmt, i + 2, args)
    else ['%', fmt[i + 1]] + Render(fmt, i + 2, args)
  }

  /** Text without '%' or NUL is copied unchanged, in order. */
  lemma {:induction false} PlainTextCopied(fmt: string, i: nat, args: seq<Arg>)
    requires i <= |fmt|
    requires forall k :: i <= k < |fmt| ==> fmt[k] != '%' && fmt[k] != '\0'
    ensures ArgsOk(fmt, i, args) && Render(fmt, i, args) == fmt[i..]
    decreases |fmt| - i
  {
    if i < |fmt| {
      PlainTextCopied(fmt, i + 1, args);
      assert fmt[i..] == [fmt[i]] + fmt[i + 1..];
    }
  }

  /**
   * The directives that take no argument: `%%` writes one '%', an unknown
   * `%c` writes '%' and `c`, and a '%' that ends the format writes nothing
   * and stops.
   */
  lemma PercentDirectives(fmt: string, i: nat, args: seq<Arg>)
    requires i < |fmt| && fmt[i] == '%'
    requires ArgsOk(fmt, i, args)
    ensures At(fmt, i + 1) == '\0' ==> Render(fmt, i, args) == []
    ensures At(fmt, i + 1) == '%' ==> Render(fmt, i, args) == "%" + Render(fmt, i + 2, args)
    ensures At(fmt, i + 1) != '\0' && !Consumes(fmt[i + 1]) && fmt[i + 1] != '%' ==>
      Render(fmt, i, args) == ['%', fmt[i + 1]] + Render(fmt, i + 2, args)
  {
  }

  /** `%s` with a null argument writes "(null)". */
  lemma NullString(fmt: string, i: nat, args: seq<Arg>)
    requires i + 1 < |fmt| && fmt[i] == '%' && fmt[i + 1] == 's'
    requires ArgsOk(fmt, i, args)
    requires args[0].s.None?
    ensures Render(fmt, i, args) == "(null)" + Render(fmt, i + 2, args[1..])
  {
  }

  /** `%x` is signed: a negative value prints as '-' and the hex digits of its magnitude. */
  lemma NegativeHex(fmt: string, i: nat, args: seq<Arg>)
    requires i + 1 < |fmt| && fmt[i] == '%' && fmt[i + 1] == 'x'
    requires ArgsOk(fmt, i, args)
    requires args[0].v < 0
    ensures Render(fmt, i, args) == "-" + DigitsOf(-(args[0].v as int), 16) + Render(fmt, i + 2, args[1..])
  {
  }

  /** panic: writes "panic: ", the message and a newline, then halts. */
  method Panic(cons: Console, s: string)
    requires ArgsOk(s, 0, [])
    modifies cons
    ensures cons.out == old(cons.out) + "panic: " + Render(s, 0, []) + "\n"
    decreases 1
  {
    var _ := Printf(cons, Some("panic: "), []);
    var _ := Printf(cons, Some(s), []);
    var _ := Printf(cons, Some("\n"), []);
  }

  /** printf: walks `fmt` with index `i`; a null `fmt` panics. */
  method Printf(cons: Console, fmt: Option<string>, args: seq<Arg>) returns (st: Status)
    requires fmt.Some? ==> ArgsOk(fmt.value, 0, args)
    modifies cons
    ensures fmt.None? ==> st == Panicked("null fmt") && cons.out == old(cons.out) + "panic: null fmt\n"
    ensures fmt.Some? ==> st == Ok && cons.out == old(cons.out) + Render(fmt.value, 0, args)
    decreases if fmt.None? then 2 else 0
  {
    if fmt.None? {
      PlainTextCopied("null fmt", 0, []);
      Panic(cons, "null fmt");
      return Panicked("null fmt");
    }
    var f := fmt.value;
    var i, rest := 0, args;
    while At(f, i) != '\0'
      invariant 0 <= i <= |f|
      invariant ArgsOk(f, i, rest)
      invariant cons.out + Render(f, i, rest) == old(cons.out) + Render(f, 0, args)
      decreases |f| - i
    {
      if f[i] != '%' {
        ghost var o := cons.out;
        cons.Putc(f[i]);
        MoveFront(o, f[i], Render(f, i + 1, rest), old(cons.out) + Render(f, 0, args));
        i := i + 1;
      } else if At(f, i + 1) == '\0' {
        break;
      } else {
        rest := PrintPercent(cons, f, i, rest);
        i := i + 2;
      }
    }
    st := Ok;
  }

  /** One `%` directive of `printf`'s switch, with `args` the arguments not yet read. */
  method PrintPercent(cons: Console, f: string, i: nat, args: seq<Arg>) returns (rest: seq<Arg>)
    requires i + 1 < |f| && f[i] == '%' && f[i + 1] != '\0'
    requires ArgsOk(f, i, args)
    modifies cons
    ensures ArgsOk(f, i + 2, rest)
    ensures cons.out + Render(f, i + 2, rest) == old(cons.out) + Render(f, i, args)
  {
    var c := f[i + 1];
    ghost var o := cons.out;
    ghost var text: string;
    if Consumes(c) {
      text := DirectiveText(c, args[0]);
      PrintDirective(cons, c, args[0]);
      rest := args[1..];
    } else if c == '%' {
      text := "%";
      cons.Putc('%');
      rest := args;
    } else {
      text := ['%', c];
      cons.Putc('%');
      cons.Putc(c);
      rest := args;
    }
    RenderPercent(f, i, args, text, rest);
    Regroup3(o, text, Render(f, i + 2, rest));
  }

  /** The text of one `%` directive, and the arguments it leaves. */
  lemma RenderPercent(f: string, i: nat, args: seq<Arg>, text: string, rest: seq<Arg>)
    requires i + 1 < |f| && f[i] == '%' && f[i + 1] != '\0'
    requires ArgsOk(f, i, args)
    requires Consumes(f[i + 1]) ==> |args| > 0 && text == DirectiveText(f[i + 1], args[0]) && rest == args[1..]
    requires !Consumes(f[i + 1]) ==> rest == args && text == (if f[i + 1] == '%' then "%" else ['%', f[i + 1]])
    ensures ArgsOk(f, i + 2, rest)
    ensures Render(f, i, args) == text + Render(f, i + 2, rest)
  {
  }

  lemma Regroup3<T>(o: seq<T>, a: seq<T>, b: seq<T>)
    ensures (o + a) + b == o + (a + b)
  {
  }

  /** One argument-consuming directive of `printf`'s switch. */
  method PrintDirective(cons: Console, c: char, a: Arg)
    requires Consumes(c) && Fits(c, a)
    modifies cons
    ensures cons.out == old(cons.out) + DirectiveText(c, a)
  {
    if c == 'd' {
      PrintInt(cons, a.v, 10, 1);
    } else if c == 'x' {
      PrintInt(cons, a.v, 16, 1);
    } else if c == 'p' {
      PrintPtr(cons, a.p);
    } else {
      var s := if a.s.None? then "(null)" else a.s.value;
      PrintStr(cons, s);
      UntilNulNoNul("(null)");
    }
  }
  /** The `%s` loop: writes the characters of `s` up to its NUL. */
  method PrintStr(cons: Console, s: string)
    modifies cons
    ensures cons.out == old(cons.out) + UntilNul(s)
  {
    var j := 0;
    while At(s, j) != '\0'
      invariant 0 <= j <= |s|
      decreases |s| - j
      invariant cons.out + UntilNul(s[j..]) == old(cons.out) + UntilNul(s)
    {
      assert s[j..][1..] == s[j + 1..];
      cons.Putc(s[j]);
      j := j + 1;
    }
  }
}
