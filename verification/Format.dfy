/**
 * The integer conversions of the trace formatter: sign, padding and digits, the digits taken
 * from the top with a power of the base that has to fit 32 bits.
 */
module Format {
  import opened Mul
  import opened Division
  import opened Numerals

  const UINT := 0x1_0000_0000

  datatype Flags = Flags(left: bool, zero: bool, plus: bool)

  // ---------------------------------------------------------------- digits

  /** `k` digits of a number, from the last one up. */
  ghost function Fixed(b: nat, v: nat, k: nat): (s: string)
    requires 2 <= b <= 16
    ensures |s| == k
  {
    QuoRem(v, b);
    if k == 0 then [] else Fixed(b, Quo(v, b), k - 1) + [DigitChar(Rem(v, b))]
  }

  /** How many digits a number has; zero has one. */
  ghost function Width(b: nat, v: nat): (k: nat)
    requires 2 <= b <= 16
    ensures k >= 1
    decreases v
  {
    QuoRem(v, b);
    if v < b then 1 else Width(b, Quo(v, b)) + 1
  }

  /** The weight of the place with `k` places behind it. */
  ghost function Place(b: nat, k: nat): (r: nat)
    requires b > 0
    ensures r > 0
  {
    if k == 0 then 1
    else
      MulPos(b, Place(b, k - 1));
      b * Place(b, k - 1)
  }

  /** Taking digits from the top: the first one, and the others of what is left. */
  lemma {:induction false} TopDigit(b: nat, v: nat, k: nat)
    requires 2 <= b <= 16 && k >= 1 && v < Place(b, k)
    ensures Quo(v, Place(b, k - 1)) < b
    ensures Fixed(b, v, k) == [DigitChar(Quo(v, Place(b, k - 1)))] + Fixed(b, Rem(v, Place(b, k - 1)), k - 1)
    decreases k
  {
    QuoRem(v, b);
    if k == 1 {
      TopOne(b, v);
    } else {
      BelowQuotient(b, v, Place(b, k - 1));
      TopDigit(b, Quo(v, b), k - 1);
      TwoSplits(b, v, Place(b, k - 2));
    }
  }

  lemma TopOne(b: nat, v: nat)
    requires 2 <= b <= 16 && v < b
    ensures Place(b, 0) == 1 && Place(b, 1) == b && Quo(v, 1) == v && Rem(v, 1) == 0
    ensures Fixed(b, v, 1) == [DigitChar(v)] + Fixed(b, 0, 0)
  {
    DivUnique(v, 1, v, 0);
    DivUnique(v, b, 0, v);
    assert Fixed(b, v, 1) == Fixed(b, Quo(v, b), 0) + [DigitChar(Rem(v, b))];
  }

  lemma BelowQuotient(b: nat, v: nat, w: nat)
    requires b > 0 && v < b * w
    ensures Quo(v, b) < w
  {
    DivDef(v, b);
    if Quo(v, b) >= w {
      MulLe(w, Quo(v, b), b);
    }
  }

  /** Splitting off the top digit and the last digit can be done in either order. */
  lemma TwoSplits(b: nat, v: nat, w: nat)
    requires b > 0 && w > 0
    ensures Quo(v, b * w) == Quo(Quo(v, b), w)
    ensures Quo(Rem(v, b * w), b) == Rem(Quo(v, b), w)
    ensures Rem(Rem(v, b * w), b) == Rem(v, b)
  {
    var q, t := v / b, v % b;
    var p, s := q / w, q % w;
    DivDef(v, b);
    DivDef(q, w);
    MulAdd(p * w, s, b);
    MulAssoc(p, w, b);
    MulPos(b, w);
    MulLe(s, w - 1, b);
    MulSub(w, 1, b);
    MulNonNeg(s, b);
    DivUnique(v, b * w, p, s * b + t);
    DivUnique(s * b + t, b, s, t);
  }

  lemma {:induction false} WidthBounds(b: nat, v: nat)
    requires 2 <= b <= 16
    ensures v < Place(b, Width(b, v))
    ensures Width(b, v) > 1 ==> Place(b, Width(b, v) - 1) <= v
    decreases v
  {
    QuoRem(v, b);
    if v < b {
      TopOne(b, v);
    } else {
      var q := Quo(v, b);
      WidthBounds(b, q);
      var k := Width(b, q);
      MulLe(q + 1, Place(b, k), b);
      MulAdd(q, 1, b);
      if k > 1 {
        MulLe(Place(b, k - 1), q, b);
      } else {
        TopOne(b, 0);
      }
    }
  }

  lemma {:induction false} PlaceMonotone(b: nat, i: nat, j: nat)
    requires b >= 1 && i <= j
    ensures Place(b, i) <= Place(b, j)
    decreases j
  {
    if i < j {
      PlaceMonotone(b, i, j - 1);
      MulLe(1, b, Place(b, j - 1));
    }
  }

  /** The numeral of a number has the number's width. */
  lemma {:induction false} NumeralIsFixed(b: nat, v: nat)
    requires 2 <= b <= 16
    ensures Numeral(b, v) == Fixed(b, v, Width(b, v))
    decreases v
  {
    QuoRem(v, b);
    if v < b {
      TopOne(b, v);
      DivUnique(v, b, 0, v);
    } else {
      NumeralIsFixed(b, Quo(v, b));
      if Quo(v, b) == 0 {
        assert false;
      }
    }
  }

  /** Enough digits denote the number. */
  lemma {:induction false} FixedDenotes(b: nat, v: nat, k: nat)
    requires 2 <= b <= 16 && v < Place(b, k)
    ensures Digits(b, Fixed(b, v, k)) && NumeralValue(b, Fixed(b, v, k)) == v
    decreases k
  {
    QuoRem(v, b);
    if k > 0 {
      BelowQuotient(b, v, Place(b, k - 1));
      FixedDenotes(b, Quo(v, b), k - 1);
      DigitsMore(b, Fixed(b, Quo(v, b), k - 1), DigitChar(Rem(v, b)));
    }
  }

  // ---------------------------------------------------------------- the texts

  function Max(x: nat, y: nat): nat {
    if x > y then x else y
  }

  function Repeat(c: char, n: nat): (s: string)
    ensures |s| == n
  {
    seq(n, i => c)
  }

  ghost function Missing(width: nat, n: nat): nat {
    if width > n then width - n else 0
  }

  /** How many digits are printed: the number's own, or as many as the precision asks for. */
  ghost function Shown(b: nat, v: nat, numDigits: nat): (n: nat)
    requires 2 <= b <= 16
    ensures n >= 1 && n >= Width(b, v) && n >= numDigits
  {
    Max(numDigits, Width(b, v))
  }

  ghost function UnsignedText(b: nat, v: nat, numDigits: nat, width: nat, flags: Flags): string
    requires 2 <= b <= 16
  {
    var n := Shown(b, v, numDigits);
    var digits, pad := Fixed(b, v, n), Missing(width, n);
    if flags.left then digits + Repeat(' ', pad)
    else Repeat(if flags.zero && numDigits == 0 then '0' else ' ', pad) + digits
  }

  ghost function Abs(v: int): nat {
    if v < 0 then 0 - v else v
  }

  ghost function SignText(v: int, flags: Flags): string {
    if v < 0 then "-" else if flags.plus then "+" else ""
  }

  /** Sign, digits and padding in the order the flags ask for. */
  ghost function Layout(sign: string, digits: string, pad: nat, flags: Flags, numDigits: nat): string {
    if flags.left then sign + digits + Repeat(' ', pad)
    else if flags.zero && numDigits == 0 then sign + Repeat('0', pad) + digits
    else Repeat(' ', pad) + sign + digits
  }

  ghost function IntText(b: nat, v: int, numDigits: nat, width: nat, flags: Flags): string
    requires 2 <= b <= 16
  {
    var sign := SignText(v, flags);
    var n := Shown(b, Abs(v), numDigits);
    Layout(sign, Fixed(b, Abs(v), n), Missing(width, |sign| + n), flags, numDigits)
  }

  /** What is printed is as wide as asked for, or as wide as sign and digits need. */
  lemma IntTextLength(b: nat, v: int, numDigits: nat, width: nat, flags: Flags)
    requires 2 <= b <= 16
    ensures var n := (if v < 0 || flags.plus then 1 else 0) + Shown(b, if v < 0 then -v else v, numDigits);
            |IntText(b, v, numDigits, width, flags)| == if width > n then width else n
  {
  }

  lemma UnsignedTextLength(b: nat, v: nat, numDigits: nat, width: nat, flags: Flags)
    requires 2 <= b <= 16
    ensures var n := Shown(b, v, numDigits);
            |UnsignedText(b, v, numDigits, width, flags)| == if width > n then width else n
  {
  }

  /** As many digits as the precision asks for, or as few as the number needs: without a leading zero. */
  lemma ShownIs(b: nat, v: nat, numDigits: nat)
    requires 2 <= b <= 16
    ensures var n := Shown(b, v, numDigits);
            && v < Place(b, n)
            && (n > numDigits && n > 1 ==> Place(b, n - 1) <= v)
            && (n > numDigits || n == numDigits)
  {
    ShownDenotes(b, v, numDigits);
    WidthBounds(b, v);
  }

  /** Zeros in front do not change what a numeral denotes. */
  lemma {:induction false} ZerosInFront(b: nat, z: nat, s: string)
    requires 2 <= b <= 16 && Digits(b, s)
    ensures Digits(b, Repeat('0', z) + s) && NumeralValue(b, Repeat('0', z) + s) == NumeralValue(b, s)
    decreases |s|, z
  {
    var r := Repeat('0', z) + s;
    if s != [] {
      var t := s[..|s| - 1];
      ZerosInFront(b, z, t);
      assert r[..|r| - 1] == Repeat('0', z) + t;
    } else if z > 0 {
      ZerosInFront(b, z - 1, s);
      assert r[..|r| - 1] == Repeat('0', z - 1) + s;
    }
  }

  ghost predicate ReadsAs(b: nat, text: string, sign: string, v: nat, before: nat, digits: string, behind: nat) {
    && text == Repeat(' ', before) + sign + digits + Repeat(' ', behind)
    && Digits(b, digits) && NumeralValue(b, digits) == v
  }

  lemma PlainReads(b: nat, sign: string, digits: string, v: nat, before: nat)
    requires Digits(b, digits) && NumeralValue(b, digits) == v
    ensures ReadsAs(b, Repeat(' ', before) + sign + digits, sign, v, before, digits, 0)
  {
    assert Repeat(' ', before) + sign + digits + Repeat(' ', 0) == Repeat(' ', before) + sign + digits;
  }

  lemma LeftReads(b: nat, sign: string, digits: string, v: nat, behind: nat)
    requires Digits(b, digits) && NumeralValue(b, digits) == v
    ensures ReadsAs(b, sign + digits + Repeat(' ', behind), sign, v, 0, digits, behind)
  {
    assert Repeat(' ', 0) + sign + digits + Repeat(' ', behind) == sign + digits + Repeat(' ', behind);
  }

  lemma ZeroReads(b: nat, sign: string, digits: string, v: nat, z: nat)
    requires 2 <= b <= 16 && Digits(b, digits) && NumeralValue(b, digits) == v
    ensures ReadsAs(b, sign + Repeat('0', z) + digits, sign, v, 0, Repeat('0', z) + digits, 0)
  {
    ZerosInFront(b, z, digits);
    assert sign + Repeat('0', z) + digits == Repeat(' ', 0) + sign + (Repeat('0', z) + digits) + Repeat(' ', 0);
  }

  lemma ShownDenotes(b: nat, v: nat, numDigits: nat)
    requires 2 <= b <= 16
    ensures v < Place(b, Shown(b, v, numDigits))
    ensures var digits := Fixed(b, v, Shown(b, v, numDigits)); Digits(b, digits) && NumeralValue(b, digits) == v
  {
    var n := Shown(b, v, numDigits);
    WidthBounds(b, v);
    PlaceMonotone(b, Width(b, v), n);
    FixedDenotes(b, v, n);
  }

  lemma LayoutReads(b: nat, sign: string, digits: string, v: nat, pad: nat, flags: Flags, numDigits: nat)
    returns (before: nat, all: string, behind: nat)
    requires 2 <= b <= 16 && Digits(b, digits) && NumeralValue(b, digits) == v
    ensures ReadsAs(b, Layout(sign, digits, pad, flags, numDigits), sign, v, before, all, behind)
    ensures |all| >= |digits| && (if flags.left then before == 0 else behind == 0)
    ensures if flags.zero && numDigits == 0 && !flags.left then before == 0 else |all| == |digits|
  {
    before, all, behind := 0, digits, 0;
    if flags.left {
      LeftReads(b, sign, digits, v, pad);
      behind := pad;
    } else if flags.zero && numDigits == 0 {
      ZeroReads(b, sign, digits, v, pad);
      all := Repeat('0', pad) + digits;
    } else {
      PlainReads(b, sign, digits, v, pad);
      before := pad;
    }
  }

  /** The text is spaces, the sign and a run of digits that denotes the magnitude, and spaces. */
  lemma IntTextReadsBack(b: nat, v: int, numDigits: nat, width: nat, flags: Flags)
    returns (before: nat, digits: string, behind: nat)
    requires 2 <= b <= 16
    ensures ReadsAs(b, IntText(b, v, numDigits, width, flags), SignText(v, flags), Abs(v), before, digits, behind)
    ensures digits != [] && (if flags.left then before == 0 else behind == 0)
    ensures if flags.zero && numDigits == 0 && !flags.left then before == 0
            else |digits| == Shown(b, Abs(v), numDigits)
  {
    var sign := SignText(v, flags);
    var n := Shown(b, Abs(v), numDigits);
    var text := IntText(b, v, numDigits, width, flags);
    assert text == Layout(sign, Fixed(b, Abs(v), n), Missing(width, |sign| + n), flags, numDigits);
    ShownDenotes(b, Abs(v), numDigits);
    before, digits, behind :=
      LayoutReads(b, sign, Fixed(b, Abs(v), n), Abs(v), Missing(width, |sign| + n), flags, numDigits);
  }

  /** The text of a run is `before` spaces, `body`, and `behind` spaces. */
  ghost predicate Centred(text: string, before: nat, body: string, behind: nat) {
    && |text| == before + |body| + behind
    && text[before..before + |body|] == body
    && (forall k :: 0 <= k < before || |text| - behind <= k < |text| ==> text[k] == ' ')
  }

  lemma SpacesAround(before: nat, body: string, behind: nat)
    ensures Centred(Repeat(' ', before) + body + Repeat(' ', behind), before, body, behind)
  {
    var text := Repeat(' ', before) + body + Repeat(' ', behind);
    assert text[before..before + |body|] == body;
  }

  lemma FirstDigitNoSign(b: nat, digits: string)
    requires b <= 16 && Digits(b, digits) && digits != []
    ensures digits[0] != '-' && digits[0] != '+'
  {
    assert DigitOf(digits[0]) < b;
  }

  /** A sign and digits read as a number. */
  lemma SignedText(b: nat, v: int, digits: string, flags: Flags)
    requires 2 <= b <= 16 && Digits(b, digits) && digits != [] && NumeralValue(b, digits) == Abs(v)
    ensures var body := SignText(v, flags) + digits;
            && (body[0] == '-' <==> v < 0)
            && (body[0] == '+' <==> v >= 0 && flags.plus)
            && var rest := if body[0] == '+' then body[1..] else body;
               WellFormed(b, rest) && TextValue(b, rest) == v
  {
    FirstDigitNoSign(b, digits);
    var body := SignText(v, flags) + digits;
    if v < 0 {
      assert body[1..] == digits;
    } else if flags.plus {
      assert body[1..] == digits;
    } else {
      assert body == digits;
    }
  }

  lemma Regrouped(s: string, t: string, u: string, w: string)
    ensures s + t + u + w == s + (t + u) + w
  {
  }

  /**
   * What _PrintInt prints between the spaces reads back as the number: a minus exactly for a
   * negative one, a plus exactly where the flag asks for it on one that is not, and without that
   * plus the text denotes `v`. The spaces are behind with the left flag and in front without it;
   * only the zero flag puts zeros in their place.
   */
  lemma IntReadsBack(b: nat, v: int, numDigits: nat, width: nat, flags: Flags)
    returns (before: nat, body: string, behind: nat)
    requires 2 <= b <= 16
    ensures Centred(IntText(b, v, numDigits, width, flags), before, body, behind) && body != []
    ensures body[0] == '-' <==> v < 0
    ensures body[0] == '+' <==> v >= 0 && flags.plus
    ensures var rest := if body[0] == '+' then body[1..] else body; WellFormed(b, rest) && TextValue(b, rest) == v
    ensures if flags.left then before == 0 else behind == 0
    ensures if flags.zero && numDigits == 0 && !flags.left then before == 0
            else |body| == (if v < 0 || flags.plus then 1 else 0) + Shown(b, if v < 0 then -v else v, numDigits)
  {
    var digits;
    before, digits, behind := IntTextReadsBack(b, v, numDigits, width, flags);
    body := SignText(v, flags) + digits;
    SpacesAround(before, body, behind);
    Regrouped(Repeat(' ', before), SignText(v, flags), digits, Repeat(' ', behind));
    SignedText(b, v, digits, flags);
  }

  /** What _PrintUnsigned prints between the spaces is digits that denote the number. */
  lemma UnsignedReadsBack(b: nat, v: nat, numDigits: nat, width: nat, flags: Flags)
    returns (before: nat, digits: string, behind: nat)
    requires 2 <= b <= 16
    ensures Centred(UnsignedText(b, v, numDigits, width, flags), before, digits, behind) && digits != []
    ensures Digits(b, digits) && NumeralValue(b, digits) == v
    ensures if flags.left then before == 0 else behind == 0
    ensures if flags.zero && numDigits == 0 && !flags.left then before == 0
            else |digits| == Shown(b, v, numDigits)
  {
    var n := Shown(b, v, numDigits);
    var pad := Missing(width, n);
    ShownDenotes(b, v, numDigits);
    before, digits, behind := LayoutReads(b, "", Fixed(b, v, n), v, pad, flags, numDigits);
    assert UnsignedText(b, v, numDigits, width, flags) == Layout("", Fixed(b, v, n), pad, flags, numDigits);
    SpacesAround(before, digits, behind);
    assert Repeat(' ', before) + "" + digits == Repeat(' ', before) + digits;
  }

  // ---------------------------------------------------------------- the program

  /** A text cut to the room there is. */
  function Clip(s: string, size: nat): (r: string)
    ensures |r| <= size
  {
    if |s| <= size then s else s[..size]
  }

  lemma ClipMore(s: string, t: string, size: nat)
    ensures Clip(Clip(s, size) + t, size) == Clip(s + t, size)
  {
    if |s| > size {
      assert Clip(Clip(s, size) + t, size) == s[..size];
      assert (s + t)[..size] == s[..size];
    }
  }

  lemma RepeatMore(c: char, n: nat)
    ensures Repeat(c, n) + [c] == Repeat(c, n + 1)
  {
  }

  class Desc {
    const buffer: array<char>
    var cnt: nat

    constructor (buffer: array<char>)
      ensures this.buffer == buffer && Valid() && Out() == ""
    {
      this.buffer := buffer;
      cnt := 0;
    }

    ghost predicate Valid()
      reads this
    {
      cnt <= buffer.Length
    }

    ghost function Out(): string
      requires Valid()
      reads this, buffer
    {
      buffer[..cnt]
    }

    /** `text` was printed after `before`, as far as it fits. */
    ghost predicate Printed(before: string, text: string)
      reads this, buffer
    {
      Valid() && Out() == Clip(before + text, buffer.Length)
    }

    /** A character is stored while there is room, and dropped after that. */
    method StoreChar(c: char, ghost before: string, ghost text: string)
      requires Printed(before, text)
      modifies this, buffer
      ensures Printed(before, text + [c])
    {
      ClipMore(before + text, [c], buffer.Length);
      assert before + text + [c] == before + (text + [c]);
      if cnt + 1 <= buffer.Length {
        buffer[cnt] := c;
        cnt := cnt + 1;
      }
    }

    /** Fill up to the field width. */
    method Fill(c: char, fieldWidth: nat, width: nat, ghost before: string, ghost text: string) returns (left: nat)
      requires Printed(before, text)
      modifies this, buffer
      ensures Printed(before, text + Repeat(c, Missing(fieldWidth, width)))
      ensures left == if fieldWidth > width then width else fieldWidth
    {
      left := fieldWidth;
      ghost var n := 0;
      assert text + Repeat(c, 0) == text;
      while left != 0 && width < left
        invariant n == fieldWidth - left && (left == fieldWidth || left >= width)
        invariant Printed(before, text + Repeat(c, n))
      {
        left := left - 1;
        RepeatMore(c, n);
        assert text + Repeat(c, n) + [c] == text + Repeat(c, n + 1);
        StoreChar(c, before, text + Repeat(c, n));
        n := n + 1;
      }
    }
  }

  method CountDigits(v: nat, b: nat) returns (width: nat)
    requires 2 <= b <= 16
    ensures width == Width(b, v)
  {
    var number: nat := v;
    width := 1;
    while number >= b
      invariant width + Width(b, number) == Width(b, v) + 1
    {
      QuoRem(number, b);
      assert number / b == Quo(number, b);
      number := number / b;
      width := width + 1;
    }
  }

  lemma DigitTooSmall(v: nat, b: nat, e: nat)
    requires 2 <= b <= 16 && Quo(v, Place(b, e)) >= b
    ensures Place(b, e + 1) <= v && e + 1 < Width(b, v)
  {
    DivDef(v, Place(b, e));
    MulLe(b, Quo(v, Place(b, e)), Place(b, e));
    WidthBounds(b, v);
    if Width(b, v) <= e + 1 {
      PlaceMonotone(b, Width(b, v), e + 1);
    }
  }

  lemma DigitLargeEnough(v: nat, b: nat, e: nat)
    requires 2 <= b <= 16 && Quo(v, Place(b, e)) < b
    ensures Width(b, v) <= e + 1
  {
    DivDef(v, Place(b, e));
    MulLe(Quo(v, Place(b, e)) + 1, b, Place(b, e));
    MulAdd(Quo(v, Place(b, e)), 1, Place(b, e));
    WidthBounds(b, v);
    if Width(b, v) > e + 1 {
      PlaceMonotone(b, e + 1, Width(b, v) - 1);
    }
  }

  /** While another place is asked for or needed, the next power still fits 32 bits. */
  lemma NextPower(v: nat, b: nat, numDigits: nat, e: nat)
    requires 2 <= b <= 16 && v < UINT && (numDigits == 0 || Place(b, numDigits - 1) < UINT)
    requires numDigits > e + 1 || Quo(v, Place(b, e)) >= b
    ensures Place(b, e) * b == Place(b, e + 1) && 0 < Place(b, e + 1) < UINT && e + 1 < Shown(b, v, numDigits)
  {
    if numDigits > e + 1 {
      PlaceMonotone(b, e + 1, numDigits - 1);
    } else {
      DigitTooSmall(v, b, e);
    }
  }

  /** The number of places still asked for after `e` steps. */
  function PlacesLeft(numDigits: nat, e: nat): nat {
    if numDigits > e then numDigits - e else if numDigits > 0 then 1 else 0
  }

  /** The power of the base at the first digit; it never leaves 32 bits when the shown digits fit. */
  method FirstDigit(v: nat, b: nat, numDigits: nat) returns (digit: nat)
    requires 2 <= b <= 16 && v < UINT && (numDigits == 0 || Place(b, numDigits - 1) < UINT)
    ensures digit == Place(b, Shown(b, v, numDigits) - 1) && 0 < digit < UINT
  {
    digit := 1;
    var left := numDigits;
    ghost var e := 0;
    while true
      invariant digit == Place(b, e) && 0 < digit < UINT && e < Shown(b, v, numDigits)
      invariant left == PlacesLeft(numDigits, e)
      decreases Shown(b, v, numDigits) - e
    {
      if left > 1 {
        left := left - 1;
      } else {
        assert v / digit == Quo(v, digit);
        if v / digit < b {
          DigitLargeEnough(v, b, e);
          break;
        }
      }
      NextPower(v, b, numDigits, e);
      digit := digit * b;
      e := e + 1;
    }
  }

  /** The digits that are left to print, and the place the next one has. */
  ghost predicate Printing(b: nat, whole: string, done: string, v: nat, digit: nat, k: nat)
    requires 2 <= b <= 16
  {
    && whole == done + Fixed(b, v, k)
    && v < Place(b, k)
    && digit == if k == 0 then 0 else Place(b, k - 1)
  }

  lemma NextPlace(b: nat, k: nat)
    requires b > 0 && k > 0
    ensures Quo(Place(b, k), b) == Place(b, k - 1)
  {
    DivUnique(Place(b, k), b, Place(b, k - 1), 0);
  }

  lemma LastPlace(b: nat)
    requires 2 <= b
    ensures Quo(1, b) == 0
  {
    DivUnique(1, b, 0, 1);
  }

  lemma PrintDigit(b: nat, whole: string, done: string, v: nat, digit: nat, k: nat)
    requires 2 <= b <= 16 && Printing(b, whole, done, v, digit, k) && k > 0
    ensures digit > 0 && Quo(v, digit) < b
    ensures Printing(b, whole, done + [DigitChar(Quo(v, digit))], Rem(v, digit), Quo(digit, b), k - 1)
    ensures v - Quo(v, digit) * digit == Rem(v, digit)
  {
    TopDigit(b, v, k);
    DivDef(v, digit);
    assert done + ([DigitChar(Quo(v, digit))] + Fixed(b, Rem(v, digit), k - 1))
        == done + [DigitChar(Quo(v, digit))] + Fixed(b, Rem(v, digit), k - 1);
    if k > 1 {
      NextPlace(b, k - 1);
    } else {
      LastPlace(b);
    }
  }

  method PrintOne(p: Desc, c: char, ghost before: string, ghost text: string, ghost done: string)
    requires p.Printed(before, text + done)
    modifies p, p.buffer
    ensures p.Printed(before, text + (done + [c]))
  {
    assert text + done + [c] == text + (done + [c]);
    p.StoreChar(c, before, text + done);
  }

  /** The digits from the first one on. */
  method PrintDigits(p: Desc, v: nat, b: nat, first: nat, ghost n: nat, ghost before: string, ghost text: string)
    requires 2 <= b <= 16 && n > 0 && first == Place(b, n - 1) && v < Place(b, n)
    requires p.Printed(before, text)
    modifies p, p.buffer
    ensures p.Printed(before, text + Fixed(b, v, n))
  {
    var rest: nat, digit: nat := v, first;
    ghost var k: nat, done, whole := n, "", Fixed(b, v, n);
    assert "" + whole == whole && text + "" == text;
    while digit != 0
      invariant Printing(b, whole, done, rest, digit, k) && p.Printed(before, text + done)
      decreases k
    {
      PrintDigit(b, whole, done, rest, digit, k);
      var div := rest / digit;
      PrintOne(p, DigitChar(div), before, text, done);
      done := done + [DigitChar(div)];
      rest, digit, k := rest - div * digit, digit / b, k - 1;
    }
    assert whole == done + [] == done;
  }

  lemma Joined(text: string, x: string, y: string)
    ensures text + x + y == text + (x + y)
  {
  }

  /** _PrintUnsigned. */
  method PrintUnsigned(p: Desc, v: nat, b: nat, numDigits: nat, fieldWidth: nat, flags: Flags,
                       ghost before: string, ghost text: string)
    requires 2 <= b <= 16 && v < UINT && (numDigits == 0 || Place(b, numDigits - 1) < UINT)
    requires p.Printed(before, text)
    modifies p, p.buffer
    ensures p.Printed(before, text + UnsignedText(b, v, numDigits, fieldWidth, flags))
  {
    var width := CountDigits(v, b);
    if numDigits > width {
      width := numDigits;
    }
    ghost var digits := Fixed(b, v, width);
    ghost var lead := "";
    var left := fieldWidth;
    assert text + lead == text;
    if !flags.left {
      var c := if flags.zero && numDigits == 0 then '0' else ' ';
      lead := Repeat(c, Missing(fieldWidth, width));
      left := p.Fill(c, fieldWidth, width, before, text);
    }
    var first := FirstDigit(v, b, numDigits);
    ShownDenotes(b, v, numDigits);
    PrintDigits(p, v, b, first, width, before, text + lead);
    Joined(text, lead, digits);
    if flags.left {
      left := p.Fill(' ', left, width, before, text + lead + digits);
      Joined(text, digits, Repeat(' ', Missing(fieldWidth, width)));
    }
  }

  /** The sign, if one is printed. */
  method PrintSign(p: Desc, v: int, flags: Flags, ghost before: string, ghost text: string)
    requires p.Printed(before, text)
    modifies p, p.buffer
    ensures p.Printed(before, text + SignText(v, flags))
  {
    assert text + "" == text;
    if v < 0 {
      p.StoreChar('-', before, text);
    } else if flags.plus {
      p.StoreChar('+', before, text);
    }
  }

  /** The field width less the place of the sign. */
  function WidthBehindSign(v: int, fieldWidth: nat, flags: Flags): nat {
    if fieldWidth > 0 && (v < 0 || flags.plus) then fieldWidth - 1 else fieldWidth
  }

  /** Spaces, if any, before the sign. */
  ghost function LeadText(pad: nat, flags: Flags, numDigits: nat): string {
    if (!flags.zero || numDigits != 0) && !flags.left then Repeat(' ', pad) else ""
  }

  /** Zeros, if any, behind the sign. */
  ghost function ZeroText(pad: nat, flags: Flags, numDigits: nat): string {
    if flags.zero && !flags.left && numDigits == 0 then Repeat('0', pad) else ""
  }

  /** The parts as they are printed make the text. */
  lemma PartsMakeText(b: nat, v: int, numDigits: nat, fieldWidth: nat, flags: Flags, left: nat)
    requires 2 <= b <= 16
    requires
      var n, w := Shown(b, Abs(v), numDigits), WidthBehindSign(v, fieldWidth, flags);
      left == if flags.left || w <= n then w else n
    ensures
      var pad := Missing(WidthBehindSign(v, fieldWidth, flags), Shown(b, Abs(v), numDigits));
      LeadText(pad, flags, numDigits) + SignText(v, flags) + ZeroText(pad, flags, numDigits)
      + UnsignedText(b, Abs(v), numDigits, left, flags) == IntText(b, v, numDigits, fieldWidth, flags)
  {
  }

  /** Padding in front where `wanted`. */
  method FillIf(p: Desc, wanted: bool, c: char, fieldWidth: nat, width: nat, ghost before: string, ghost text: string)
    returns (left: nat)
    requires p.Printed(before, text)
    modifies p, p.buffer
    ensures p.Printed(before, text + if wanted then Repeat(c, Missing(fieldWidth, width)) else "")
    ensures left == if wanted && fieldWidth > width then width else fieldWidth
  {
    left := fieldWidth;
    assert text + "" == text;
    if wanted {
      left := p.Fill(c, fieldWidth, width, before, text);
    }
  }

  /** _PrintInt: the whole conversion, for every flag set, width and fitting precision. */
  method PrintInt(p: Desc, v: int, b: nat, numDigits: nat, fieldWidth: nat, flags: Flags)
    requires 2 <= b <= 16 && -0x8000_0000 < v < 0x8000_0000 && (numDigits == 0 || Place(b, numDigits - 1) < UINT)
    requires p.Valid()
    modifies p, p.buffer
    ensures p.Printed(old(p.Out()), IntText(b, v, numDigits, fieldWidth, flags))
    ensures var all := old(p.Out()) + IntText(b, v, numDigits, fieldWidth, flags);
            p.Out() == if |all| <= p.buffer.Length then all else all[..p.buffer.Length]
  {
    ghost var before := p.Out();
    assert before + "" == before;
    var number: nat := if v < 0 then -v else v;
    var width := CountDigits(number, b);
    if numDigits > width {
      width := numDigits;
    }
    var left := WidthBehindSign(v, fieldWidth, flags);
    ghost var pad := Missing(left, width);
    ghost var lead, zeros := LeadText(pad, flags, numDigits), ZeroText(pad, flags, numDigits);
    left := FillIf(p, (!flags.zero || numDigits != 0) && !flags.left, ' ', left, width, before, "");
    assert "" + lead == lead;
    PrintSign(p, v, flags, before, lead);
    left := FillIf(p, flags.zero && !flags.left && numDigits == 0, '0', left, width, before, lead + SignText(v, flags));
    PrintUnsigned(p, number, b, numDigits, left, flags, before, lead + SignText(v, flags) + zeros);
    PartsMakeText(b, v, numDigits, fieldWidth, flags, left);
  }
}
