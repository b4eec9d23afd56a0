/** Reading and writing multi-precision integers as text in radix 2 to 16. */
module Numerals {
  import opened Limbs
  import opened Bits
  import opened Mul
  import opened BigNum
  import opened Shifts
  import opened Division
  import opened Radix
  import opened BinaryIO

  // ---------------------------------------------------------------- digits and numerals

  /** The value of a character as a digit, 255 when it is none. */
  function DigitOf(c: char): (d: nat)
    ensures d < 16 || d == 255
  {
    var v := c as int;
    if 0x30 <= v <= 0x39 then v - 0x30
    else if 0x41 <= v <= 0x46 then v - 0x37
    else if 0x61 <= v <= 0x66 then v - 0x57
    else 255
  }

  function DigitChar(d: nat): (c: char)
    requires d < 16
    ensures DigitOf(c) == d
  {
    if d < 10 then (d + 0x30) as char else (d + 0x37) as char
  }

  const UPPER := "0123456789ABCDEF"
  const LOWER := "0123456789abcdef"

  /** The digits are 0 to 9 and A to F when written, and either case of the letters when read. */
  lemma DigitsAre(d: nat)
    requires d < 16
    ensures DigitChar(d) == UPPER[d] && DigitOf(UPPER[d]) == d && DigitOf(LOWER[d]) == d
  {
  }

  lemma NoOtherDigits(c: char)
    requires DigitOf(c) < 16
    ensures c in UPPER || c in LOWER
  {
    var d := DigitOf(c);
    DigitsAre(d);
    assert c == UPPER[d] || c == LOWER[d];
  }

  ghost predicate Digits(radix: nat, s: string) {
    forall k :: 0 <= k < |s| ==> DigitOf(s[k]) < radix
  }

  /** The number a run of digits denotes. */
  ghost function NumeralValue(radix: nat, s: string): nat
    requires Digits(radix, s)
  {
    if s == [] then 0 else NumeralValue(radix, s[..|s| - 1]) * radix + DigitOf(s[|s| - 1])
  }

  lemma QuoRem(v: nat, radix: nat)
    requires 2 <= radix
    ensures v == Quo(v, radix) * radix + Rem(v, radix) && Rem(v, radix) < radix
    ensures v > 0 ==> Quo(v, radix) < v
  {
    DivDef(v, radix);
    if v > 0 && Quo(v, radix) >= v {
      MulLe(2, radix, v);
      MulLe(v, Quo(v, radix), radix);
      assert false;
    }
  }

  /** The digits of a number, the most significant first; zero is one digit. */
  ghost function Numeral(radix: nat, v: nat): (s: string)
    requires 2 <= radix <= 16
    decreases v
  {
    QuoRem(v, radix);
    var last := [DigitChar(Rem(v, radix))];
    if Quo(v, radix) == 0 then last else Numeral(radix, Quo(v, radix)) + last
  }

  lemma DigitsMore(radix: nat, s: string, c: char)
    requires Digits(radix, s) && DigitOf(c) < radix
    ensures Digits(radix, s + [c]) && NumeralValue(radix, s + [c]) == NumeralValue(radix, s) * radix + DigitOf(c)
  {
    assert (s + [c])[..|s|] == s;
  }

  lemma FirstDigit(radix: nat, s: string)
    requires radix <= 16 && Digits(radix, s) && s != []
    ensures s[0] != '-'
  {
    assert DigitOf(s[0]) < radix;
  }

  /** A numeral denotes the number it was made from. */
  lemma {:induction false} NumeralDenotes(radix: nat, v: nat)
    requires 2 <= radix <= 16
    ensures Digits(radix, Numeral(radix, v)) && NumeralValue(radix, Numeral(radix, v)) == v
    ensures Numeral(radix, v) != [] && Numeral(radix, v)[0] != '-'
    decreases v
  {
    QuoRem(v, radix);
    var q, c := Quo(v, radix), DigitChar(Rem(v, radix));
    if q == 0 {
      DigitsMore(radix, [], c);
      assert [] + [c] == [c];
    } else {
      NumeralDenotes(radix, q);
      DigitsMore(radix, Numeral(radix, q), c);
    }
    FirstDigit(radix, Numeral(radix, v));
  }

  // ---------------------------------------------------------------- reading

  /** A text is a numeral with an optional minus sign in front. */
  ghost predicate WellFormed(radix: nat, s: string) {
    Digits(radix, if Negative(s) then s[1..] else s)
  }

  ghost predicate Negative(s: string) {
    s != [] && s[0] == '-'
  }

  ghost function TextValue(radix: nat, s: string): int
    requires WellFormed(radix, s)
  {
    if Negative(s) then 0 - NumeralValue(radix, s[1..]) else NumeralValue(radix, s)
  }

  lemma MulNeg(a: int, b: int)
    ensures (0 - a) * b == 0 - a * b
  {
    MulSub(0, a, b);
  }

  lemma Literal(radix: int)
    requires 0 <= radix < 0x1_0000_0000
    ensures radix % 0x1_0000_0000 == radix
  {
  }

  /** One digit behind a number of either sign. */
  method Append(X: Mpi, T: Mpi, radix: nat, d: nat)
    requires X.Num() && X != T && 2 <= radix <= 16 && d < radix
    modifies X, T
    ensures X.Num() && X.s == old(X.s)
    ensures X.s == 1 ==> X.Int() == old(X.Int()) * radix + d
    ensures X.s == -1 ==> X.Int() == old(X.Int()) * radix - d
  {
    Literal(radix);
    MulInt(T, X, radix);
    if X.s == 1 {
      AddInt(X, T, d);
    } else {
      SubInt(X, T, d);
    }
  }

  /** What the digits read so far have made of X. */
  ghost predicate Reading(X: Mpi, radix: nat, s: string, lo: nat, i: nat)
    requires lo <= i <= |s|
    reads X
  {
    && X.Num()
    && Digits(radix, s[lo..i])
    && X.s == (if lo == 1 then -1 else 1)
    && X.Int() == (if lo == 1 then 0 - NumeralValue(radix, s[lo..i]) else NumeralValue(radix, s[lo..i]))
  }

  method ReadDigit(X: Mpi, T: Mpi, radix: nat, s: string, ghost lo: nat, i: nat) returns (ok: bool)
    requires X != T && 2 <= radix <= 16 && lo <= i < |s| && lo <= 1 && Reading(X, radix, s, lo, i)
    modifies X, T
    ensures ok == (DigitOf(s[i]) < radix)
    ensures ok ==> Reading(X, radix, s, lo, i + 1)
  {
    var d := DigitOf(s[i]);
    if d >= radix {
      return false;
    }
    assert s[lo..i + 1] == s[lo..i] + [s[i]];
    DigitsMore(radix, s[lo..i], s[i]);
    MulNeg(NumeralValue(radix, s[lo..i]), radix);
    Append(X, T, radix, d);
    ok := true;
  }

  /** The digits one after another, by multiplication. */
  method ReadByMultiplying(X: Mpi, radix: nat, s: string) returns (ret: Ret)
    requires 2 <= radix <= 16
    modifies X
    ensures ret == (if WellFormed(radix, s) then Success else InvalidCharacter)
    ensures ret == Success ==> X.Num() && X.Int() == TextValue(radix, s)
  {
    var T := new Mpi();
    Lset(X, 0);
    var i := 0;
    if s != [] && s[0] == '-' {
      X.s := -1;
      i := 1;
    }
    ghost var lo := i;
    assert s[lo..i] == [];
    while i < |s|
      invariant lo <= i <= |s| && Reading(X, radix, s, lo, i)
    {
      var ok := ReadDigit(X, T, radix, s, lo, i);
      if !ok {
        assert s[lo..][i - lo] == s[i];
        return InvalidCharacter;
      }
      i := i + 1;
    }
    assert s[lo..i] == s[lo..];
    ret := Success;
  }

  // ---------------------------------------------------------------- reading in radix 16

  lemma P2Of4(k: nat)
    ensures P2(4 * (k + 1)) == 16 * P2(4 * k)
  {
    assert P2(4) == 16;
    P2Add(4, 4 * k);
  }

  /** The weight of hexadecimal digit j is digit j mod 8 of limb j / 8. */
  lemma NibbleWeight(j: nat)
    ensures P2(4 * j) == P2(4 * (j % 8)) * Pw(j / 8)
    ensures P2(4 * (j % 8)) * 16 <= 0x1_0000_0000
  {
    PwIsP2(j / 8);
    P2Add(4 * (j % 8), 32 * (j / 8));
    assert 4 * j == 4 * (j % 8) + 32 * (j / 8);
    P2Of32();
    P2Of4(j % 8);
    P2Monotone(4 * (j % 8 + 1), 32);
  }

  lemma NibbleRoom(low: nat, w: nat, d: nat)
    requires low < w && d < 16 && w * 16 <= 0x1_0000_0000
    ensures 0 <= low + d * w < 0x1_0000_0000
  {
    MulLe(d, 15, w);
    MulNonNeg(d, w);
  }

  lemma LimbBelow(p: seq<Limb>, j: nat)
    requires j / 8 < |p| && Val(p) < P2(4 * j)
    ensures p[j / 8] < P2(4 * (j % 8))
  {
    var k, w := j / 8, P2(4 * (j % 8));
    NibbleWeight(j);
    if p[k] != 0 {
      ValTop(p, k);
      if p[k] >= w {
        MulLe(w, p[k], Pw(k));
      }
    }
  }

  lemma NibbleFits(p: seq<Limb>, j: nat, d: nat)
    requires j / 8 < |p| && Val(p) < P2(4 * j) && d < 16
    ensures 0 <= p[j / 8] as int + d * P2(4 * (j % 8)) < 0x1_0000_0000
  {
    NibbleWeight(j);
    LimbBelow(p, j);
    NibbleRoom(p[j / 8] as int, P2(4 * (j % 8)), d);
  }

  /** One digit is put into a limb whose bits from there on are still zero. */
  lemma PutNibble(p: seq<Limb>, j: nat, d: nat, x: Limb)
    requires j / 8 < |p| && x as int == p[j / 8] as int + d * P2(4 * (j % 8))
    ensures Val(p[j / 8 := x]) == Val(p) + d * P2(4 * j)
  {
    var k, w := j / 8, P2(4 * (j % 8));
    NibbleWeight(j);
    ValUpdate(p, k, x);
    MulAssoc(d, w, Pw(k));
  }

  method StoreNibble(X: Mpi, j: nat, d: nat)
    requires j / 8 < |X.p| && X.Abs() < P2(4 * j) && d < 16
    modifies X`p
    ensures |X.p| == old(|X.p|) && X.Abs() == old(X.Abs()) + d * P2(4 * j)
  {
    NibbleFits(X.p, j, d);
    var x: Limb := X.p[j / 8] as int + d * P2(4 * (j % 8));
    PutNibble(X.p, j, d, x);
    X.p := X.p[j / 8 := x];
  }

  lemma FrontStep(d: int, w: int, v: int, x: int)
    requires 0 <= d && 0 <= x < 16 && v < w
    ensures (d * w + v) * 16 + x == d * (16 * w) + (v * 16 + x) && v * 16 + x < 16 * w
  {
    MulSwap(d, 16, w);
  }

  /** A digit in front of a numeral counts at the weight of its place. */
  lemma {:induction false} DigitInFront(c: char, s: string)
    requires Digits(16, s) && DigitOf(c) < 16
    ensures Digits(16, [c] + s) && NumeralValue(16, [c] + s) == DigitOf(c) * P2(4 * |s|) + NumeralValue(16, s)
    ensures NumeralValue(16, s) < P2(4 * |s|)
  {
    if s == [] {
      assert P2(0) == 1;
      DigitsMore(16, [], c);
      assert [] + [c] == [c] + s;
    } else {
      var t, x := s[..|s| - 1], s[|s| - 1];
      DigitInFront(c, t);
      DigitsMore(16, [c] + t, x);
      assert [c] + s == [c] + t + [x];
      P2Of4(|t|);
      FrontStep(DigitOf(c), P2(4 * |t|), NumeralValue(16, t), DigitOf(x));
    }
  }

  ghost predicate Shifting(X: Mpi, s: string, i: nat)
    requires i <= |s|
    reads X
  {
    && X.Num() && X.s == 1
    && |X.p| * 8 >= |s|
    && Digits(16, s[i..])
    && X.Abs() == NumeralValue(16, s[i..])
  }

  lemma NibbleInFront(s: string, i: nat, v: nat)
    requires 0 < i <= |s| && Digits(16, s[i..]) && v == NumeralValue(16, s[i..]) && DigitOf(s[i - 1]) < 16
    ensures v < P2(4 * (|s| - i)) && Digits(16, s[i - 1..])
    ensures NumeralValue(16, s[i - 1..]) == v + DigitOf(s[i - 1]) * P2(4 * (|s| - i))
  {
    DigitInFront(s[i - 1], s[i..]);
    assert s[i - 1..] == [s[i - 1]] + s[i..];
  }

  method ReadNibble(X: Mpi, s: string, i: nat) returns (ok: bool)
    requires 0 < i <= |s| && Shifting(X, s, i)
    modifies X`p
    ensures ok == (DigitOf(s[i - 1]) < 16)
    ensures ok ==> Shifting(X, s, i - 1)
  {
    var d := DigitOf(s[i - 1]);
    if d >= 16 {
      return false;
    }
    NibbleInFront(s, i, X.Abs());
    StoreNibble(X, |s| - i, d);
    ok := true;
  }

  /** The digits from the last one on, each into its place. */
  method ReadByShifting(X: Mpi, s: string) returns (ret: Ret)
    modifies X
    ensures ret == (if WellFormed(16, s) then Success else InvalidCharacter)
    ensures ret == Success ==> X.Num() && X.Int() == TextValue(16, s)
  {
    Grow(X, BitsToLimbs(|s| * 4));
    Lset(X, 0);
    var i := |s|;
    assert s[i..] == [];
    while i > 0
      invariant 0 <= i <= |s| && Shifting(X, s, i)
      invariant i == 0 ==> !Negative(s)
    {
      if i == 1 && s[i - 1] == '-' {
        X.s := -1;
        return Success;
      }
      var ok := ReadNibble(X, s, i);
      if !ok {
        BadDigit(s, i - 1);
        return InvalidCharacter;
      }
      NoMinus(s, i - 1);
      i := i - 1;
    }
    assert s[0..] == s;
    ret := Success;
  }

  lemma BadDigit(s: string, k: nat)
    requires k < |s| && DigitOf(s[k]) >= 16 && !(k == 0 && s[0] == '-')
    ensures !WellFormed(16, s)
  {
    if Negative(s) {
      assert s[1..][k - 1] == s[k];
    }
  }

  lemma NoMinus(s: string, k: nat)
    requires k < |s| && DigitOf(s[k]) < 16
    ensures s[k] != '-'
  {
  }

  /** mpi_read_string. */
  method ReadString(X: Mpi, radix: int, s: string) returns (ret: Ret)
    modifies X
    ensures ret == (if radix < 2 || radix > 16 then BadInputData
                    else if WellFormed(radix, s) then Success else InvalidCharacter)
    ensures ret == Success ==> X.Num() && X.Int() == TextValue(radix, s)
  {
    if radix < 2 || radix > 16 {
      return BadInputData;
    }
    if radix == 16 {
      ret := ReadByShifting(X, s);
    } else {
      ret := ReadByMultiplying(X, radix, s);
    }
  }

  // ---------------------------------------------------------------- writing

  /** mpi_write_hlp: the digits of X, which is used up. */
  method WriteHlp(X: Mpi, radix: nat) returns (out: string)
    requires X.Num() && X.s == 1 && 2 <= radix <= 16
    modifies X
    ensures out == Numeral(radix, old(X.Abs()))
    decreases X.Abs()
  {
    ghost var v := X.Abs();
    QuoRem(v, radix);
    var ret, r := ModInt(X, radix);
    HalfLimbIsMod(X.p, radix);
    var e := DivInt(X, null, X, radix);
    out := [];
    var z := CmpInt(X, 0);
    if z != 0 {
      out := WriteHlp(X, radix);
    }
    out := out + [DigitChar(r)];
  }

  /** A number written in pairs of digits, one pair a byte, without leading zero bytes. */
  ghost predicate HexOf(q: nat, out: string) {
    && Digits(16, out)
    && NumeralValue(16, out) == q
    && (out == [] <==> q == 0)
    && |out| == 2 * ((BitLen(q) + 7) / 8)
  }

  /** The bytes of a number from byte `t` on upwards, so written. */
  ghost predicate HexPrefix(v: nat, t: nat, out: string) {
    HexOf(Quo(v, P2(8 * t)), out)
  }

  lemma QuoStep(v: nat, t: nat)
    ensures Quo(v, P2(8 * t)) == Quo(v, P2(8 * (t + 1))) * 256 + Quo(v, P2(8 * t)) % 256
  {
    P2Of8(t);
    DivDiv(v, P2(8 * t), 256);
  }

  lemma ByteMore(out: string, c: nat)
    requires Digits(16, out) && c < 256
    ensures var r := out + [DigitChar(c / 16)] + [DigitChar(c % 16)];
            Digits(16, r) && NumeralValue(16, r) == NumeralValue(16, out) * 256 + c
  {
    DigitsMore(16, out, DigitChar(c / 16));
    DigitsMore(16, out + [DigitChar(c / 16)], DigitChar(c % 16));
  }

  lemma P2Of8Is()
    ensures P2(8) == 256 && P2(0) == 1
  {
    assert P2(4) == 16;
    P2Add(4, 4);
  }

  /** A number with one byte more behind it is one byte longer. */
  lemma ByteLonger(q: nat, c: nat)
    requires c < 256 && q > 0
    ensures BitLen(q * 256 + c) == BitLen(q) + 8
  {
    var b := BitLen(q);
    BitLenBounds(q);
    P2Of8Is();
    P2Add(b, 8);
    P2Add(b - 1, 8);
    BitLenUnique(q * 256 + c, b + 8);
  }

  lemma ByteAlone(c: nat)
    requires 0 < c < 256
    ensures 0 < BitLen(c) <= 8
  {
    BitLenBounds(c);
    P2Of8Is();
    if BitLen(c) > 8 {
      P2Monotone(8, BitLen(c) - 1);
    }
  }

  lemma ByteCountMore(q: nat, c: nat)
    requires c < 256 && q + c > 0
    ensures (BitLen(q * 256 + c) + 7) / 8 == (BitLen(q) + 7) / 8 + 1
  {
    if q > 0 {
      ByteLonger(q, c);
    } else {
      ByteAlone(c);
    }
  }

  lemma PairMore(q: nat, c: nat, out: string)
    requires HexOf(q, out) && c < 256 && !(c == 0 && out == [])
    ensures HexOf(q * 256 + c, out + [DigitChar(c / 16)] + [DigitChar(c % 16)])
  {
    ByteMore(out, c);
    ByteCountMore(q, c);
  }

  lemma HexMore(v: nat, t: nat, out: string, c: nat)
    requires HexPrefix(v, t + 1, out) && c == Quo(v, P2(8 * t)) % 256
    ensures c == 0 && out == [] ==> HexPrefix(v, t, out)
    ensures !(c == 0 && out == []) ==> HexPrefix(v, t, out + [DigitChar(c / 16)] + [DigitChar(c % 16)])
  {
    QuoStep(v, t);
    if !(c == 0 && out == []) {
      PairMore(Quo(v, P2(8 * (t + 1))), c, out);
    }
  }

  /** One byte of X, unless it is a leading zero. */
  method EmitByte(X: Mpi, t: nat, out: string) returns (more: string)
    requires X.Num() && t < 4 * |X.p| && HexPrefix(X.Abs(), t + 1, out)
    ensures HexPrefix(X.Abs(), t, more)
  {
    GetByte(X.p, t);
    var c := (X.p[t / 4] / P2(8 * (t % 4))) % 256;
    HexMore(X.Abs(), t, out, c);
    if c == 0 && out == [] {
      return out;
    }
    more := out + [DigitChar(c / 16)] + [DigitChar(c % 16)];
  }

  lemma NothingAbove(v: nat, d: nat)
    requires v < d
    ensures Quo(v, d) == 0
  {
    DivUnique(v, d, 0, v);
  }

  lemma HexStart(p: seq<Limb>)
    ensures HexPrefix(Val(p), 4 * |p|, [])
  {
    ValBound(p);
    PwIsP2(|p|);
    assert 8 * (4 * |p|) == 32 * |p|;
    NothingAbove(Val(p), P2(8 * (4 * |p|)));
  }

  /** The bytes of X from the top one down. */
  method WriteHex(X: Mpi) returns (out: string)
    requires X.Num()
    ensures Digits(16, out) && NumeralValue(16, out) == X.Abs()
    ensures |out| == 2 * ((BitLen(X.Abs()) + 7) / 8)
  {
    out := [];
    HexStart(X.p);
    var i := |X.p|;
    while i > 0
      invariant 0 <= i <= |X.p| && HexPrefix(X.Abs(), 4 * i, out)
    {
      var j := 4;
      while j > 0
        invariant 0 <= j <= 4 && HexPrefix(X.Abs(), 4 * (i - 1) + j, out)
      {
        out := EmitByte(X, 4 * (i - 1) + j - 1, out);
        j := j - 1;
      }
      i := i - 1;
    }
    assert P2(0) == 1;
    DivUnique(X.Abs(), 1, X.Abs(), 0);
  }

  /** The room the program asks for: a fraction of the bit length, by the radix. */
  function Needed(radix: nat, bits: nat): nat {
    var half := if radix >= 4 then bits / 2 else bits;
    (if radix >= 16 then half / 2 else half) + 3
  }

  /** For a number of `bits` bits: the bits, half of them, or a quarter, and three places more. */
  lemma NeededIs(radix: nat, bits: nat)
    requires 2 <= radix <= 16
    ensures 2 <= radix <= 3 ==> Needed(radix, bits) == bits + 3
    ensures 4 <= radix <= 15 ==> Needed(radix, bits) == bits / 2 + 3
    ensures radix == 16 ==> Needed(radix, bits) == bits / 4 + 3
  {
  }

  /** The digits of the magnitude: whole bytes in radix 16, a numeral in any other. */
  method WriteDigits(X: Mpi, radix: nat) returns (digits: string)
    requires X.Num() && 2 <= radix <= 16
    ensures Digits(radix, digits) && NumeralValue(radix, digits) == X.Abs()
    ensures radix != 16 ==> digits == Numeral(radix, X.Abs())
    ensures radix == 16 ==> |digits| == 2 * ((BitLen(X.Abs()) + 7) / 8)
  {
    if radix == 16 {
      digits := WriteHex(X);
    } else {
      var T := new Mpi();
      Copy(T, X);
      if T.s == -1 {
        T.s := 1;
      }
      NumeralDenotes(radix, X.Abs());
      digits := WriteHlp(T, radix);
    }
  }

  /** The sign and the digits. */
  method WriteText(X: Mpi, radix: nat) returns (out: string)
    requires X.Num() && 2 <= radix <= 16
    ensures WellFormed(radix, out) && TextValue(radix, out) == X.Int()
    ensures radix != 16 ==> out == (if X.s == -1 then "-" else "") + Numeral(radix, X.Abs())
    ensures radix == 16 ==> |out| == (if X.s == -1 then 1 else 0) + 2 * ((BitLen(X.Abs()) + 7) / 8)
  {
    var digits := WriteDigits(X, radix);
    Reads(radix, digits, X.s);
    out := (if X.s == -1 then "-" else "") + digits;
  }

  /** mpi_write_string: the text reads as the number again. */
  method WriteString(X: Mpi, radix: int, slen: nat) returns (ret: Ret, out: string, n: nat)
    requires X.Num()
    ensures radix < 2 || radix > 16 ==> ret == BadInputData
    ensures 2 <= radix <= 16 ==> ret == (if slen < Needed(radix, BitLen(X.Abs())) then BufferTooSmall else Success)
    ensures ret == BufferTooSmall ==> n == Needed(radix, BitLen(X.Abs()))
    ensures ret == Success ==> n == |out| + 1 && WellFormed(radix, out) && TextValue(radix, out) == X.Int()
    ensures ret == Success && radix != 16 ==> out == (if X.s == -1 then "-" else "") + Numeral(radix, X.Abs())
    ensures ret == Success && radix == 16 ==> |out| == (if X.s == -1 then 1 else 0) + 2 * ((BitLen(X.Abs()) + 7) / 8)
  {
    out, n := [], slen;
    if radix < 2 || radix > 16 {
      return BadInputData, [], slen;
    }
    var bits := Msb(X);
    n := Needed(radix, bits);
    if slen < n {
      return BufferTooSmall, [], n;
    }
    out := WriteText(X, radix);
    n := |out| + 1;
    ret := Success;
  }

  /** Digits, with or without a sign in front, read as they should. */
  lemma Reads(radix: nat, digits: string, s: int)
    requires 2 <= radix <= 16 && Digits(radix, digits)
    ensures var out := (if s == -1 then "-" else "") + digits;
            WellFormed(radix, out) &&
            TextValue(radix, out) == if s == -1 then 0 - NumeralValue(radix, digits) else NumeralValue(radix, digits)
  {
    var out := (if s == -1 then "-" else "") + digits;
    if s == -1 {
      assert out[1..] == digits;
    } else {
      assert out == digits;
      if digits != [] {
        assert DigitOf(digits[0]) < radix;
      }
    }
  }

  // ---------------------------------------------------------------- the room for the text

  lemma BitLenDoubled(q: nat)
    requires q > 0
    ensures BitLen(2 * q) == BitLen(q) + 1 && BitLen(4 * q) == BitLen(q) + 2
  {
    assert 2 * q / 2 == q && 4 * q / 2 == 2 * q;
  }

  /** Each digit but the first takes at least one bit, from radix 4 on at least two. */
  lemma {:induction false} NumeralLength(radix: nat, v: nat)
    requires 2 <= radix <= 16
    ensures |Numeral(radix, v)| <= BitLen(v) + (if v == 0 then 1 else 0)
    ensures radix >= 4 && v > 0 ==> 2 * (|Numeral(radix, v)| - 1) <= BitLen(v) - 1
    decreases v
  {
    QuoRem(v, radix);
    var q := Quo(v, radix);
    if q > 0 {
      NumeralLength(radix, q);
      BitLenDoubled(q);
      MulLe(2, radix, q);
      BitLenMonotone(2 * q, v);
      if radix >= 4 {
        MulLe(4, radix, q);
        BitLenMonotone(4 * q, v);
      }
    }
  }

  /** The text of a number, its sign and the end mark fit the room asked for; in radix 16 a
      minus sign lacks a place when the bit length is one to three above a whole byte. */
  lemma TextFits(radix: nat, v: nat, negative: bool)
    requires 2 <= radix <= 16
    ensures
      var sign := if negative then 1 else 0;
      var bits := BitLen(v);
      if radix < 16 then sign + |Numeral(radix, v)| + 1 <= Needed(radix, bits)
      else sign + 2 * ((bits + 7) / 8) + 1 <= Needed(radix, bits) <==> !(negative && 1 <= bits % 8 <= 3)
  {
    NumeralLength(radix, v);
    HexRoom(BitLen(v));
  }

  lemma HexRoom(bits: nat)
    ensures 2 * ((bits + 7) / 8) + 1 <= bits / 2 / 2 + 3
    ensures 2 * ((bits + 7) / 8) + 2 <= bits / 2 / 2 + 3 <==> !(1 <= bits % 8 <= 3)
  {
    var q, r := bits / 8, bits % 8;
    assert bits == 8 * q + r;
    assert bits / 2 / 2 == 2 * q + r / 4;
  }
}
