/** The bootstrap password: random bytes read five bits at a time. */
module Password {

  const ALPHABET := "ABCDEFGHJKLMNPQRSTUVWXYZ23456789"
  const PASSWORD_CHARS := 24

  type Byte = b: nat | b < 256
  type Digit = d: nat | d < 32

  /** `a` times two to the `n`, for the shifts that occur. */
  function Scaled(a: nat, n: nat): nat
    requires n < 8
  {
    match n
    case 0 => a
    case 1 => 2 * a
    case 2 => 4 * a
    case 3 => 8 * a
    case 4 => 16 * a
    case 5 => 32 * a
    case 6 => 64 * a
    case 7 => 128 * a
  }

  /** `>>` on an unsigned byte. */
  function Shr(b: Byte, n: nat): Byte
    requires n < 8
  {
    match n
    case 0 => b
    case 1 => b / 2
    case 2 => b / 4
    case 3 => b / 8
    case 4 => b / 16
    case 5 => b / 32
    case 6 => b / 64
    case 7 => b / 128
  }

  /** `<<` on an unsigned byte; the bits shifted out are lost. */
  function Shl(b: Byte, n: nat): Byte
    requires n < 8
  {
    Scaled(b, n) % 256
  }

  /** The five bits from `bitOffset` on, possibly spanning two bytes. */
  function FiveBits(bytes: seq<Byte>, bitOffset: nat): Digit
    requires bitOffset + 5 <= 8 * |bytes|
  {
    var byteIdx, bitInByte := bitOffset / 8, bitOffset % 8;
    if bitInByte <= 3 then Shr(bytes[byteIdx], 3 - bitInByte) % 32
    else
      // The shifts leave no bit in common, so the bitwise or is a sum.
      (Shl(bytes[byteIdx], bitInByte - 3) + Shr(bytes[byteIdx + 1], 11 - bitInByte)) % 32
  }

  /** The two parts joined by the bitwise or have no bit in common. */
  lemma DisjointBits(b: Byte, c: Byte, bitInByte: nat)
    requires 3 < bitInByte < 8
    ensures Shl(b, bitInByte - 3) % Scaled(1, bitInByte - 3) == 0
    ensures Shr(c, 11 - bitInByte) < Scaled(1, bitInByte - 3)
  {
    match bitInByte
    case 4 =>
    case 5 =>
    case 6 =>
    case 7 =>
  }

  /** A number written in a base, most significant digit first. */
  function Number(base: nat, digits: seq<nat>): nat {
    if digits == [] then 0 else Number(base, digits[..|digits| - 1]) * base + digits[|digits| - 1]
  }

  /** The number formed by the first `k` bits. */
  function Top(bytes: seq<Byte>, k: nat): nat
    requires k <= 8 * |bytes|
  {
    Scaled(Number(256, bytes[..k / 8]), k % 8) + if k % 8 == 0 then 0 else Shr(bytes[k / 8], 8 - k % 8)
  }

  lemma NextByte(bytes: seq<Byte>, j: nat)
    requires j < |bytes|
    ensures Number(256, bytes[..j + 1]) == Number(256, bytes[..j]) * 256 + bytes[j]
  {
    assert bytes[..j + 1][..j] == bytes[..j];
  }

  lemma WithinByte(a: nat, b: Byte, r: nat)
    requires r <= 2
    ensures Scaled(a, r + 5) + Shr(b, 3 - r) == 32 * (Scaled(a, r) + if r == 0 then 0 else Shr(b, 8 - r)) + Shr(b, 3 - r) % 32
  {
    match r
    case 0 =>
    case 1 =>
    case 2 =>
  }

  /** The bits shifted out of a byte do not reach the five low bits kept of the result. */
  lemma LowBits(q: nat, t: nat, m: nat, step: nat, low: nat)
    requires m * step == 32 && low < step && t < m
    ensures (32 * q + step * t) % 256 % 32 == step * t
    ensures ((32 * q + step * t) % 256 + low) % 32 == step * t + low
  {
    var x := step * t;
    StepBound(t, m, step);
    assert x + low < 32;
    var y := (32 * q + x) % 256;
    assert y == 32 * q + x - 256 * ((32 * q + x) / 256);
  }

  lemma StepBound(t: nat, m: nat, step: nat)
    requires m * step == 32 && t < m
    ensures step * t + step <= 32
  {
    MultiplyMonotone(step, t + 1, m);
    assert (t + 1) * step == step * t + step;
  }

  lemma AcrossBytes(a: nat, b: Byte, c: Byte, r: nat)
    requires 3 < r < 8
    ensures Scaled(a * 256 + b, r - 3) + Shr(c, 11 - r) ==
      32 * (Scaled(a, r) + Shr(b, 8 - r)) + (Shl(b, r - 3) + Shr(c, 11 - r)) % 32
  {
    match r
    case 4 => LowBits(b / 16, b % 16, 16, 2, Shr(c, 7));
    case 5 => LowBits(b / 8, b % 8, 8, 4, Shr(c, 6));
    case 6 => LowBits(b / 4, b % 4, 4, 8, Shr(c, 5));
    case 7 => LowBits(b / 2, b % 2, 2, 16, Shr(c, 4));
  }

  lemma Positions(k: nat)
    ensures (k + 5) / 8 == k / 8 + (if k % 8 < 3 then 0 else 1)
    ensures (k + 5) % 8 == if k % 8 < 3 then k % 8 + 5 else k % 8 - 3
  {
  }

  lemma LastByte(a: nat, b: Byte)
    ensures Scaled(a * 256 + b, 0) == 32 * (Scaled(a, 3) + Shr(b, 5)) + Shr(b, 0) % 32
  {
  }

  /** Five more bits extend the number by one base-32 digit. */
  lemma FiveMore(bytes: seq<Byte>, k: nat)
    requires k + 5 <= 8 * |bytes|
    ensures Top(bytes, k + 5) == Top(bytes, k) * 32 + FiveBits(bytes, k)
  {
    var j, r := k / 8, k % 8;
    var a := Number(256, bytes[..j]);
    Positions(k);
    if r <= 2 {
      WithinByte(a, bytes[j], r);
    } else {
      NextByte(bytes, j);
      if r == 3 { LastByte(a, bytes[j]); } else { AcrossBytes(a, bytes[j], bytes[j + 1], r); }
    }
  }

  lemma FiveBitsAreLastDigit(bytes: seq<Byte>, k: nat)
    requires k + 5 <= 8 * |bytes|
    ensures FiveBits(bytes, k) == Top(bytes, k + 5) % 32
  {
    FiveMore(bytes, k);
    DigitOf(Top(bytes, k), FiveBits(bytes, k));
  }

  lemma DigitOf(x: nat, d: Digit)
    ensures (x * 32 + d) % 32 == d
  {
  }

  /** How many characters are written for `n` bytes. */
  function Chars(n: nat): nat {
    if n * 8 / 5 < PASSWORD_CHARS then n * 8 / 5 else PASSWORD_CHARS
  }

  /** As many characters as the bits fill, but never more than 24. */
  lemma CharsExactly(n: nat, c: nat)
    ensures c <= Chars(n) <==> c <= 24 && 5 * c <= 8 * n
  {
  }

  /** The last base-32 digit of the numbers formed by 5, 10, 15, ... leading bits. */
  function Digits(bytes: seq<Byte>, n: nat): seq<Digit>
    requires 5 * n <= 8 * |bytes|
  {
    seq(n, i requires 0 <= i < n => Top(bytes, 5 * i + 5) % 32)
  }

  function Spell(digits: seq<Digit>): string {
    seq(|digits|, i requires 0 <= i < |digits| => ALPHABET[digits[i]])
  }

  lemma NumberAppend(base: nat, digits: seq<nat>, d: nat)
    ensures Number(base, digits + [d]) == Number(base, digits) * base + d
  {
    assert (digits + [d])[..|digits|] == digits;
  }

  lemma DigitsStep(bytes: seq<Byte>, n: nat)
    requires 5 * (n + 1) <= 8 * |bytes|
    ensures Digits(bytes, n + 1) == Digits(bytes, n) + [FiveBits(bytes, 5 * n)]
  {
    FiveBitsAreLastDigit(bytes, 5 * n);
  }

  /** The loop over the bit offsets, for any number of bytes. */
  method EncodePassword(bytes: seq<Byte>) returns (password: string)
    ensures |password| == Chars(|bytes|)
    ensures password == Spell(Digits(bytes, Chars(|bytes|)))
  {
    password := "";
    var chars := |bytes| * 8 / 5;
    for i := 0 to if chars < PASSWORD_CHARS then chars else PASSWORD_CHARS
      invariant password == Spell(Digits(bytes, i))
    {
      var val := FiveBits(bytes, i * 5);
      DigitsStep(bytes, i);
      password := password + [ALPHABET[val]];
    }
  }

  lemma OneMoreDigit(bytes: seq<Byte>, n: nat, k: nat)
    requires k == 5 * n && k + 5 <= 8 * |bytes| && Number(32, Digits(bytes, n)) == Top(bytes, k)
    ensures Number(32, Digits(bytes, n + 1)) == Top(bytes, k + 5)
  {
    DigitsStep(bytes, n);
    NumberAppend(32, Digits(bytes, n), FiveBits(bytes, k));
    FiveMore(bytes, k);
  }

  lemma NoBits(bytes: seq<Byte>)
    ensures Number(32, Digits(bytes, 0)) == 0 && Top(bytes, 0) == 0
  {
    assert bytes[..0] == [];
  }

  /** The digits, read in base 32, are the number formed by as many leading bits. */
  lemma {:induction false} DigitsAreTopBits(bytes: seq<Byte>, n: nat, k: nat)
    requires k == 5 * n && k <= 8 * |bytes|
    ensures Number(32, Digits(bytes, n)) == Top(bytes, k)
  {
    if n == 0 {
      NoBits(bytes);
    } else {
      DigitsAreTopBits(bytes, n - 1, k - 5);
      OneMoreDigit(bytes, n - 1, k - 5);
    }
  }

  /** 24 characters are the first 15 bytes in base 32. */
  lemma PasswordIsBaseConversion(bytes: seq<Byte>)
    requires |bytes| >= 15
    ensures Chars(|bytes|) == 24
    ensures Number(32, Digits(bytes, 24)) == Number(256, bytes[..15])
  {
    DigitsAreTopBits(bytes, 24, 120);
  }

  /** Numbers of one length in one base are equal only digit by digit. */
  lemma {:induction false} NumberInjective(base: nat, a: seq<nat>, b: seq<nat>)
    requires |a| == |b| && Number(base, a) == Number(base, b)
    requires forall i :: 0 <= i < |a| ==> a[i] < base && b[i] < base
    ensures a == b
  {
    if a != [] {
      var n := |a| - 1;
      LastDigit(base, Number(base, a[..n]), a[n], Number(base, b[..n]), b[n]);
      NumberInjective(base, a[..n], b[..n]);
      assert a == a[..n] + [a[n]] && b == b[..n] + [b[n]];
    }
  }

  lemma MoreIsMuchMore(base: nat, x: nat, y: nat)
    ensures x < y ==> x * base + base <= y * base
  {
    if x < y {
      MultiplyMonotone(base, x + 1, y);
      assert (x + 1) * base == x * base + base;
    }
  }

  lemma MultiplyMonotone(base: nat, x: nat, y: nat)
    requires x <= y
    ensures x * base <= y * base
  {
  }

  lemma LastDigit(base: nat, x: nat, d: nat, y: nat, e: nat)
    requires d < base && e < base && x * base + d == y * base + e
    ensures x == y && d == e
  {
    MoreIsMuchMore(base, x, y);
    MoreIsMuchMore(base, y, x);
  }

  /** The position of a letter in the alphabet. */
  function Position(c: char): int {
    if c <= '9' then c as int - '2' as int + 24
    else if c <= 'H' then c as int - 'A' as int
    else if c <= 'N' then c as int - 'A' as int - 1
    else c as int - 'A' as int - 2
  }

  lemma PositionOfLetter(d: Digit)
    ensures Position(ALPHABET[d]) == d
  {
  }

  lemma SpellInjective(a: seq<Digit>, b: seq<Digit>)
    requires Spell(a) == Spell(b)
    ensures a == b
  {
    assert |a| == |Spell(a)| == |Spell(b)| == |b|;
    forall i | 0 <= i < |a| ensures a[i] == b[i] {
      assert Spell(a)[i] == Spell(b)[i];
      PositionOfLetter(a[i]);
      PositionOfLetter(b[i]);
    }
  }

  /** Two seeds give one password exactly when their first 15 bytes agree; the rest is not used. */
  lemma SamePassword(a: seq<Byte>, b: seq<Byte>)
    requires |a| >= 15 && |b| >= 15
    ensures Spell(Digits(a, 24)) == Spell(Digits(b, 24)) <==> a[..15] == b[..15]
  {
    PasswordIsBaseConversion(a);
    PasswordIsBaseConversion(b);
    if Spell(Digits(a, 24)) == Spell(Digits(b, 24)) {
      SpellInjective(Digits(a, 24), Digits(b, 24));
      NumberInjective(256, a[..15], b[..15]);
    }
    if a[..15] == b[..15] {
      NumberInjective(32, Digits(a, 24), Digits(b, 24));
    }
  }
}
