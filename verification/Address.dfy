/**
 Addresses of the XDAG client: the first 24 bytes of a hash written as 32 letters of six bits each
 (xdaglib/client/address.c). A C string is the memory its pointer leads to, up to and past its NUL.
 */
module Address {
  import opened Bits
  import opened Options

  type digit = d: int | 0 <= d < 64
  type int32 = x: int | -0x8000_0000 <= x < 0x8000_0000

  /** The table bits2mime: A to Z, a to z, 0 to 9, plus and slash. */
  function Letter(d: digit): byte {
    if d < 26 then 65 + d
    else if d < 52 then 97 + d - 26
    else if d < 62 then 48 + d - 52
    else if d == 62 then 43
    else 47
  }

  /** What mime2bits holds: the digit of a letter, 0xFF for anything else. */
  function DigitOf(c: byte): (d: byte)
    ensures d < 64 ==> Letter(d) == c
    ensures d >= 64 ==> d == 255 && forall e: digit :: Letter(e) != c
  {
    if 65 <= c <= 90 then c - 65
    else if 97 <= c <= 122 then c - 97 + 26
    else if 48 <= c <= 57 then c - 48 + 52
    else if c == 43 then 62
    else if c == 47 then 63
    else 255
  }

  /** The letters, in their order. */
  lemma {:induction false} LetterIs(d: digit)
    ensures Letter(d) ==
      if d < 26 then 'A' as int + d else if d < 52 then 'a' as int + (d - 26)
      else if d < 62 then '0' as int + (d - 52) else if d == 62 then '+' as int else '/' as int
  {
  }

  lemma {:induction false} LettersDiffer(d: digit, e: digit)
    ensures Letter(d) == Letter(e) <==> d == e
    ensures DigitOf(Letter(d)) == d && Letter(d) != 0
  {
  }

  // ---- 24 bytes and 32 digits -----------------------------------------------------------------

  /** Digit `i`: three bytes make four digits. */
  function DigitAt(bytes: seq<byte>, i: nat): digit
    requires |bytes| == 24 && i < 32
  {
    var k := 3 * (i / 4);
    if i % 4 == 0 then bytes[k] / 4
    else if i % 4 == 1 then bytes[k] % 4 * 16 + bytes[k + 1] / 16
    else if i % 4 == 2 then bytes[k + 1] % 16 * 4 + bytes[k + 2] / 64
    else bytes[k + 2] % 64
  }

  function ByteAt(digits: seq<digit>, j: nat): byte
    requires j / 3 * 4 + j % 3 + 1 < |digits|
  {
    var k := j / 3 * 4 + j % 3;
    if j % 3 == 0 then digits[k] as int * 4 + digits[k + 1] / 16
    else if j % 3 == 1 then digits[k] as int % 16 * 16 + digits[k + 1] / 4
    else digits[k] as int % 4 * 64 + digits[k + 1]
  }

  function DigitsOf(bytes: seq<byte>): seq<digit>
    requires |bytes| == 24
  {
    seq(32, i requires 0 <= i < 32 => DigitAt(bytes, i))
  }

  function BytesOf(digits: seq<digit>): seq<byte>
    requires |digits| == 32
  {
    seq(24, j requires 0 <= j < 24 => ByteAt(digits, j))
  }

  lemma {:induction false} DigitGroup(bytes: seq<byte>, g: nat)
    requires |bytes| == 24 && g < 8
    ensures DigitAt(bytes, 4 * g) == bytes[3 * g] / 4
    ensures DigitAt(bytes, 4 * g + 1) == bytes[3 * g] % 4 * 16 + bytes[3 * g + 1] / 16
    ensures DigitAt(bytes, 4 * g + 2) == bytes[3 * g + 1] % 16 * 4 + bytes[3 * g + 2] / 64
    ensures DigitAt(bytes, 4 * g + 3) == bytes[3 * g + 2] % 64
  {
    assert 4 * g / 4 == g && (4 * g + 1) / 4 == g && (4 * g + 2) / 4 == g && (4 * g + 3) / 4 == g;
  }

  lemma {:induction false} ByteGroup(digits: seq<digit>, g: nat)
    requires 4 * g + 3 < |digits|
    ensures ByteAt(digits, 3 * g) == digits[4 * g] as int * 4 + digits[4 * g + 1] / 16
    ensures ByteAt(digits, 3 * g + 1) == digits[4 * g + 1] as int % 16 * 16 + digits[4 * g + 2] / 4
    ensures ByteAt(digits, 3 * g + 2) == digits[4 * g + 2] as int % 4 * 64 + digits[4 * g + 3]
  {
    assert 3 * g / 3 == g && (3 * g + 1) / 3 == g && (3 * g + 2) / 3 == g;
  }

  lemma {:induction false} ThreeBytesBack(b0: byte, b1: byte, b2: byte)
    ensures b0 / 4 * 4 + (b0 % 4 * 16 + b1 / 16) / 16 == b0
    ensures (b0 % 4 * 16 + b1 / 16) % 16 * 16 + (b1 % 16 * 4 + b2 / 64) / 4 == b1
    ensures (b1 % 16 * 4 + b2 / 64) % 4 * 64 + b2 % 64 == b2
  {
  }

  lemma {:induction false} FourDigitsBack(d0: digit, d1: digit, d2: digit, d3: digit)
    ensures (d0 as int * 4 + d1 / 16) / 4 == d0
    ensures (d0 as int * 4 + d1 / 16) % 4 * 16 + (d1 as int % 16 * 16 + d2 / 4) / 16 == d1
    ensures (d1 as int % 16 * 16 + d2 / 4) % 16 * 4 + (d2 as int % 4 * 64 + d3) / 64 == d2
    ensures (d2 as int % 4 * 64 + d3) % 64 == d3
  {
  }

  lemma {:induction false} DigitsBack(bytes: seq<byte>, g: nat)
    requires |bytes| == 24 && g < 8
    ensures ByteAt(DigitsOf(bytes), 3 * g) == bytes[3 * g]
    ensures ByteAt(DigitsOf(bytes), 3 * g + 1) == bytes[3 * g + 1]
    ensures ByteAt(DigitsOf(bytes), 3 * g + 2) == bytes[3 * g + 2]
  {
    DigitGroup(bytes, g);
    ByteGroup(DigitsOf(bytes), g);
    ThreeBytesBack(bytes[3 * g], bytes[3 * g + 1], bytes[3 * g + 2]);
  }

  lemma {:induction false} BytesBack(digits: seq<digit>, g: nat)
    requires |digits| == 32 && g < 8
    ensures DigitAt(BytesOf(digits), 4 * g) == digits[4 * g]
    ensures DigitAt(BytesOf(digits), 4 * g + 1) == digits[4 * g + 1]
    ensures DigitAt(BytesOf(digits), 4 * g + 2) == digits[4 * g + 2]
    ensures DigitAt(BytesOf(digits), 4 * g + 3) == digits[4 * g + 3]
  {
    DigitGroup(BytesOf(digits), g);
    ByteGroup(digits, g);
    FourDigitsBack(digits[4 * g], digits[4 * g + 1], digits[4 * g + 2], digits[4 * g + 3]);
  }

  /** The value of a numeral in base 64. */
  function Base64(digits: seq<digit>): nat {
    if digits == [] then 0 else Base64(digits[..|digits| - 1]) * 64 + digits[|digits| - 1]
  }

  /** The letters are the bytes, read as one number and written in base 64. */
  lemma {:induction false} SameNumber(bytes: seq<byte>, g: nat)
    requires |bytes| == 24 && g <= 8
    ensures Base64(DigitsOf(bytes)[..4 * g]) == BigEndian(bytes[..3 * g])
  {
    if g > 0 {
      SameNumber(bytes, g - 1);
      var k := 3 * (g - 1);
      BigEndianThree(bytes, k);
      Base64Four(DigitsOf(bytes), 4 * (g - 1));
      DigitGroup(bytes, g - 1);
      FourDigitsThreeBytes(bytes[k], bytes[k + 1], bytes[k + 2], BigEndian(bytes[..k]));
    }
  }

  lemma {:induction false} BigEndianThree(bytes: seq<byte>, k: nat)
    requires k + 2 < |bytes|
    ensures BigEndian(bytes[..k + 3]) ==
            ((BigEndian(bytes[..k]) * 256 + bytes[k]) * 256 + bytes[k + 1]) * 256 + bytes[k + 2]
  {
    BigEndianStep(bytes, k);
    BigEndianStep(bytes, k + 1);
    BigEndianStep(bytes, k + 2);
  }

  lemma {:induction false} Base64Four(digits: seq<digit>, i: nat)
    requires i + 3 < |digits|
    ensures Base64(digits[..i + 4])
         == (((Base64(digits[..i]) * 64 + digits[i]) * 64 + digits[i + 1]) * 64 + digits[i + 2]) * 64 + digits[i + 3]
  {
    Base64Step(digits, i);
    Base64Step(digits, i + 1);
    Base64Step(digits, i + 2);
    Base64Step(digits, i + 3);
  }

  lemma {:induction false} FourDigitsThreeBytes(b0: byte, b1: byte, b2: byte, n: nat)
    ensures (((n * 64 + b0 / 4) * 64 + b0 % 4 * 16 + b1 / 16) * 64 + b1 % 16 * 4 + b2 / 64) * 64 + b2 % 64
         == ((n * 256 + b0) * 256 + b1) * 256 + b2
  {
  }

  lemma {:induction false} BigEndianStep(bytes: seq<byte>, k: nat)
    requires k < |bytes|
    ensures BigEndian(bytes[..k + 1]) == BigEndian(bytes[..k]) * 256 + bytes[k]
  {
    assert bytes[..k + 1][..k] == bytes[..k];
  }

  lemma {:induction false} Base64Step(digits: seq<digit>, i: nat)
    requires i < |digits|
    ensures Base64(digits[..i + 1]) == Base64(digits[..i]) * 64 + digits[i]
  {
    assert digits[..i + 1][..i] == digits[..i];
  }

  // ---- strings --------------------------------------------------------------------------------

  /** The digits of the letters before the NUL; other characters are passed over. */
  function Digits(s: seq<byte>): seq<digit> {
    if s == [] || s[0] == 0 then []
    else (if DigitOf(s[0]) < 64 then [DigitOf(s[0]) as digit] else []) + Digits(s[1..])
  }

  /** The letters before the NUL. */
  function Letters(s: seq<byte>): seq<byte> {
    if s == [] || s[0] == 0 then []
    else (if DigitOf(s[0]) < 64 then [s[0]] else []) + Letters(s[1..])
  }

  function Spell(digits: seq<digit>): (s: seq<byte>)
    ensures |s| == |digits| && forall i | 0 <= i < |s| :: s[i] == Letter(digits[i])
  {
    seq(|digits|, i requires 0 <= i < |digits| => Letter(digits[i]))
  }

  lemma {:induction false} LettersAreDigits(s: seq<byte>)
    ensures Letters(s) == Spell(Digits(s))
  {
    if s != [] && s[0] != 0 {
      LettersAreDigits(s[1..]);
    }
  }

  lemma {:induction false} DigitsOfSpelling(digits: seq<digit>, rest: seq<byte>)
    ensures Digits(Spell(digits) + [0] + rest) == digits
  {
    var s := Spell(digits) + [0] + rest;
    if digits != [] {
      LettersDiffer(digits[0], digits[0]);
      assert s[1..] == Spell(digits[1..]) + [0] + rest;
      DigitsOfSpelling(digits[1..], rest);
    }
  }

  const EIGHT_ZEROS: seq<byte> := [0, 0, 0, 0, 0, 0, 0, 0]

  /** The hash an address stands for. */
  function Parse(s: seq<byte>): Option<seq<byte>> {
    if |Digits(s)| < 32 then None else Some(BytesOf(Digits(s)[..32]) + EIGHT_ZEROS)
  }

  /** The address of a hash, without its NUL. */
  function Print(hash: seq<byte>): seq<byte>
    requires |hash| == 32
  {
    Spell(DigitsOf(hash[..24]))
  }

  lemma {:induction false} ByteBackAt(bytes: seq<byte>, j: nat)
    requires |bytes| == 24 && j < 24
    ensures ByteAt(DigitsOf(bytes), j) == bytes[j]
  {
    DigitsBack(bytes, j / 3);
    assert j % 3 == 0 ==> j == 3 * (j / 3);
    assert j % 3 == 1 ==> j == 3 * (j / 3) + 1;
    assert j % 3 == 2 ==> j == 3 * (j / 3) + 2;
  }

  lemma {:induction false} DigitBackAt(digits: seq<digit>, i: nat)
    requires |digits| == 32 && i < 32
    ensures DigitAt(BytesOf(digits), i) == digits[i]
  {
    BytesBack(digits, i / 4);
    assert i % 4 == 0 ==> i == 4 * (i / 4);
    assert i % 4 == 1 ==> i == 4 * (i / 4) + 1;
    assert i % 4 == 2 ==> i == 4 * (i / 4) + 2;
    assert i % 4 == 3 ==> i == 4 * (i / 4) + 3;
  }

  lemma {:induction false} DigitsThenBytes(bytes: seq<byte>)
    requires |bytes| == 24
    ensures BytesOf(DigitsOf(bytes)) == bytes
  {
    forall j | 0 <= j < 24
      ensures BytesOf(DigitsOf(bytes))[j] == bytes[j]
    {
      ByteBackAt(bytes, j);
    }
  }

  lemma {:induction false} BytesThenDigits(digits: seq<digit>)
    requires |digits| == 32
    ensures DigitsOf(BytesOf(digits)) == digits
  {
    forall i | 0 <= i < 32
      ensures DigitsOf(BytesOf(digits))[i] == digits[i]
    {
      DigitBackAt(digits, i);
    }
  }

  /** Parsing a printed hash keeps its first 24 bytes and clears the others, whatever follows the NUL. */
  lemma {:induction false} ParseOfPrint(hash: seq<byte>, rest: seq<byte>)
    requires |hash| == 32
    ensures Parse(Print(hash) + [0] + rest) == Some(hash[..24] + EIGHT_ZEROS)
  {
    var ds := DigitsOf(hash[..24]);
    DigitsOfSpelling(ds, rest);
    assert ds[..32] == ds;
    DigitsThenBytes(hash[..24]);
  }

  /** Printing a parsed address gives its first 32 letters; parsing fails exactly when there are
      fewer. */
  lemma {:induction false} PrintOfParse(s: seq<byte>)
    ensures Parse(s) == None <==> |Letters(s)| < 32
    ensures Parse(s).Some? ==> |Parse(s).value| == 32 && Print(Parse(s).value) == Letters(s)[..32]
  {
    LettersAreDigits(s);
    if Parse(s).Some? {
      var ds := Digits(s)[..32];
      assert Parse(s).value[..24] == BytesOf(ds);
      BytesThenDigits(ds);
      assert Spell(ds) == Letters(s)[..32];
    }
  }

  // ---- 32-bit accumulators --------------------------------------------------------------------

  /** The register contents of a C int, and back. */
  function Word(x: int32): nat {
    if x < 0 then x + 0x1_0000_0000 else x
  }

  function Signed(w: nat): int32
    requires w < 0x1_0000_0000
  {
    if w >= 0x8000_0000 then w - 0x1_0000_0000 else w
  }

  lemma {:induction false} Pow2Of32()
    ensures Pow2(32) == 0x1_0000_0000
  {
    assert Pow2(8) == 256;
    assert Pow2(16) == 65536;
    assert Pow2(24) == 0x100_0000;
  }

  /** `a = (a << k) | b`, the bits shifted out of the register lost. */
  function ShiftIn(a: int32, k: nat, b: byte): int32 {
    Pow2Of32();
    LowBound(Shl(Word(a), k), 32);
    OrBound(Low(Shl(Word(a), k), 32), b, 32);
    Signed(Or(Low(Shl(Word(a), k), 32), b))
  }

  /** `a >> k`, which copies the sign. */
  function ShiftOut(a: int32, k: nat): int {
    a / Pow2(k)
  }

  /** What a C conversion to uint8_t leaves of `x`. */
  function LowByte(x: int): byte {
    x % 256
  }

  lemma {:induction false} OrAdds(a: nat, b: nat, k: nat)
    requires b < Pow2(k)
    ensures Or(a * Pow2(k), b) == a * Pow2(k) + b
    decreases k
  {
    if k == 0 {
      OrZero(a);
    } else {
      var p := Pow2(k - 1);
      Distribute(a, p);
      OrAdds(a, b / 2, k - 1);
      assert Or(a * Pow2(k), b) == 2 * Or(a * p, b / 2) + b % 2;
    }
  }

  lemma {:induction false} OrZero(a: nat)
    ensures Or(a, 0) == a
  {
    if a > 0 {
      OrZero(a / 2);
    }
  }

  lemma {:induction false} LowPart(x: int32, m: nat, k: nat)
    requires m > 0 && m * k == 0x1_0000_0000
    ensures x % m == Word(x) % m
  {
    if x < 0 {
      var q := Word(x) / m;
      assert (q - k) * m == q * m - k * m;
      ModUnique(x, m, q - k, Word(x) % m);
    }
  }

  lemma {:induction false} ShiftedPast(w: nat, p: nat, m: nat)
    requires p > 0 && m > 0
    ensures w * p % (p * m) == w % m * p
  {
    var q, r := w / m, w % m;
    ShiftedSplit(q, m, r, p);
    Smaller(r, m, p);
    ModUnique(w * p, p * m, q, r * p);
  }

  lemma {:induction false} ShiftedSplit(q: int, m: int, r: int, p: int)
    ensures (q * m + r) * p == q * (p * m) + r * p
  {
  }

  lemma {:induction false} Smaller(r: nat, m: nat, p: nat)
    requires r < m
    ensures 0 <= r * p <= p * m - p
  {
    assert (m - r - 1) * p == m * p - r * p - p;
    assert (m - r - 1) * p >= 0;
  }

  lemma {:induction false} RegisterKeeps(w: nat, k: nat, m: nat, b: byte)
    requires b < Pow2(k) && m > 0 && Pow2(k) * m == 0x1_0000_0000
    ensures Or(Low(Shl(w, k), 32), b) == w % m * Pow2(k) + b < 0x1_0000_0000
  {
    ShlIsTimes(w, k);
    Pow2Of32();
    LowIsMod(w * Pow2(k), 32);
    ShiftedPast(w, Pow2(k), m);
    Smaller(w % m, m, Pow2(k));
    OrAdds(w % m, b, k);
  }

  lemma {:induction false} Powers24()
    ensures Pow2(24) == 0x100_0000 && Pow2(26) == 0x400_0000
  {
    assert Pow2(8) == 256;
    assert Pow2(16) == 65536;
  }

  lemma {:induction false} LowOfJoined(w: nat, s: nat, n: nat, b: nat)
    requires s > 0 && n > 0 && b < s
    ensures (w % (s * s * n) * s + b) % s == b
    ensures (w % (s * s * n) * s + b) % (s * s) == w % s * s + b
  {
    var v := w % (s * s * n);
    ModUnique(v * s + b, s, v, b);
    assert s * s * n == s * (s * n);
    ModOfMod(w, s * s * n, s, s * n);
    ShiftedSplit(v / s, s, v % s, s);
    Smaller(v % s, s, s);
    ModUnique(v * s + b, s * s, v / s, v % s * s + b);
  }

  lemma {:induction false} Regroup(q: int, s: int, n: int, t: int)
    ensures q * (s * n) + t * s == (q * n + t) * s
  {
  }

  lemma {:induction false} ModOfMod(w: nat, m: nat, s: nat, n: nat)
    requires m == s * n && s > 0 && n > 0
    ensures w % m % s == w % s
  {
    var q, r := w / m, w % m;
    Regroup(q, s, n, r / s);
    ModUnique(w, s, q * n + r / s, r % s);
  }

  /** Whatever was in the accumulator before, its low bits after a step are the last two pieces. */
  lemma {:induction false} ShiftIn6(e: int32, d: digit)
    ensures ShiftIn(e, 6, d) % 64 == d
    ensures ShiftIn(e, 6, d) % 4096 == e % 64 * 64 + d
  {
    SmallPowers();
    Powers24();
    RegisterKeeps(Word(e), 6, 0x400_0000, d);
    LowOfJoined(Word(e), 64, 0x4000, d);
    LowPart(e, 64, 0x400_0000);
    LowPart(ShiftIn(e, 6, d), 64, 0x400_0000);
    LowPart(ShiftIn(e, 6, d), 4096, 0x10_0000);
  }

  lemma {:induction false} ShiftIn8(c: int32, b: byte)
    ensures ShiftIn(c, 8, b) % 256 == b
    ensures ShiftIn(c, 8, b) % 65536 == c % 256 * 256 + b
  {
    SmallPowers();
    Powers24();
    RegisterKeeps(Word(c), 8, 0x100_0000, b);
    LowOfJoined(Word(c), 256, 256, b);
    LowPart(c, 256, 0x100_0000);
    LowPart(ShiftIn(c, 8, b), 256, 0x100_0000);
    LowPart(ShiftIn(c, 8, b), 65536, 0x1_0000);
  }

  // ---- the code -------------------------------------------------------------------------------

  /** Bits left over in the accumulator once `i` digits have been read. */
  function LeftOver(i: nat): nat {
    if i % 4 == 0 then 0 else 8 - 2 * (i % 4)
  }

  /** Bytes complete once `i` digits have been read. */
  function Complete(i: nat): nat {
    if i % 4 == 0 then 3 * (i / 4) else 3 * (i / 4) + i % 4 - 1
  }

  lemma {:induction false} PiecesOf(x: int, r: nat)
    requires x % 4096 == r
    ensures x % 256 == r % 256 && x / 4 % 256 == r / 4 % 256 && x / 16 % 256 == r / 16 % 256
  {
    var q := x / 4096;
    ModUnique(x, 256, 16 * q + r / 256, r % 256);
    ModUnique(x, 4, 1024 * q + r / 4, r % 4);
    ModUnique(x / 4, 256, 4 * q + r / 4 / 256, r / 4 % 256);
    ModUnique(x, 16, 256 * q + r / 16, r % 16);
    ModUnique(x / 16, 256, q + r / 16 / 256, r / 16 % 256);
  }

  lemma {:induction false} Pieces(d0: digit, d1: digit)
    ensures (d0 as int * 64 + d1) / 16 % 256 == d0 as int * 4 + d1 / 16
    ensures (d0 as int * 64 + d1) / 4 % 256 == d0 as int % 16 * 16 + d1 / 4
    ensures (d0 as int * 64 + d1) % 256 == d0 as int % 4 * 64 + d1
  {
    var a, b := d0 as int, d1 as int;
    ModUnique(a * 64 + b, 16, a * 4 + b / 16, b % 16);
    ModUnique(a * 64 + b, 4, a * 16 + b / 4, b % 4);
    ModUnique(a * 16 + b / 4, 256, a / 16, a % 16 * 16 + b / 4);
    ModUnique(a * 64 + b, 256, a / 4, a % 4 * 64 + b);
  }

  lemma {:induction false} Progress(g: nat)
    ensures LeftOver(4 * g) == 0 && Complete(4 * g) == 3 * g
    ensures LeftOver(4 * g + 1) == 6 && Complete(4 * g + 1) == 3 * g
    ensures LeftOver(4 * g + 2) == 4 && Complete(4 * g + 2) == 3 * g + 1
    ensures LeftOver(4 * g + 3) == 2 && Complete(4 * g + 3) == 3 * g + 2
    ensures LeftOver(4 * g + 4) == 0 && Complete(4 * g + 4) == 3 * g + 3
  {
    assert 4 * g / 4 == g && (4 * g + 1) / 4 == g && (4 * g + 2) / 4 == g && (4 * g + 3) / 4 == g;
    assert (4 * g + 4) / 4 == g + 1;
  }

  lemma {:induction false} ByteOf(digits: seq<digit>, g: nat, r: nat)
    requires 1 <= r <= 3 && 4 * g + r < |digits|
    ensures (3 * g + r - 1) / 3 * 4 + (3 * g + r - 1) % 3 + 1 == 4 * g + r
    ensures var d0, d1 := digits[4 * g + r - 1] as int, digits[4 * g + r];
      ByteAt(digits, 3 * g + r - 1) ==
      if r == 1 then d0 * 4 + d1 / 16 else if r == 2 then d0 % 16 * 16 + d1 / 4 else d0 % 4 * 64 + d1
  {
    assert (3 * g + r - 1) / 3 == g && (3 * g + r - 1) % 3 == r - 1;
  }

  lemma {:induction false} LowByteOf(e: int32, d0: digit, d1: digit)
    requires e % 4096 == d0 as int * 64 + d1
    ensures LowByte(ShiftOut(e, 4)) == d0 as int * 4 + d1 / 16
    ensures LowByte(ShiftOut(e, 2)) == d0 as int % 16 * 16 + d1 / 4
    ensures LowByte(ShiftOut(e, 0)) == d0 as int % 4 * 64 + d1
  {
    SmallPowers();
    PiecesOf(e, e % 4096);
    Pieces(d0, d1);
  }

  /** The byte that leaves the accumulator when the digit `digits[i]` has come in. */
  lemma {:induction false} ByteLeaves(e: int32, digits: seq<digit>, i: nat)
    requires i < |digits| && i % 4 != 0
    requires e % 4096 == digits[i - 1] as int * 64 + digits[i]
    ensures LeftOver(i + 1) == LeftOver(i) + 6 - 8
    ensures Complete(i + 1) == Complete(i) + 1
    ensures Complete(i) / 3 * 4 + Complete(i) % 3 + 1 == i
    ensures LowByte(ShiftOut(e, LeftOver(i + 1))) == ByteAt(digits, Complete(i))
  {
    var g, r := i / 4, i % 4;
    Progress(g);
    ByteOf(digits, g, r);
    LowByteOf(e, digits[i - 1], digits[i]);
  }

  lemma {:induction false} NoByteLeaves(i: nat)
    requires i % 4 == 0
    ensures LeftOver(i) == 0 && LeftOver(i + 1) == 6 && Complete(i + 1) == Complete(i)
  {
    Progress(i / 4);
  }

  /** Byte `j` is complete once `i` digits have been read. */
  predicate Written(i: nat, j: nat) {
    j / 3 * 4 + j % 3 + 1 < i
  }

  lemma {:induction false} WrittenNext(i: nat, j: nat)
    ensures Written(i + 1, j) <==> Written(i, j) || (i % 4 != 0 && j == Complete(i))
  {
    var g, r := i / 4, i % 4;
    Progress(g);
    if r != 0 {
      ModUnique(3 * g + r - 1, 3, g, r - 1);
    }
    if j / 3 * 4 + j % 3 + 1 == i {
      ModUnique(i, 4, j / 3, j % 3 + 1);
    }
  }

  /** What the accumulator of the printer has to hold to give digit `i`, and for how many bits. */
  predicate Loaded(c: int32, d: nat, bytes: seq<byte>, i: nat)
    requires |bytes| == 24 && i < 32
  {
    var k := 3 * (i / 4);
    if i % 4 == 0 then d == 8 && c % 256 == bytes[k]
    else if i % 4 == 1 then d == 10 && c % 65536 == bytes[k] as int * 256 + bytes[k + 1]
    else if i % 4 == 2 then d == 12 && c % 65536 == bytes[k + 1] as int * 256 + bytes[k + 2]
    else d == 6 && c % 256 == bytes[k + 2]
  }

  /** The accumulator of the printer before digit `i`: the last byte taken, for the bits not used yet. */
  predicate Between(c: int32, d: nat, fld: nat, bytes: seq<byte>, i: nat)
    requires |bytes| == 24 && i <= 32
  {
    && d == 2 * (i % 4) && fld == 3 * (i / 4) + i % 4
    && (i % 4 != 0 ==> c % 256 == bytes[fld - 1])
  }

  lemma {:induction false} Loads(c: int32, d: nat, fld: nat, bytes: seq<byte>, i: nat)
    requires |bytes| == 24 && i < 32 && Between(c, d, fld, bytes, i)
    ensures d < 6 <==> i % 4 != 3
    ensures d < 6 ==> fld < 24
    ensures d < 6 ==> Loaded(ShiftIn(c, 8, bytes[fld]), d + 8, bytes, i)
    ensures d < 6 ==> Between(ShiftIn(c, 8, bytes[fld]), d + 2, fld + 1, bytes, i + 1)
    ensures d >= 6 ==> Loaded(c, d, bytes, i) && Between(c, d - 6, fld, bytes, i + 1)
  {
    if d < 6 {
      assert (i + 1) / 4 == i / 4 && (i + 1) % 4 == i % 4 + 1;
      ShiftIn8(c, bytes[fld]);
    } else {
      assert (i + 1) / 4 == i / 4 + 1 && (i + 1) % 4 == 0;
    }
  }

  lemma {:induction false} SixteenBits(x: int, r: nat)
    requires x % 65536 == r
    ensures x / 16 % 64 == r / 16 % 64 && x / 64 % 64 == r / 64 % 64
  {
    var q := x / 65536;
    ModUnique(x, 16, 4096 * q + r / 16, r % 16);
    ModUnique(x / 16, 64, 64 * q + r / 16 / 64, r / 16 % 64);
    ModUnique(x, 64, 1024 * q + r / 64, r % 64);
    ModUnique(x / 64, 64, 16 * q + r / 64 / 64, r / 64 % 64);
  }

  lemma {:induction false} EightBits(x: int, r: nat)
    requires x % 256 == r
    ensures x % 64 == r % 64 && x / 4 % 64 == r / 4
  {
    var q := x / 256;
    ModUnique(x, 64, 4 * q + r / 64, r % 64);
    ModUnique(x, 4, 64 * q + r / 4, r % 4);
    ModUnique(x / 4, 64, q, r / 4);
  }

  lemma {:induction false} TwoBytes(b0: byte, b1: byte)
    ensures (b0 as int * 256 + b1) / 16 % 64 == b0 % 4 * 16 + b1 / 16
    ensures (b0 as int * 256 + b1) / 64 % 64 == b0 % 16 * 4 + b1 / 64
  {
    var a, b := b0 as int, b1 as int;
    ModUnique(a * 256 + b, 16, a * 16 + b / 16, b % 16);
    ModUnique(a * 16 + b / 16, 64, a / 4, a % 4 * 16 + b / 16);
    ModUnique(a * 256 + b, 64, a * 4 + b / 64, b % 64);
    ModUnique(a * 4 + b / 64, 64, a / 16, a % 16 * 4 + b / 64);
  }

  lemma {:induction false} DigitLeaves(c: int32, d: nat, bytes: seq<byte>, i: nat)
    requires |bytes| == 24 && i < 32 && Loaded(c, d, bytes, i)
    ensures ShiftOut(c, d - 6) % 64 == DigitAt(bytes, i)
  {
    var k := 3 * (i / 4);
    SmallPowers();
    if i % 4 == 0 || i % 4 == 3 {
      EightBits(c, c % 256);
    } else {
      SixteenBits(c, c % 65536);
      TwoBytes(bytes[k], bytes[k + 1]);
      TwoBytes(bytes[k + 1], bytes[k + 2]);
    }
  }

  /** `rows` are the four static buffers, `k` the number of calls so far. */
  function AfterPrint(rows: seq<seq<byte>>, k: nat, hash: seq<byte>): seq<seq<byte>>
    requires |rows| == 4 && |hash| == 32
  {
    rows[k % 4 := Print(hash) + [0]]
  }

  function AfterPrints(rows: seq<seq<byte>>, k: nat, hashes: seq<seq<byte>>): (r: seq<seq<byte>>)
    requires |rows| == 4 && forall h | h in hashes :: |h| == 32
    ensures |r| == 4
    decreases |hashes|
  {
    if hashes == [] then rows
    else AfterPrints(AfterPrint(rows, k, hashes[0]), k + 1, hashes[1..])
  }

  lemma {:induction false} OtherRowsStay(rows: seq<seq<byte>>, k: nat, hashes: seq<seq<byte>>, j: nat)
    requires |rows| == 4 && |hashes| <= 4 && forall h | h in hashes :: |h| == 32
    requires j < 4 && forall i | k <= i < k + |hashes| :: i % 4 != j
    ensures AfterPrints(rows, k, hashes)[j] == rows[j]
    decreases |hashes|
  {
    if hashes != [] {
      OtherRowsStay(AfterPrint(rows, k, hashes[0]), k + 1, hashes[1..], j);
    }
  }

  /** What a call returned stays for the next three calls; the fourth puts another address there. */
  lemma {:induction false} StaysForThree(rows: seq<seq<byte>>, k: nat, hash: seq<byte>, more: seq<seq<byte>>)
    requires |rows| == 4 && |hash| == 32 && |more| <= 4 && forall h | h in more :: |h| == 32
    ensures AfterPrints(rows, k, [hash] + more)[k % 4]
         == (if |more| <= 3 then Print(hash) else Print(more[3])) + [0]
  {
    var rows1 := AfterPrint(rows, k, hash);
    assert ([hash] + more)[1..] == more;
    if |more| <= 3 {
      OtherRowsStay(rows1, k + 1, more, k % 4);
    } else {
      var rows2 := AfterPrint(rows1, k + 1, more[0]);
      var rows3 := AfterPrint(rows2, k + 2, more[1]);
      var rows4 := AfterPrint(rows3, k + 3, more[2]);
      assert more[1..][1..] == more[2..] && more[2..][1..] == more[3..] && more[3..][1..] == [];
      assert AfterPrints(rows1, k + 1, more) == AfterPrints(rows2, k + 2, more[1..]);
      assert AfterPrints(rows2, k + 2, more[1..]) == AfterPrints(rows3, k + 3, more[2..]);
      assert AfterPrints(rows3, k + 3, more[2..]) == AfterPrints(rows4, k + 4, more[3..]);
      assert AfterPrints(rows4, k + 4, more[3..]) == AfterPrint(rows4, k + 4, more[3]);
    }
  }

  /** The bytes complete after `i` digits are written, the others as they were. */
  ghost predicate SoFar(now: seq<byte>, was: seq<byte>, digits: seq<digit>, i: nat)
    requires |now| == |was| == 32 && i <= |digits|
  {
    forall j | 0 <= j < 32 :: now[j] == if Written(i, j) then ByteAt(digits, j) else was[j]
  }

  lemma {:induction false} SoFarNext(now: seq<byte>, was: seq<byte>, digits: seq<digit>, i: nat, e: int32)
    requires |now| == |was| == 32 && i < |digits| && i < 32
    requires SoFar(now, was, digits, i)
    requires e % 64 == digits[i] && (i > 0 ==> e % 4096 == digits[i - 1] as int * 64 + digits[i])
    ensures LeftOver(i) < 8 && Complete(i) < 24
    ensures if i % 4 == 0 then
        LeftOver(i + 1) == LeftOver(i) + 6 < 8 && Complete(i + 1) == Complete(i) && SoFar(now, was, digits, i + 1)
      else
        LeftOver(i + 1) == LeftOver(i) + 6 - 8 && Complete(i + 1) == Complete(i) + 1
        && SoFar(now[Complete(i) := LowByte(ShiftOut(e, LeftOver(i + 1)))], was, digits, i + 1)
  {
    forall j | 0 <= j < 32 ensures Written(i + 1, j) <==> Written(i, j) || (i % 4 != 0 && j == Complete(i)) {
      WrittenNext(i, j);
    }
    if i % 4 == 0 {
      NoByteLeaves(i);
    } else {
      ByteLeaves(e, digits, i);
    }
  }

  function RowsOf(s: seq<byte>): (rows: seq<seq<byte>>)
    requires |s| == 132
    ensures |rows| == 4
  {
    seq(4, b requires 0 <= b < 4 => s[33 * b..33 * b + 33])
  }

  /** `text` is in buffer `b` up to its `i`th character, and nothing else has changed. */
  ghost predicate Typed(now: seq<byte>, was: seq<byte>, b: nat, text: seq<byte>, i: nat)
    requires |now| == |was| == 132 && b < 4 && |text| == 33 && i <= 33
  {
    && now[33 * b..33 * b + i] == text[..i]
    && now[..33 * b] == was[..33 * b] && now[33 * b + 33..] == was[33 * b + 33..]
  }

  lemma {:induction false} TypedNext(now: seq<byte>, was: seq<byte>, b: nat, text: seq<byte>, i: nat)
    requires |now| == |was| == 132 && b < 4 && |text| == 33 && i < 33
    requires Typed(now, was, b, text, i)
    ensures Typed(now[33 * b + i := text[i]], was, b, text, i + 1)
  {
    var next := now[33 * b + i := text[i]];
    assert next[33 * b..33 * b + i + 1] == now[33 * b..33 * b + i] + [text[i]];
    assert next[..33 * b] == now[..33 * b] && next[33 * b + 33..] == now[33 * b + 33..];
  }

  lemma {:induction false} RowKept(now: seq<byte>, was: seq<byte>, b: nat, i: nat)
    requires |now| == |was| == 132 && b < 4 && i < 4 && i != b
    requires now[..33 * b] == was[..33 * b] && now[33 * b + 33..] == was[33 * b + 33..]
    ensures now[33 * i..33 * i + 33] == was[33 * i..33 * i + 33]
  {
    if i < b {
      assert now[33 * i..33 * i + 33] == now[..33 * b][33 * i..33 * i + 33];
      assert was[33 * i..33 * i + 33] == was[..33 * b][33 * i..33 * i + 33];
    } else {
      var off := 33 * (i - b - 1);
      assert now[33 * i..33 * i + 33] == now[33 * b + 33..][off..off + 33];
      assert was[33 * i..33 * i + 33] == was[33 * b + 33..][off..off + 33];
    }
  }

  lemma {:induction false} OneRowWritten(now: seq<byte>, was: seq<byte>, b: nat, text: seq<byte>)
    requires |now| == |was| == 132 && b < 4 && |text| == 33
    requires Typed(now, was, b, text, 33)
    ensures RowsOf(now) == RowsOf(was)[b := text]
  {
    assert text[..33] == text;
    forall i | 0 <= i < 4
      ensures RowsOf(now)[i] == RowsOf(was)[b := text][i]
    {
      if i != b {
        RowKept(now, was, b, i);
      }
    }
  }

  /** Where address2hash is after `i` digits, `s` the memory its pointer now leads to. */
  ghost predicate Scanned(s: seq<byte>, all: seq<digit>, i: nat, e: int32, n: nat, fld: nat) {
    && i <= |all| && Digits(s) == all[i..]
    && (0 in s || |all| >= 32)
    && (i > 0 ==> e % 64 == all[i - 1])
    && n == LeftOver(i) && fld == Complete(i)
  }

  lemma {:induction false} ScannedNext(s: seq<byte>, s': seq<byte>, all: seq<digit>, i: nat, d: digit,
                                       e: int32, n: nat, fld: nat, now: seq<byte>, was: seq<byte>)
    requires Scanned(s, all, i, e, n, fld) && i < 32
    requires Digits(s) == [d] + Digits(s') && (0 in s ==> 0 in s')
    requires |now| == |was| == 32 && SoFar(now, was, all, i)
    ensures i < |all| && fld < 32
    ensures var e' := ShiftIn(e, 6, d);
      if n + 6 >= 8 then
        Scanned(s', all, i + 1, e', n + 6 - 8, fld + 1)
        && SoFar(now[fld := LowByte(ShiftOut(e', n + 6 - 8))], was, all, i + 1)
      else
        Scanned(s', all, i + 1, e', n + 6, fld) && SoFar(now, was, all, i + 1)
  {
    assert all[i..][0] == d && all[i + 1..] == all[i..][1..];
    ShiftIn6(e, d);
    SoFarNext(now, was, all, i, ShiftIn(e, 6, d));
  }

  lemma {:induction false} RanOut(address: seq<byte>, s: seq<byte>, i: nat, e: int32, n: nat, fld: nat)
    requires Scanned(s, Digits(address), i, e, n, fld) && i < 32 && Digits(s) == []
    ensures i == |Digits(address)| && Parse(address) == None
  {
  }

  lemma {:induction false} AllWritten(now: seq<byte>, was: seq<byte>, address: seq<byte>)
    requires |now| == |was| == 32 && 32 <= |Digits(address)| && SoFar(now, was, Digits(address), 32)
    ensures Parse(address) == Some(now[..24] + EIGHT_ZEROS) && Complete(32) == 24
  {
    var digits := Digits(address);
    forall j | 0 <= j < 24
      ensures now[j] == BytesOf(digits[..32])[j]
    {
      assert j / 3 <= 7;
      assert Written(32, j);
    }
    assert now[..24] == BytesOf(digits[..32]);
  }

  class Coder {
    const mime2bits: array<byte>
    const bufs: array<byte> // static char bufs[4][33]
    var k: nat

    ghost predicate Valid()
      reads this, mime2bits
    {
      && mime2bits.Length == 256 && bufs.Length == 132 && mime2bits != bufs
      && forall c: byte :: mime2bits[c] == DigitOf(c)
    }

    /** The four buffers. */
    ghost function Rows(): seq<seq<byte>>
      reads bufs
      requires bufs.Length == 132
    {
      RowsOf(bufs[..])
    }

    constructor ()
      ensures fresh(mime2bits) && fresh(bufs) && mime2bits != bufs
      ensures mime2bits.Length == 256 && bufs.Length == 132 && k == 0
    {
      mime2bits := new byte[256](_ => 0);
      bufs := new byte[132](_ => 0);
      k := 0;
    }

    method Init()
      requires mime2bits.Length == 256 && bufs.Length == 132 && mime2bits != bufs
      modifies mime2bits
      ensures Valid()
    {
      forall c | 0 <= c < 256 {
        mime2bits[c] := 0xFF;
      }
      for i := 0 to 64
        invariant forall c: byte :: mime2bits[c] == if DigitOf(c) < i then DigitOf(c) else 255
      {
        LettersDiffer(i, i);
        mime2bits[Letter(i)] := i;
      }
    }

    /** The next letter's digit, unless the NUL comes first. */
    method NextDigit(address: seq<byte>) returns (found: bool, rest: seq<byte>, d: byte)
      requires Valid()
      requires 0 in address || Digits(address) != []
      ensures found <==> Digits(address) != []
      ensures found ==> d < 64 && Digits(address) == [d as digit] + Digits(rest)
      ensures found && 0 in address ==> 0 in rest
    {
      rest := address;
      while true
        invariant Digits(rest) == Digits(address)
        invariant 0 in rest || Digits(rest) != []
        invariant 0 in address ==> 0 in rest
        decreases |rest|
      {
        var c := rest[0];
        rest := rest[1..];
        if c == 0 {
          return false, rest, 0;
        }
        d := mime2bits[c];
        if d / 64 % 4 == 0 {
          return true, rest, d;
        }
      }
    }

    /** -1 with some of the hash overwritten when the letters run out, else 0. */
    method AddressToHash(address: seq<byte>, hash: array<byte>) returns (ret: int)
      requires Valid() && hash.Length == 32 && hash != mime2bits
      requires 0 in address || |Digits(address)| >= 32
      modifies hash
      ensures ret == 0 || ret == -1
      ensures ret == 0 ==> Parse(address) == Some(hash[..])
      ensures ret == -1 ==> Parse(address) == None
      ensures ret == -1 ==> SoFar(hash[..], old(hash[..]), Digits(address), |Digits(address)|)
    {
      ghost var all := Digits(address);
      ghost var was := hash[..];
      var ptr := address;
      var fld: nat, n: nat := 0, 0;
      var e: int32 := 0;
      for i := 0 to 32
        invariant Scanned(ptr, all, i, e, n, fld)
        invariant SoFar(hash[..], was, all, i)
      {
        var found, rest, d := NextDigit(ptr);
        if !found {
          RanOut(address, ptr, i, e, n, fld);
          return -1;
        }
        e, n, fld := TakeDigit(hash, d, e, n, fld, ptr, rest, all, i, was);
        ptr := rest;
      }
      AllWritten(hash[..], was, address);
      ClearTail(hash, fld);
      return 0;
    }

    /** A digit goes into the accumulator, and a byte out of it when there is one. */
    method TakeDigit(hash: array<byte>, d: byte, e: int32, n: nat, fld: nat,
                     ghost ptr: seq<byte>, ghost rest: seq<byte>, ghost all: seq<digit>, ghost i: nat,
                      ghost was: seq<byte>)
      returns (e': int32, n': nat, fld': nat)
      requires hash.Length == |was| == 32 && i < 32 && d < 64
      requires Scanned(ptr, all, i, e, n, fld) && SoFar(hash[..], was, all, i)
      requires Digits(ptr) == [d as digit] + Digits(rest) && (0 in ptr ==> 0 in rest)
      modifies hash
      ensures Scanned(rest, all, i + 1, e', n', fld') && SoFar(hash[..], was, all, i + 1)
    {
      ghost var now := hash[..];
      ScannedNext(ptr, rest, all, i, d, e, n, fld, now, was);
      e' := ShiftIn(e, 6, d);
      n', fld' := n + 6, fld;
      if n' >= 8 {
        n' := n' - 8;
        hash[fld] := LowByte(ShiftOut(e', n'));
        assert hash[..] == now[fld := LowByte(ShiftOut(e', n'))];
        fld' := fld + 1;
      }
    }

    /** The last loop of address2hash. */
    method ClearTail(hash: array<byte>, from: nat)
      requires hash.Length == 32 && from == 24
      modifies hash
      ensures hash[..] == old(hash[..24]) + EIGHT_ZEROS
    {
      var fld := from;
      for i := 0 to 8
        invariant fld == 24 + i && hash[..24] == old(hash[..24])
        invariant forall j | 24 <= j < fld :: hash[j] == 0
      {
        hash[fld] := 0;
        fld := fld + 1;
      }
      assert hash[..] == hash[..24] + EIGHT_ZEROS;
    }

    /** The result is the number of the buffer the pointer leads to. */
    method HashToAddress(hash: array<byte>) returns (buf: nat)
      requires Valid() && hash.Length == 32 && hash != bufs
      modifies this`k, bufs
      ensures buf == old(k) % 4 && k == old(k) + 1
      ensures Rows() == AfterPrint(old(Rows()), old(k), hash[..])
    {
      ghost var was, h := bufs[..], hash[..];
      ghost var bytes, text := h[..24], Print(h) + [0];
      buf := k % 4;
      k := k + 1;
      var ptr: nat, fld: nat, d: nat := 33 * buf, 0, 0;
      var c: int32 := 0;
      for i := 0 to 32
        invariant k == old(k) + 1 && ptr == 33 * buf + i
        invariant Between(c, d, fld, bytes, i)
        invariant hash[..] == h
        invariant Typed(bufs[..], was, buf, text, i)
      {
        Loads(c, d, fld, bytes, i);
        if d < 6 {
          d := d + 8;
          c := ShiftIn(c, 8, hash[fld]);
          fld := fld + 1;
        }
        DigitLeaves(c, d, bytes, i);
        TypedNext(bufs[..], was, buf, text, i);
        d := d - 6;
        bufs[ptr] := Letter(ShiftOut(c, d) % 64);
        ptr := ptr + 1;
      }
      TypedNext(bufs[..], was, buf, text, 32);
      bufs[ptr] := 0;
      OneRowWritten(bufs[..], was, buf, text);
    }
  }
}
