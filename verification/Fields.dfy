/** Two- and three-byte big-endian fields: the macros s2n, n2s, l2n3 and n2l3. */
module Fields {
  import opened Bits

  function Put3(x: nat): (r: seq<byte>)
    ensures |r| == 3
  {
    [(x / 0x1_0000) % 256, (x / 256) % 256, x % 256]
  }

  function Put2(x: nat): (r: seq<byte>)
    ensures |r| == 2
  {
    [(x / 256) % 256, x % 256]
  }

  function Get3(s: seq<byte>, at: nat): nat
    requires at + 3 <= |s|
  {
    s[at] as int * 0x1_0000 + s[at + 1] as int * 256 + s[at + 2]
  }

  function Get2(s: seq<byte>, at: nat): nat
    requires at + 2 <= |s|
  {
    s[at] as int * 256 + s[at + 1]
  }

  lemma {:induction false} LowPart(x: nat, m: nat)
    requires m > 0
    ensures x % m == x <==> x < m
  {
    if x < m {
      ModUnique(x, m, 0, x);
    }
  }

  lemma {:induction false} Digits(x: nat)
    ensures x % 0x1_0000 == (x / 256) % 256 * 256 + x % 256
    ensures x % 0x100_0000 == (x / 0x1_0000) % 256 * 0x1_0000 + (x / 256) % 256 * 256 + x % 256
  {
    var y := x / 256;
    var z := y / 256;
    ModUnique(x, 0x1_0000, z, y % 256 * 256 + x % 256);
    ModUnique(x, 0x100_0000, z / 256, z % 256 * 0x1_0000 + y % 256 * 256 + x % 256);
  }

  /** What fits a field comes back, and only the low part of what does not. */
  lemma {:induction false} Field3(s: seq<byte>, at: nat, x: nat)
    requires at + 3 <= |s| && s[at..at + 3] == Put3(x)
    ensures Get3(s, at) == x % 0x100_0000
  {
    assert s[at] == s[at..at + 3][0] && s[at + 1] == s[at..at + 3][1] && s[at + 2] == s[at..at + 3][2];
    Digits(x);
  }

  lemma {:induction false} Field2(s: seq<byte>, at: nat, x: nat)
    requires at + 2 <= |s| && s[at..at + 2] == Put2(x)
    ensures Get2(s, at) == x % 0x1_0000
  {
    assert s[at] == s[at..at + 2][0] && s[at + 1] == s[at..at + 2][1];
    Digits(x);
  }

  lemma {:induction false} FieldDigits(a: byte, b: byte, c: byte)
    ensures var x: nat := a as int * 0x1_0000 + b as int * 256 + c;
            (x / 0x1_0000) % 256 == a && (x / 256) % 256 == b && x % 256 == c
  {
    var x: nat := a as int * 0x1_0000 + b as int * 256 + c;
    assert x / 256 == a as int * 256 + b;
    assert x / 0x1_0000 == a;
  }

  /** A field holds the number, the highest byte first. */
  lemma {:induction false} FieldValue(x: nat)
    ensures x < 0x100_0000 ==> BigEndian(Put3(x)) == x
    ensures x < 0x1_0000 ==> BigEndian(Put2(x)) == x
  {
    Digits(x);
    LowPart(x, 0x100_0000);
    LowPart(x, 0x1_0000);
    OfThree(Put3(x));
    OfTwo(Put2(x));
  }

  lemma {:induction false} OfTwo(s: seq<byte>)
    requires |s| == 2
    ensures BigEndian(s) == s[0] as int * 256 + s[1]
  {
    assert s[..1][..0] == [];
    assert BigEndian(s[..1]) == s[0];
  }

  lemma {:induction false} OfThree(s: seq<byte>)
    requires |s| == 3
    ensures BigEndian(s) == s[0] as int * 0x1_0000 + s[1] as int * 256 + s[2]
  {
    OfTwo(s[..2]);
  }
}
