/**
 Sealing and opening records (d1_pkt.c, d1_enc.c), for no cipher, a stream cipher and a block cipher in
 CBC mode with an explicit IV. The cipher and the MAC are functions of which only what is used is assumed.
 */
module RecordCodec {
  import opened Bits
  import opened Options
  import opened Fields

  const HEADER_LENGTH := 13
  const MAX_PLAIN := 16384
  const MAX_COMPRESSED := MAX_PLAIN + 1024
  const MAX_ENCRYPTED := MAX_COMPRESSED + 256 + 64

  /** `seqNo` is the low six bytes of the sequence number. */
  datatype Record = Record(rtype: byte, version: nat, epoch: nat, seqNo: seq<byte>, data: seq<byte>) {
    predicate Fits() {
      version < 0x1_0000 && epoch < 0x1_0000 && |seqNo| == 6 && |data| <= MAX_PLAIN
    }
  }

  datatype Cipher = Clear | Stream | Cbc(bs: nat)

  datatype Suite = Suite(
    cipher: Cipher, macSize: nat, mac: Record -> seq<byte>,
    enc: seq<byte> -> seq<byte>, dec: seq<byte> -> seq<byte>)
  {
    function Iv(): nat { if cipher.Cbc? then cipher.bs else 0 }

    ghost predicate CipherAt(x: seq<byte>) {
      && |enc(x)| == |x| && |dec(x)| == |x|
      && (cipher.Stream? ==> dec(enc(x)) == x)
      && |dec(enc(x))| == |x|
      && (cipher.Cbc? && 0 < cipher.bs <= |x| && |x| % cipher.bs == 0 ==> dec(enc(x))[cipher.bs..] == x[cipher.bs..])
    }

    /** Decryption restores a stream, or all blocks but the first; sizes are those OpenSSL supports. */
    ghost predicate Valid() {
      && macSize <= 64 && (cipher.Clear? ==> macSize == 0) && (cipher.Cbc? ==> 2 <= cipher.bs <= 32)
      && (forall r {:trigger mac(r)} :: |mac(r)| == macSize)
      && (forall x {:trigger CipherAt(x)} :: CipherAt(x))
    }
  }

  // ---- sealing --------------------------------------------------------------------------------

  function HeaderBytes(r: Record, length: nat): (h: seq<byte>)
    requires |r.seqNo| == 6
    ensures |h| == HEADER_LENGTH
  {
    [r.rtype] + Put2(r.version) + Put2(r.epoch) + r.seqNo + Put2(length)
  }

  /** Where each field is: the type first, then version, epoch, number and length. */
  lemma {:induction false} HeaderLayout(r: Record, length: nat)
    requires r.Fits() && length < 0x1_0000
    ensures var h := HeaderBytes(r, length);
      && h[0] == r.rtype && BigEndian(h[1..3]) == r.version && BigEndian(h[3..5]) == r.epoch
      && h[5..11] == r.seqNo && BigEndian(h[11..13]) == length
  {
    var h := HeaderBytes(r, length);
    assert h[1..3] == Put2(r.version) && h[3..5] == Put2(r.epoch) && h[11..13] == Put2(length);
    FieldValue(r.version);
    FieldValue(r.epoch);
    FieldValue(length);
  }

  /** At least one byte, and up to a whole block. */
  function PadLength(bs: nat, l: nat): (n: nat)
    requires bs >= 1
    ensures 1 <= n <= bs
  {
    bs - l % bs
  }

  /** `k + 1` bytes of value `k`. */
  function Padding(k: byte): seq<byte> { seq(k + 1, _ => k) }

  function Plaintext(s: Suite, iv: seq<byte>, r: Record): seq<byte> { iv + r.data + s.mac(r) }

  /** The fragment of the record as it goes on the wire; `iv` is random. */
  function Body(s: Suite, iv: seq<byte>, r: Record): seq<byte>
    requires s.cipher.Cbc? ==> 1 <= s.cipher.bs <= 256
  {
    match s.cipher
    case Clear => r.data
    case Stream => s.enc(Plaintext(s, [], r))
    case Cbc(bs) =>
      var p := Plaintext(s, iv, r);
      s.enc(p + Padding(PadLength(bs, |p|) - 1))
  }

  function Seal(s: Suite, iv: seq<byte>, r: Record): seq<byte>
    requires s.cipher.Cbc? ==> 1 <= s.cipher.bs <= 256
    requires |r.seqNo| == 6
  {
    HeaderBytes(r, |Body(s, iv, r)|) + Body(s, iv, r)
  }

  // ---- opening --------------------------------------------------------------------------------

  /** The padding of a decrypted record, all of whose bytes must be its length less one. */
  predicate PaddingIsGood(d: seq<byte>)
    requires d != []
  {
    d[|d| - 1] as int + 1 <= |d| && forall j | |d| - 1 - d[|d| - 1] <= j < |d| :: d[j] == d[|d| - 1]
  }

  /** Without the first block and the padding. */
  function Stripped(d: seq<byte>, bs: nat): Option<seq<byte>>
    requires d != []
  {
    var n := |d| - 1 - d[|d| - 1];
    if !PaddingIsGood(d) || n < bs then None else Some(d[bs..n])
  }

  /** What is left of a fragment once decrypted: data and MAC. */
  function Unprotect(s: Suite, body: seq<byte>): Option<seq<byte>>
    requires |s.dec(body)| == |body|
  {
    match s.cipher
    case Clear => Some(body)
    case Stream => if body == [] then None else Some(s.dec(body))
    case Cbc(bs) =>
      if body == [] || bs == 0 || |body| % bs != 0 then None
      else
        Stripped(s.dec(body), bs)
  }

  /** dtls1_process_record on a record with the header `r`, whose data is still empty. */
  function Verify(s: Suite, r: Record, fragment: seq<byte>): Option<Record> {
    if |fragment| > MAX_COMPRESSED + s.macSize || |fragment| < s.macSize then None
    else
      var n := |fragment| - s.macSize;
      var whole := r.(data := fragment[..n]);
      if s.mac(whole) != fragment[n..] || n > MAX_PLAIN then None else Some(whole)
  }

  function HeaderOf(packet: seq<byte>): Record
    requires |packet| >= HEADER_LENGTH
  {
    Record(packet[0], Get2(packet, 1), Get2(packet, 3), packet[5..11], [])
  }

  /** The record at the head of a datagram, for a reader of the given version and epoch. A header that
      announces no bytes at all is passed over, even where no MAC is missing. */
  function OpenOf(s: Suite, version: nat, epoch: nat, packet: seq<byte>): Option<Record>
    requires s.Valid()
  {
    if |packet| < HEADER_LENGTH then None
    else
      var r, length := HeaderOf(packet), Get2(packet, 11);
      if || r.version != version || length > MAX_ENCRYPTED || length > |packet| - HEADER_LENGTH
         || r.epoch != epoch || length == 0
      then None
      else
        var body := packet[HEADER_LENGTH..HEADER_LENGTH + length];
        assert s.CipherAt(body);
        var u := Unprotect(s, body);
        if u == None then None else Verify(s, r, u.value)
  }

  // ---- what is accepted -----------------------------------------------------------------------

  ghost predicate Padded(d: seq<byte>, bs: nat, f: seq<byte>) {
    exists iv: seq<byte>, k: byte :: PaddedWith(d, bs, f, iv, k)
  }

  predicate PaddedWith(d: seq<byte>, bs: nat, f: seq<byte>, iv: seq<byte>, k: byte) {
    |iv| == bs && d == iv + f + Padding(k)
  }

  /** The fragment decrypts to the data of the record and its MAC, after any first block and before any
      good padding in CBC mode. */
  ghost predicate Protects(s: Suite, body: seq<byte>, r: Record) {
    match s.cipher
    case Clear => body == r.data + s.mac(r)
    case Stream => body != [] && s.dec(body) == r.data + s.mac(r)
    case Cbc(bs) => body != [] && bs > 0 && |body| % bs == 0 && Padded(s.dec(body), bs, r.data + s.mac(r))
  }

  ghost predicate IsSealed(s: Suite, version: nat, epoch: nat, packet: seq<byte>, r: Record) {
    && |packet| >= HEADER_LENGTH && HeaderOf(packet) == r.(data := [])
    && r.version == version && r.epoch == epoch && |r.data| <= MAX_PLAIN
    && var length := Get2(packet, 11);
       && 0 < length <= MAX_ENCRYPTED && HEADER_LENGTH + length <= |packet|
       && Protects(s, packet[HEADER_LENGTH..HEADER_LENGTH + length], r)
  }

  lemma {:induction false} PaddedIff(d: seq<byte>, bs: nat, f: seq<byte>)
    requires d != []
    ensures Padded(d, bs, f) <==>
      PaddingIsGood(d) && bs <= |d| - 1 - d[|d| - 1] && d[bs..|d| - 1 - d[|d| - 1]] == f
  {
    var k := d[|d| - 1];
    var n := |d| - 1 - k;
    if Padded(d, bs, f) {
      var iv, j :| PaddedWith(d, bs, f, iv, j);
      PaddedParts(d, bs, f, iv, j);
    }
    if PaddingIsGood(d) && bs <= n && d[bs..n] == f {
      assert d[n..] == Padding(k);
      assert d == d[..bs] + d[bs..n] + d[n..];
      assert PaddedWith(d, bs, f, d[..bs], k);
    }
  }

  lemma {:induction false} PaddedParts(d: seq<byte>, bs: nat, f: seq<byte>, iv: seq<byte>, k: byte)
    requires PaddedWith(d, bs, f, iv, k)
    ensures d != [] && d[|d| - 1] == k && PaddingIsGood(d)
    ensures |d| - 1 - k == bs + |f| && d[bs..bs + |f|] == f
  {
    var n := bs + |f|;
    assert |Padding(k)| == k + 1;
    assert forall j | n <= j < |d| :: d[j] == Padding(k)[j - n];
  }

  lemma {:induction false} ProtectsIff(s: Suite, body: seq<byte>, r: Record)
    requires s.Valid()
    ensures |s.dec(body)| == |body|
    ensures Protects(s, body, r) <==> Unprotect(s, body) == Some(r.data + s.mac(r))
  {
    assert s.CipherAt(body);
    if s.cipher.Cbc? && body != [] {
      PaddedIff(s.dec(body), s.cipher.bs, r.data + s.mac(r));
    }
  }

  lemma {:induction false} VerifyIff(s: Suite, h: Record, fragment: seq<byte>, r: Record)
    requires s.Valid()
    ensures Verify(s, h, fragment) == Some(r) <==>
      r.(data := h.data) == h && fragment == r.data + s.mac(r) && |r.data| <= MAX_PLAIN
  {
    assert |s.mac(r)| == s.macSize;
    if fragment == r.data + s.mac(r) {
      var n := |fragment| - s.macSize;
      assert fragment[..n] == r.data && fragment[n..] == s.mac(r);
      if r.(data := h.data) == h {
        assert h.(data := fragment[..n]) == r;
      }
    }
    if Verify(s, h, fragment) == Some(r) {
      var n := |fragment| - s.macSize;
      assert r == h.(data := fragment[..n]) && fragment == fragment[..n] + fragment[n..];
    }
  }

  /** Opening yields a record exactly when the datagram starts with that record sealed: with its type,
      version, epoch and number, its MAC, some first block and some good padding, and nothing else. */
  lemma {:induction false} OpensIff(s: Suite, version: nat, epoch: nat, packet: seq<byte>, r: Record)
    requires s.Valid()
    ensures OpenOf(s, version, epoch, packet) == Some(r) <==> IsSealed(s, version, epoch, packet, r)
  {
    if |packet| >= HEADER_LENGTH && Get2(packet, 11) <= |packet| - HEADER_LENGTH {
      var h, body := HeaderOf(packet), packet[HEADER_LENGTH..HEADER_LENGTH + Get2(packet, 11)];
      ProtectsIff(s, body, r);
      if Unprotect(s, body).Some? {
        VerifyIff(s, h, Unprotect(s, body).value, r);
      }
    }
  }

  // ---- the round trip -------------------------------------------------------------------------

  lemma {:induction false} PadFills(bs: nat, l: nat)
    requires bs >= 1
    ensures (l + PadLength(bs, l)) % bs == 0
  {
    ModUnique(l + PadLength(bs, l), bs, l / bs + 1, 0);
  }

  lemma {:induction false} BodyProtects(s: Suite, iv: seq<byte>, r: Record)
    requires s.Valid() && |iv| == s.Iv() && r.data != []
    ensures Protects(s, Body(s, iv, r), r)
    ensures |Body(s, iv, r)| <= |r.data| + 128
  {
    assert |s.mac(r)| == s.macSize;
    match s.cipher
    case Clear =>
    case Stream => assert s.CipherAt(Plaintext(s, [], r)); assert [] + r.data == r.data;
    case Cbc(bs) =>
      var p := Plaintext(s, iv, r);
      var n := PadLength(bs, |p|);
      var x := p + Padding(n - 1);
      PadFills(bs, |p|);
      assert s.CipherAt(x) && s.CipherAt(s.enc(x));
      CbcProtects(s, iv, r, x, n - 1);
  }

  /** The first block comes back as anything: it only has to be as long as it was. */
  lemma {:induction false} CbcProtects(s: Suite, iv: seq<byte>, r: Record, x: seq<byte>, k: byte)
    requires s.Valid() && s.cipher.Cbc? && PaddedWith(x, s.cipher.bs, r.data + s.mac(r), iv, k)
    requires |x| % s.cipher.bs == 0
    ensures Padded(s.dec(s.enc(x)), s.cipher.bs, r.data + s.mac(r))
  {
    var bs := s.cipher.bs;
    assert s.CipherAt(x) && s.CipherAt(s.enc(x));
    var d := s.dec(s.enc(x));
    assert x[bs..] == r.data + s.mac(r) + Padding(k);
    assert d == d[..bs] + d[bs..];
    assert PaddedWith(d, bs, r.data + s.mac(r), d[..bs], k);
  }

  /** Opening a sealed record recovers its type, version, epoch, number and data, whatever follows it in
      the datagram and whatever its IV block decrypts to. */
  lemma {:induction false} OpenSeal(s: Suite, iv: seq<byte>, r: Record, rest: seq<byte>)
    requires s.Valid() && |iv| == s.Iv() && r.Fits() && r.data != []
    ensures OpenOf(s, r.version, r.epoch, Seal(s, iv, r) + rest) == Some(r)
  {
    var body := Body(s, iv, r);
    var packet := Seal(s, iv, r) + rest;
    BodyProtects(s, iv, r);
    HeaderBack(r, |body|, body + rest);
    assert packet == HeaderBytes(r, |body|) + (body + rest);
    assert packet[HEADER_LENGTH..HEADER_LENGTH + |body|] == body;
    OpensIff(s, r.version, r.epoch, packet, r);
  }

  lemma {:induction false} HeaderBack(r: Record, length: nat, rest: seq<byte>)
    requires r.Fits() && length < 0x1_0000
    ensures var p := HeaderBytes(r, length) + rest; HeaderOf(p) == r.(data := []) && Get2(p, 11) == length
  {
    var p := HeaderBytes(r, length) + rest;
    assert p[1..3] == Put2(r.version) && p[3..5] == Put2(r.epoch) && p[5..11] == r.seqNo && p[11..13] == Put2(length);
    Field2(p, 1, r.version);
    Field2(p, 3, r.epoch);
    Field2(p, 11, length);
    LowPart(r.version, 0x1_0000);
    LowPart(r.epoch, 0x1_0000);
    LowPart(length, 0x1_0000);
  }

  /** No datagram opens as two records. */
  lemma {:induction false} OpensOneWay(s: Suite, version: nat, epoch: nat, packet: seq<byte>, r: Record, q: Record)
    requires s.Valid() && IsSealed(s, version, epoch, packet, r) && IsSealed(s, version, epoch, packet, q)
    ensures r == q
  {
    OpensIff(s, version, epoch, packet, r);
    OpensIff(s, version, epoch, packet, q);
  }

  // ---- the code -------------------------------------------------------------------------------

  /** `data` lies in `s` at `at`. */
  predicate LiesAt(s: seq<byte>, at: nat, data: seq<byte>) {
    at + |data| <= |s| && s[at..at + |data|] == data
  }

  lemma {:induction false} LiesJoin(s: seq<byte>, at: nat, a: seq<byte>, b: seq<byte>)
    requires LiesAt(s, at, a) && LiesAt(s, at + |a|, b)
    ensures LiesAt(s, at, a + b)
  {
    assert s[at..at + |a + b|] == s[at..at + |a|] + s[at + |a|..at + |a| + |b|];
  }

  /** memcpy into a buffer. */
  method Put(a: array<byte>, at: nat, data: seq<byte>)
    requires at + |data| <= a.Length
    modifies a
    ensures LiesAt(a[..], at, data)
    ensures a[..at] == old(a[..at]) && a[at + |data|..] == old(a[at + |data|..])
  {
    forall j | 0 <= j < |data| {
      a[at + j] := data[j];
    }
  }

  lemma {:induction false} StillLies(s: seq<byte>, t: seq<byte>, at: nat, data: seq<byte>, from: nat, to: nat)
    requires LiesAt(s, at, data) && |t| == |s| && from <= to <= |s|
    requires t[..from] == s[..from] && t[to..] == s[to..]
    requires at + |data| <= from || to <= at
    ensures LiesAt(t, at, data)
  {
    forall j | at <= j < at + |data|
      ensures t[j] == s[j]
    {
      if at + |data| <= from {
        assert t[..from][j] == s[..from][j];
      } else {
        assert t[to..][j - to] == s[to..][j - to];
      }
    }
    assert t[at..at + |data|] == s[at..at + |data|];
  }

  /** The padding of dtls1_enc: `l` bytes at `at` are made up to whole blocks. */
  method PadRecord(input: array<byte>, at: nat, l: nat, bs: nat) returns (padded: nat)
    requires 1 <= bs <= 256 && at + l + bs <= input.Length
    modifies input
    ensures padded == l + PadLength(bs, l)
    ensures LiesAt(input[..], at + l, Padding(PadLength(bs, l) - 1))
    ensures input[..at + l] == old(input[..at + l])
  {
    var i := bs - l % bs;
    var j := i - 1;
    var k := l;
    while k < l + i
      invariant l <= k <= l + i
      invariant forall x | at + l <= x < at + k :: input[x] == j
      invariant input[..at + l] == old(input[..at + l])
    {
      input[at + k] := j;
      k := k + 1;
    }
    padded := l + i;
    assert input[at + l..at + l + i] == Padding(j);
  }

  /** The padding check of dtls1_enc on `l` decrypted bytes at `at`. */
  method CheckPadding(data: array<byte>, at: nat, l: nat) returns (good: bool)
    requires 0 < l && at + l <= data.Length
    ensures good == PaddingIsGood(data[at..at + l])
  {
    ghost var d := data[at..at + l];
    var ii := data[at + l - 1];
    var i := ii as int + 1;
    if i > l {
      return false;
    }
    var j := l - i;
    while j < l
      invariant l - i <= j <= l
      invariant forall x | l - i <= x < j :: d[x] == ii
    {
      if data[at + j] != ii {
        assert d[j] != ii;
        return false;
      }
      j := j + 1;
    }
    return true;
  }

  /** Data, MAC and IV, put where they belong behind the header. */
  method PlaceParts(s: Suite, iv: seq<byte>, r: Record, wbuf: array<byte>) returns (length: nat)
    requires s.Valid() && |iv| == s.Iv() && wbuf.Length >= |r.data| + 256
    modifies wbuf
    ensures length == |Plaintext(s, iv, r)|
    ensures LiesAt(wbuf[..], HEADER_LENGTH, Plaintext(s, iv, r))
  {
    var p, bs := HEADER_LENGTH, s.Iv();
    Put(wbuf, p + bs, r.data);
    length := |r.data|;
    assert |s.mac(r)| == s.macSize;
    if s.macSize != 0 {
      Append(wbuf, p + bs, r.data, s.mac(r));
      length := length + s.macSize;
    } else {
      assert r.data + s.mac(r) == r.data;
    }
    Prepend(wbuf, p, iv, r.data + s.mac(r));
    assert iv + (r.data + s.mac(r)) == Plaintext(s, iv, r);
    length := length + bs;
  }

  /** A copy behind or before what is there already. */
  method Append(a: array<byte>, at: nat, first: seq<byte>, more: seq<byte>)
    requires LiesAt(a[..], at, first) && at + |first| + |more| <= a.Length
    modifies a
    ensures LiesAt(a[..], at, first + more)
  {
    ghost var was := a[..];
    Put(a, at + |first|, more);
    StillLies(was, a[..], at, first, at + |first|, at + |first| + |more|);
    LiesJoin(a[..], at, first, more);
  }

  method Prepend(a: array<byte>, at: nat, first: seq<byte>, ghost more: seq<byte>)
    requires LiesAt(a[..], at + |first|, more)
    modifies a
    ensures LiesAt(a[..], at, first + more)
  {
    ghost var was := a[..];
    Put(a, at, first);
    StillLies(was, a[..], at + |first|, more, at, at + |first|);
    LiesJoin(a[..], at, first, more);
  }

  method WriteBody(s: Suite, iv: seq<byte>, r: Record, wbuf: array<byte>) returns (length: nat)
    requires s.Valid() && |iv| == s.Iv() && wbuf.Length >= |r.data| + 256
    modifies wbuf
    ensures length == |Body(s, iv, r)| <= |r.data| + 128
    ensures LiesAt(wbuf[..], HEADER_LENGTH, Body(s, iv, r))
  {
    assert |s.mac(r)| == s.macSize;
    length := PlaceParts(s, iv, r, wbuf);
    length := Encrypt(s, wbuf, length, Plaintext(s, iv, r));
    if s.cipher.Clear? {
      assert Plaintext(s, iv, r) == r.data;
    } else if s.cipher.Stream? {
      assert Plaintext(s, iv, r) == Plaintext(s, [], r);
    }
  }

  /** dtls1_enc when sending. */
  method Encrypt(s: Suite, wbuf: array<byte>, l: nat, ghost plain: seq<byte>) returns (length: nat)
    requires s.Valid() && l == |plain| && LiesAt(wbuf[..], HEADER_LENGTH, plain)
    requires HEADER_LENGTH + |plain| + s.Iv() <= wbuf.Length
    modifies wbuf
    ensures var body := match s.cipher
              case Clear => plain
              case Stream => s.enc(plain)
              case Cbc(bs) => s.enc(plain + Padding(PadLength(bs, |plain|) - 1));
            length == |body| <= |plain| + s.Iv() && LiesAt(wbuf[..], HEADER_LENGTH, body)
  {
    length := l;
    if s.cipher.Clear? {
      return;
    }
    ghost var padded := plain;
    if s.cipher.Cbc? {
      ghost var was := wbuf[..];
      length := PadRecord(wbuf, HEADER_LENGTH, length, s.cipher.bs);
      ghost var pad := Padding(PadLength(s.cipher.bs, |plain|) - 1);
      assert wbuf[HEADER_LENGTH..HEADER_LENGTH + |plain|] == wbuf[..HEADER_LENGTH + |plain|][HEADER_LENGTH..]
          == was[HEADER_LENGTH..HEADER_LENGTH + |plain|];
      LiesJoin(wbuf[..], HEADER_LENGTH, plain, pad);
      padded := plain + pad;
    }
    assert wbuf[HEADER_LENGTH..HEADER_LENGTH + length] == padded;
    assert s.CipherAt(padded);
    Put(wbuf, HEADER_LENGTH, s.enc(wbuf[HEADER_LENGTH..HEADER_LENGTH + length]));
  }

  /** do_dtls1_write as far as it builds a record; the buffer has room for any of them. */
  method WriteRecord(s: Suite, iv: seq<byte>, r: Record, wbuf: array<byte>) returns (n: nat)
    requires s.Valid() && |iv| == s.Iv() && r.Fits() && wbuf.Length >= |r.data| + 256
    modifies wbuf
    ensures n <= wbuf.Length && wbuf[..n] == Seal(s, iv, r)
  {
    var length := WriteBody(s, iv, r, wbuf);
    Prepend(wbuf, 0, HeaderBytes(r, length), Body(s, iv, r));
    n := length + HEADER_LENGTH;
    assert wbuf[0..n] == wbuf[..n];
  }

  /** The arithmetic of an unsigned int. */
  function Wrap32(x: int): nat { x % 0x1_0000_0000 }

  /** dtls1_enc when receiving: where the data and MAC are, once decrypted in place. A padding that
      reaches into the IV makes the length wrap around. */
  method Decrypt(s: Suite, packet: array<byte>, l: nat) returns (ok: bool, data: nat, length: nat)
    requires s.Valid() && HEADER_LENGTH + l <= packet.Length && l <= MAX_ENCRYPTED
    modifies packet
    ensures var body := old(packet[HEADER_LENGTH..HEADER_LENGTH + l]);
            |s.dec(body)| == |body| && Found(Unprotect(s, body), s.macSize, packet[..], ok, data, length)
  {
    ghost var body := packet[HEADER_LENGTH..HEADER_LENGTH + l];
    assert s.CipherAt(body);
    ok, data, length := true, HEADER_LENGTH, l;
    if s.cipher.Clear? {
      return;
    }
    var bs := if s.cipher.Cbc? then s.cipher.bs else 1;
    if l == 0 || l % bs != 0 {
      return false, data, length;
    }
    Put(packet, HEADER_LENGTH, s.dec(packet[HEADER_LENGTH..HEADER_LENGTH + l]));
    if s.cipher.Cbc? {
      ok, data, length := StripPadding(packet, l, bs, s.dec(body), s.macSize);
    }
  }

  /** What the reader is told of the fragment `f`: where it is, or a failure, or a length that the next
      check refuses. */
  ghost predicate Found(f: Option<seq<byte>>, macSize: nat, p: seq<byte>, ok: bool, data: nat, length: nat) {
    match f
    case None => ok ==> length > MAX_COMPRESSED + macSize
    case Some(x) => ok && length == |x| && LiesAt(p, data, x)
  }

  method StripPadding(packet: array<byte>, l: nat, bs: nat, ghost d: seq<byte>, ghost macSize: nat)
    returns (ok: bool, data: nat, length: nat)
    requires 0 < l == |d| <= MAX_ENCRYPTED && bs <= 32 && macSize <= 64
    requires LiesAt(packet[..], HEADER_LENGTH, d)
    ensures Found(Stripped(d, bs), macSize, packet[..], ok, data, length)
  {
    assert packet[HEADER_LENGTH..HEADER_LENGTH + l] == d;
    data, length := HEADER_LENGTH, l;
    ok := CheckPadding(packet, HEADER_LENGTH, l);
    if !ok {
      return;
    }
    var i := packet[HEADER_LENGTH + l - 1] as int + 1;
    assert i == d[l - 1] as int + 1;
    data := HEADER_LENGTH + bs;
    length := Wrap32(l - i - bs);
    WrapTells(l, i, bs, length);
    if l - i >= bs {
      LiesPart(packet[..], HEADER_LENGTH, d, bs, l - i);
    }
  }

  lemma {:induction false} LiesPart(s: seq<byte>, at: nat, x: seq<byte>, from: nat, to: nat)
    requires LiesAt(s, at, x) && from <= to <= |x|
    ensures LiesAt(s, at + from, x[from..to])
  {
    var w := s[at..at + |x|];
    forall j | from <= j < to
      ensures s[at + j] == x[j]
    {
      assert w[j] == s[at + j];
    }
    assert s[at + from..at + to] == x[from..to];
  }

  lemma {:induction false} WrapTells(l: nat, i: nat, bs: nat, length: nat)
    requires i <= l <= MAX_ENCRYPTED && bs <= 32 && length == Wrap32(l - i - bs)
    ensures l - i >= bs ==> length == l - i - bs
    ensures l - i < bs ==> length > MAX_COMPRESSED + 64
  {
    if l - i >= bs {
      ModUnique(l - i - bs, 0x1_0000_0000, 0, l - i - bs);
    } else {
      ModUnique(l - i - bs, 0x1_0000_0000, -1, l - i - bs + 0x1_0000_0000);
    }
  }

  /** The header part of dtls1_get_record, and dtls1_process_record. */
  method ReadRecord(s: Suite, version: nat, epoch: nat, packet: array<byte>) returns (r: Option<Record>)
    requires s.Valid()
    modifies packet
    ensures r == OpenOf(s, version, epoch, old(packet[..]))
  {
    if packet.Length < HEADER_LENGTH {
      return None;
    }
    ghost var p := packet[..];
    var h := Record(
      packet[0], packet[1] as int * 256 + packet[2], packet[3] as int * 256 + packet[4], packet[5..11], []);
    var l: nat := packet[11] as int * 256 + packet[12];
    assert h == HeaderOf(p) && l == Get2(p, 11);
    if h.version != version || l > MAX_ENCRYPTED || l > packet.Length - HEADER_LENGTH || h.epoch != epoch {
      return None;
    }
    if l == 0 {
      return None;
    }
    assert packet[HEADER_LENGTH..HEADER_LENGTH + l] == p[HEADER_LENGTH..HEADER_LENGTH + l];
    var ok, data, length := Decrypt(s, packet, l);
    if !ok {
      return None;
    }
    r := VerifyRecord(s, h, packet, data, length, Unprotect(s, p[HEADER_LENGTH..HEADER_LENGTH + l]));
  }

  /** The MAC is compared with what stands behind the data. */
  method VerifyRecord(s: Suite, h: Record, packet: array<byte>, data: nat, length: nat, ghost f: Option<seq<byte>>)
    returns (r: Option<Record>)
    requires s.Valid() && Found(f, s.macSize, packet[..], true, data, length)
    ensures r == if f == None then None else Verify(s, h, f.value)
  {
    if length > MAX_COMPRESSED + s.macSize || length < s.macSize {
      return None;
    }
    var n := length - s.macSize;
    LiesPart(packet[..], data, f.value, 0, n);
    LiesPart(packet[..], data, f.value, n, length);
    var whole := h.(data := packet[data..data + n]);
    if s.mac(whole) != packet[data + n..data + length] || n > MAX_PLAIN {
      return None;
    }
    return Some(whole);
  }
}
