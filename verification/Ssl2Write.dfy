/**
 Writing in version 2 (s2_pkt.c): a buffer is cut into records, and a record that the transport does not
 take at once is kept until the caller tries again.
 */
module Ssl2Write {
  import opened Bits

  const MAX_2_BYTE_HEADER := 32767
  const MAX_3_BYTE_HEADER := 16383

  /** `seal` gives the MAC, the data and so many bytes of padding, encrypted, for a sequence number. */
  datatype Config = Config(
    clearText: bool, escape: bool, macSize: nat, bs: nat, seal: (nat, seq<byte>, nat) -> seq<byte>)
  {
    function Mac(): nat { if clearText then 0 else macSize }

    /** The sizes of real ciphers and digests. */
    ghost predicate Valid() {
      && macSize <= 64 && 1 <= bs <= 32
      && forall n, x, p {:trigger seal(n, x, p)} :: |seal(n, x, p)| == Mac() + |x| + p
    }
  }

  /** How many bytes go into the next record, how many of padding, and which header it gets. */
  datatype Layout = Layout(len: nat, padding: nat, threeByte: bool)

  function Fit(c: Config, len: nat): (r: Layout)
    requires c.macSize <= 64 && 1 <= c.bs <= 32
    ensures r.len <= len && (len > 0 ==> r.len > 0) && r.padding < c.bs
    ensures c.clearText || c.escape || len + c.macSize <= MAX_3_BYTE_HEADER ==>
      r.len == if c.clearText && len > MAX_2_BYTE_HEADER then MAX_2_BYTE_HEADER else len
    ensures !c.clearText && !c.escape && MAX_3_BYTE_HEADER < len + c.macSize <= MAX_2_BYTE_HEADER ==>
      len - c.bs < r.len
    ensures !c.clearText && !c.escape && len + c.macSize > MAX_2_BYTE_HEADER ==>
      MAX_2_BYTE_HEADER - c.bs < r.len + c.macSize <= MAX_2_BYTE_HEADER
    ensures r.threeByte <==> !c.clearText && (c.escape || r.padding != 0)
    ensures c.clearText ==> r.padding == 0
    ensures !c.clearText ==> (r.len + c.macSize + r.padding) % c.bs == 0
  {
    if c.clearText then Layout(if len > MAX_2_BYTE_HEADER then MAX_2_BYTE_HEADER else len, 0, false)
    else
      var j := len + c.macSize;
      if j > MAX_3_BYTE_HEADER && !c.escape then
        var j' := if j > MAX_2_BYTE_HEADER then MAX_2_BYTE_HEADER else j;
        Rounding(j', c.bs);
        Layout(j' - j' % c.bs - c.macSize, 0, false)
      else if c.bs <= 1 && !c.escape then Layout(len, 0, false)
      else
        var p := if j % c.bs == 0 then 0 else c.bs - j % c.bs;
        Rounding(j, c.bs);
        Layout(len, p, c.escape || p != 0)
  }

  lemma {:induction false} Rounding(j: nat, bs: nat)
    requires bs >= 1
    ensures (j - j % bs) % bs == 0
    ensures j % bs != 0 ==> (j + (bs - j % bs)) % bs == 0
  {
    ModUnique(j - j % bs, bs, j / bs, 0);
    if j % bs != 0 {
      ModUnique(j + (bs - j % bs), bs, j / bs + 1, 0);
    }
  }

  // ---- headers --------------------------------------------------------------------------------

  /** Masks and flags of the first byte: 0x7f and 0x80, or 0x3f and the escape bit 0x40. */
  function HeaderBytes(length: nat, padding: nat, threeByte: bool, escape: bool): seq<byte>
    requires padding < 256
  {
    if threeByte then [length / 256 % 64 + (if escape then 64 else 0), length % 256, padding]
    else [length / 256 % 128 + 128, length % 256]
  }

  /** What ssl2_read makes of the first bytes of a record. */
  datatype Header = Header(length: nat, padding: nat, threeByte: bool, escape: bool)

  function Decode(p: seq<byte>): Header
    requires |p| >= 3
  {
    var length := p[0] as int * 256 + p[1];
    if p[0] >= 128 then Header(length % 0x8000, 0, false, false)
    else Header(length % 0x4000, p[2], true, p[0] / 64 % 2 == 1)
  }

  /** A header is read as it was written exactly when the length fits its field. */
  lemma {:induction false} HeaderDecodesIff(length: nat, padding: nat, threeByte: bool, escape: bool, rest: seq<byte>)
    requires padding < 256 && (!threeByte ==> padding == 0 && !escape && |rest| > 0)
    ensures |HeaderBytes(length, padding, threeByte, escape) + rest| >= 3
    ensures Decode(HeaderBytes(length, padding, threeByte, escape) + rest) == Header(length, padding, threeByte, escape)
      <==> length <= if threeByte then MAX_3_BYTE_HEADER else MAX_2_BYTE_HEADER
  {
    var h := HeaderBytes(length, padding, threeByte, escape) + rest;
    var e := if escape then 64 else 0;
    if threeByte {
      FieldBack(h[0] as int, length, 64, e);
    } else {
      FieldBack(h[0] as int, length, 128, 128);
    }
  }

  lemma {:induction false} FieldBack(first: nat, length: nat, m: nat, flag: nat)
    requires m == 64 || m == 128
    requires flag == 0 || flag == m
    requires first == length / 256 % m + flag
    ensures (first * 256 + length % 256) % (256 * m) == length <==> length < 256 * m
    ensures first / 64 % 2 == 1 <==>
            (m == 64 && flag == m) || (m == 128 && length / 256 % m >= 64 && length / 256 % m < 128)
  {
    var q, r := length / 256 % m, length % 256;
    ModUnique(first * 256 + r, 256 * m, flag / m, q * 256 + r);
    if length < 256 * m {
      ModUnique(length / 256, m, 0, length / 256);
    }
  }

  /** The record that is built for the chunk `x`. */
  function RecordBytes(c: Config, n: nat, x: seq<byte>, l: Layout): seq<byte>
    requires l.padding < 256
  {
    HeaderBytes(|x| + c.Mac() + l.padding, l.padding, l.threeByte, c.escape && l.threeByte) + c.seal(n, x, l.padding)
  }

  /** The reader finds length and padding of a record exactly when it has a two-byte header or its length
      is at most 16383. */
  lemma {:induction false} RecordDecodesIff(c: Config, n: nat, data: seq<byte>)
    requires c.Valid() && data != [] && !c.escape
    ensures var l := Fit(c, |data|);
      var w, r := l.len + c.Mac() + l.padding, RecordBytes(c, n, data[..l.len], l);
      |r| >= 3 && (Decode(r) == Header(w, l.padding, l.threeByte, false) <==> !l.threeByte || w <= MAX_3_BYTE_HEADER)
  {
    var l := Fit(c, |data|);
    var x := data[..l.len];
    assert |c.seal(n, x, l.padding)| == c.Mac() + |x| + l.padding;
    HeaderDecodesIff(|x| + c.Mac() + l.padding, l.padding, l.threeByte, false, c.seal(n, x, l.padding));
  }

  /** Padding can carry a record beyond its header: blocks of 8 bytes and 16377 bytes of MAC and data
      make 16384, which is read as nothing. */
  lemma {:induction false} PaddedTooFar(c: Config, n: nat, data: seq<byte>)
    requires c.Valid() && !c.clearText && !c.escape && c.bs == 8 && c.macSize == 16 && |data| == 16361
    ensures Fit(c, 16361) == Layout(16361, 7, true)
    ensures |RecordBytes(c, n, data, Fit(c, 16361))| >= 3
    ensures Decode(RecordBytes(c, n, data, Fit(c, 16361))) == Header(0, 7, true, false)
  {
    assert |c.seal(n, data, 7)| == 16384;
  }

  // ---- conservation ---------------------------------------------------------------------------

  function Flat(s: seq<seq<byte>>): seq<byte> {
    if s == [] then [] else Flat(s[..|s| - 1]) + s[|s| - 1]
  }

  lemma {:induction false} FlatSnoc(s: seq<seq<byte>>, x: seq<byte>)
    ensures Flat(s + [x]) == Flat(s) + x
  {
    assert (s + [x])[..|s|] == s;
  }

  ghost predicate BuiltAt(c: Config, records: seq<seq<byte>>, chunks: seq<seq<byte>>, k: nat) {
    k < |records| && k < |chunks| ==>
      exists l: Layout | l.padding < 256 ::
        Chosen(c, chunks[k], l) && records[k] == RecordBytes(c, k % 0x1_0000_0000, chunks[k], l)
  }

  /** The layout was made for a buffer of which the chunk is what fits. */
  ghost predicate Chosen(c: Config, x: seq<byte>, l: Layout) {
    |x| == l.len && IsFit(c, l)
  }

  ghost predicate IsFit(c: Config, l: Layout) {
    var fits := c.macSize <= 64 && 1 <= c.bs <= 32 && exists n: nat :: Fit(c, n) == l;
    fits
  }

  /** Record `k` carries chunk `k` and nothing else. */
  ghost predicate Built(c: Config, records: seq<seq<byte>>, chunks: seq<seq<byte>>) {
    |records| == |chunks| && forall k: nat {:trigger BuiltAt(c, records, chunks, k)} :: BuiltAt(c, records, chunks, k)
  }

  lemma {:induction false} BuiltSnoc(
    c: Config, records: seq<seq<byte>>, chunks: seq<seq<byte>>, x: seq<byte>, l: Layout)
    requires Built(c, records, chunks) && c.Valid() && Chosen(c, x, l) && l.padding < 256
    ensures Built(c, records + [RecordBytes(c, |records| % 0x1_0000_0000, x, l)], chunks + [x])
  {
    var r := RecordBytes(c, |records| % 0x1_0000_0000, x, l);
    var records', chunks' := records + [r], chunks + [x];
    forall k: nat ensures BuiltAt(c, records', chunks', k) {
      assert BuiltAt(c, records, chunks, k);
    }
  }

  /** What the transport took and what is kept are the records. */
  ghost predicate Keeps(ptr: seq<byte>, off: nat, len: nat, wire: seq<byte>, records: seq<seq<byte>>) {
    var keeps :=
      && off + len <= |ptr| && (len > 0 ==> off + len == |ptr|)
      && wire + ptr[off..off + len] == Flat(records);
    keeps
  }

  /** Every record carries its chunk, is numbered, and is on the wire or kept. */
  ghost predicate Kept(
    c: Config, records: seq<seq<byte>>, chunks: seq<seq<byte>>, sequence: nat, ptr: seq<byte>, off: nat, len: nat,
    wire: seq<byte>)
  {
    var kept :=
      && c.Valid() && Keeps(ptr, off, len, wire, records) && Built(c, records, chunks)
      && sequence == |records| % 0x1_0000_0000;
    kept
  }

  /** The transport takes the next `i` bytes. */
  lemma {:induction false} KeepsRest(
    ptr: seq<byte>, off: nat, len: nat, wire: seq<byte>, records: seq<seq<byte>>, i: nat)
    requires Keeps(ptr, off, len, wire, records) && i <= len
    ensures Keeps(ptr, off + i, len - i, wire + ptr[off..off + len][..i], records)
    ensures i == len ==> Keeps(ptr, off, 0, wire + ptr[off..off + len][..i], records)
  {
    assert ptr[off..off + len] == ptr[off..off + i] + ptr[off + i..off + len];
    assert ptr[off..off] == [] && ptr[off + len..off + len] == [];
    assert ptr[off..off + len][..i] == ptr[off..off + i];
  }

  lemma {:induction false} KeptRest(
    c: Config, records: seq<seq<byte>>, chunks: seq<seq<byte>>, sequence: nat, ptr: seq<byte>, off: nat, len: nat,
    wire: seq<byte>, i: nat)
    requires Kept(c, records, chunks, sequence, ptr, off, len, wire) && i <= len
    ensures off + len <= |ptr|
    ensures var wire' := wire + ptr[off..off + len][..i];
      && Kept(c, records, chunks, sequence, ptr, off + i, len - i, wire')
      && (i == len ==> Kept(c, records, chunks, sequence, ptr, off, 0, wire'))
  {
    KeepsRest(ptr, off, len, wire, records, i);
  }

  /** A new record is kept when nothing was. */
  lemma {:induction false} KeptNew(
    c: Config, records: seq<seq<byte>>, chunks: seq<seq<byte>>, sequence: nat, ptr: seq<byte>, off: nat,
    wire: seq<byte>, x: seq<byte>, l: Layout)
    requires Kept(c, records, chunks, sequence, ptr, off, 0, wire) && IsFit(c, l) && |x| == l.len && l.padding < 256
    ensures var record := RecordBytes(c, sequence, x, l);
      && |record| >= |x|
      && Kept(c, records + [record], chunks + [x], (sequence + 1) % 0x1_0000_0000, record, 0, |record|, wire)
  {
    BuiltSnoc(c, records, chunks, x, l);
    var record := RecordBytes(c, sequence, x, l);
    assert |c.seal(sequence, x, l.padding)| == c.Mac() + |x| + l.padding;
    assert ptr[off..off] == [] && record[0..|record|] == record;
    FlatSnoc(records, record);
    NextSequence(|records|);
  }

  lemma {:induction false} KeepsNone(
    ptr: seq<byte>, off: nat, wire: seq<byte>, records: seq<seq<byte>>)
    requires Keeps(ptr, off, 0, wire, records)
    ensures wire == Flat(records)
  {
    assert ptr[off..off] == [];
  }

  /** A new record is kept when nothing was. */
  lemma {:induction false} KeepsNew(
    ptr: seq<byte>, off: nat, wire: seq<byte>, records: seq<seq<byte>>, record: seq<byte>)
    requires Keeps(ptr, off, 0, wire, records)
    ensures Keeps(record, 0, |record|, wire, records + [record])
  {
    assert ptr[off..off] == [] && record[0..|record|] == record;
    FlatSnoc(records, record);
  }

  class Writer {
    const c: Config
    const partialWrites: bool  // SSL_MODE_ENABLE_PARTIAL_WRITE
    const movingBuffer: bool   // SSL_MODE_ACCEPT_MOVING_WRITE_BUFFER
    const bio: nat -> int      // what the transport answers, write by write
    var writes: nat
    var wnum: nat
    var writePtr: seq<byte>
    var wpendOff: nat
    var wpendLen: nat
    var wpendTot: nat
    var wpendBuf: nat
    var wpendRet: nat
    var writeSequence: nat
    ghost var wire: seq<byte>           // what the transport has taken
    ghost var records: seq<seq<byte>>   // built so far
    ghost var chunks: seq<seq<byte>>    // and the data in them

    /** What the transport has taken and what is kept are the records, in order. */
    ghost predicate Valid()
      reads this
    {
      Kept(c, records, chunks, writeSequence, writePtr, wpendOff, wpendLen, wire)
    }

    /** Data of the message at address `buf` that is in records already. */
    ghost function Sent(): nat
      reads this
    {
      wnum + if wpendLen > 0 then wpendRet else 0
    }

    /** The message `msg` at address `buf` is under way; `before` is all that was sent before it. */
    ghost predicate Midway(buf: nat, msg: seq<byte>, before: seq<byte>)
      reads this
    {
      var midway :=
        && Sent() <= |msg| && wnum < |msg| && Flat(chunks) == before + msg[..Sent()]
        && (wpendLen > 0 ==> wpendBuf == buf + wnum && wpendTot == |msg| - wnum && wpendRet > 0);
      midway
    }

    constructor (c: Config, partialWrites: bool, movingBuffer: bool, bio: nat -> int)
      requires c.Valid()
      ensures Valid() && wnum == 0 && wpendLen == 0 && wire == [] && chunks == []
      ensures this.c == c && this.partialWrites == partialWrites
    {
      this.c, this.partialWrites, this.movingBuffer, this.bio := c, partialWrites, movingBuffer, bio;
      writes, wnum, writePtr, wpendOff, wpendLen, wpendTot, wpendBuf, wpendRet := 0, 0, [], 0, 0, 0, 0, 0;
      writeSequence, wire, records, chunks := 0, [], [], [];
    }

    /** One write to the transport, which takes a prefix or refuses. */
    method BioWrite(data: seq<byte>) returns (i: int)
      modifies this`writes, this`wire
      ensures i == if bio(old(writes)) > |data| then |data| else bio(old(writes))
      ensures writes == old(writes) + 1 && wire == old(wire) + if i > 0 then data[..i] else []
    {
      i := bio(writes);
      if i > |data| {
        i := |data|;
      }
      writes := writes + 1;
      wire := wire + if i > 0 then data[..i] else [];
    }

    /** Less data than before, or at another address. */
    predicate BadRetry(buf: nat, len: nat)
      reads this
    {
      wpendTot > len || (wpendBuf != buf && !movingBuffer)
    }

    /** The transport was asked until it refused, or until it had all of the record. */
    ghost predicate GoesOn(first: nat, ret: int)
      reads this
    {
      var goesOn :=
        && first < writes && (forall k | first <= k < writes - 1 :: bio(k) > 0)
        && (if wpendLen > 0 then ret == bio(writes - 1) <= 0 else bio(writes - 1) > 0);
      goesOn
    }

    method WritePending(buf: nat, len: nat) returns (ret: int)
      requires Valid() && wpendLen > 0
      modifies this`writes, this`wire, this`wpendOff, this`wpendLen
      ensures Valid()
      ensures BadRetry(buf, len) ==> ret == -1 && wire == old(wire) && writes == old(writes) && wpendLen > 0
      ensures !BadRetry(buf, len) ==> GoesOn(old(writes), ret)
      ensures if wpendLen == 0 then ret == wpendRet else ret <= 0
    {
      if wpendTot > len || (wpendBuf != buf && !movingBuffer) {
        return -1;
      }
      while true
        invariant Valid() && wpendLen > 0 && old(writes) <= writes
        invariant forall k | old(writes) <= k < writes :: bio(k) > 0
        decreases wpendLen
      {
        ghost var was := wire;
        var i := BioWrite(writePtr[wpendOff..wpendOff + wpendLen]);
        if i > 0 {
          KeptRest(c, records, chunks, writeSequence, writePtr, wpendOff, wpendLen, was, i);
        }
        if i == wpendLen {
          wpendLen := 0;
          return wpendRet;
        } else if i <= 0 {
          return i;
        }
        wpendOff := wpendOff + i;
        wpendLen := wpendLen - i;
      }
    }

    /** As much of the data as fits a record. */
    method NextLayout(len: nat) returns (l: Layout)
      requires Valid() && len > 0
      ensures 0 < l.len <= len && l.padding < 256 && IsFit(c, l) && IsFitFor(c, len, l.len)
    {
      l := Fit(c, len);
    }

    /** The next record, from the first bytes of the `data` at address `buf`. */
    method BuildRecord(buf: nat, data: seq<byte>)
      requires Valid() && data != [] && wpendLen == 0
      modifies this`writePtr, this`wpendOff, this`wpendLen, this`wpendTot, this`wpendBuf, this`wpendRet,
               this`writeSequence, this`records, this`chunks
      ensures Valid() && wpendLen > 0 && 0 < wpendRet <= |data|
      ensures chunks == old(chunks) + [data[..wpendRet]] && wpendBuf == buf && wpendTot == |data|
      ensures IsFitFor(c, |data|, wpendRet)
    {
      var l := NextLayout(|data|);
      var x := data[..l.len];
      KeepRecord(x, l);
      wpendTot, wpendBuf, wpendRet := |data|, buf, l.len;
    }

    method KeepRecord(x: seq<byte>, l: Layout)
      requires Valid() && wpendLen == 0 && IsFit(c, l) && |x| == l.len > 0 && l.padding < 256
      modifies this`writePtr, this`wpendOff, this`wpendLen, this`writeSequence, this`records, this`chunks
      ensures Valid() && wpendLen > 0 && chunks == old(chunks) + [x]
    {
      KeptNew(c, records, chunks, writeSequence, writePtr, wpendOff, wire, x, l);
      writePtr := RecordBytes(c, writeSequence, x, l);
      wpendOff, wpendLen := 0, |writePtr|;
      records, chunks := records + [writePtr], chunks + [x];
      writeSequence := (writeSequence + 1) % 0x1_0000_0000;
    }

    /** Go on with the record that is kept, or build the next one. */
    method NDoSslWrite(buf: nat, data: seq<byte>) returns (ret: int)
      requires Valid() && data != []
      modifies this
      ensures Valid() && wnum == old(wnum)
      ensures if old(wpendLen) > 0 then Unmoved(old(wpendBuf), old(wpendTot), old(wpendRet), old(chunks))
              else 0 < wpendRet <= |data| && Unmoved(buf, |data|, wpendRet, old(chunks) + [data[..wpendRet]])
      ensures if wpendLen == 0 then ret == wpendRet else ret <= 0
      ensures old(wpendLen) == 0 ==> IsFitFor(c, |data|, wpendRet)
      ensures old(wpendLen) == 0 || !old(BadRetry(buf, |data|)) ==> GoesOn(old(writes), ret)
    {
      if wpendLen == 0 {
        BuildRecord(buf, data);
      }
      ret := WritePending(buf, |data|);
    }

    ghost predicate Unmoved(pBuf: nat, pTot: nat, pRet: nat, cs: seq<seq<byte>>)
      reads this
    {
      wpendBuf == pBuf && wpendTot == pTot && wpendRet == pRet && chunks == cs
    }

    /** ssl2_write of the message `msg` at address `buf`, called again with the same buffer until it is
        through: it returns the length once all of it is in records that the transport has taken, and
        meanwhile no byte is lost or repeated. */
    method Write(buf: nat, msg: seq<byte>, ghost before: seq<byte>) returns (ret: int)
      requires Valid() && (msg != [] ==> Midway(buf, msg, before))
      modifies this
      ensures Valid()
      ensures msg == [] ==> ret == 0
      ensures msg != [] && ret <= 0 ==> Midway(buf, msg, before) && old(writes) < writes && ret == bio(writes - 1)
      ensures ret > 0 ==> wnum == 0 && wpendLen == 0 && ret <= |msg| && (!partialWrites ==> ret == |msg|)
      ensures ret > 0 ==> wire == Flat(records) && Flat(chunks) == before + msg[..ret]
    {
      if msg == [] {
        return 0;
      }
      var tot := wnum;
      wnum := 0;
      var n := |msg| - tot;
      while true
        invariant Valid() && wnum == 0 && tot < |msg| && n == |msg| - tot
        invariant Between(buf, msg, before, tot) && old(writes) <= writes
        decreases n
      {
        var i := WriteChunk(buf, msg, before, tot);
        if i <= 0 {
          wnum := tot;
          return i;
        }
        if i == n || partialWrites {
          KeepsNone(writePtr, wpendOff, wire, records);
          return tot + i;
        }
        n := n - i;
        tot := tot + i;
      }
    }

    /** One turn of the loop. */
    method WriteChunk(buf: nat, msg: seq<byte>, ghost before: seq<byte>, tot: nat) returns (i: int)
      requires Valid() && tot < |msg| && Between(buf, msg, before, tot)
      modifies this
      ensures Valid() && wnum == old(wnum)
      ensures i <= 0 ==> wpendLen > 0 && Between(buf, msg, before, tot) && old(writes) < writes && i == bio(writes - 1)
      ensures i > 0 ==> wpendLen == 0 && tot + i <= |msg| && Between(buf, msg, before, tot + i) && old(writes) < writes
    {
      ghost var was := chunks;
      i := NDoSslWrite(buf + tot, msg[tot..]);
      TakeNext(before, msg, was, tot, wpendRet);
    }

    /** Where the loop is when `tot` bytes are through. */
    ghost predicate Between(buf: nat, msg: seq<byte>, before: seq<byte>, tot: nat)
      reads this
    {
      var between :=
        if wpendLen > 0 then
          && 0 < wpendRet && tot + wpendRet <= |msg| && Flat(chunks) == before + msg[..tot + wpendRet]
          && wpendBuf == buf + tot && wpendTot == |msg| - tot
        else tot <= |msg| && Flat(chunks) == before + msg[..tot];
      between
    }
  }

  /** The chunk is the one that Fit makes of that much data. */
  ghost predicate IsFitFor(c: Config, len: nat, chunk: nat) {
    var fits := c.macSize <= 64 && 1 <= c.bs <= 32 && Fit(c, len).len == chunk;
    fits
  }

  lemma {:induction false} TakeNext(before: seq<byte>, msg: seq<byte>, chunks: seq<seq<byte>>, tot: nat, n: nat)
    requires tot + n <= |msg|
    ensures Flat(chunks) == before + msg[..tot] ==> Flat(chunks + [msg[tot..][..n]]) == before + msg[..tot + n]
  {
    FlatSnoc(chunks, msg[tot..][..n]);
    assert msg[..tot] + msg[tot..][..n] == msg[..tot + n];
  }

  lemma {:induction false} NextSequence(n: nat)
    ensures (n % 0x1_0000_0000 + 1) % 0x1_0000_0000 == (n + 1) % 0x1_0000_0000
  {
  }
}
