/**
 ssl3_get_message (s3_both.c): handshake messages out of a byte stream that comes in pieces, with calls
 that return early and messages that are handed up again.
 */
module MessageReader {
  import opened Bits
  import opened Fields

  const HELLO_REQUEST: byte := 0
  const CLIENT_HELLO: byte := 1

  datatype Message = Message(mtype: byte, body: seq<byte>) {
    predicate Fits() { |body| < 0x100_0000 }

    function Header(): (h: seq<byte>)
      ensures |h| == 4
    {
      [mtype] + Put3(|body|)
    }

    function Bytes(): seq<byte> { Header() + body }

    /** A client passes over HelloRequests, if there is nothing in them. */
    predicate Skipped(server: bool) { !server && mtype == HELLO_REQUEST && body == [] }
  }

  function SizeIn(h: seq<byte>): nat
    requires |h| >= 4
  {
    Get3(h, 1)
  }

  predicate IsHelloRequest(server: bool, h: seq<byte>)
    requires |h| >= 4
  {
    !server && h[0] == HELLO_REQUEST && h[1] == 0 && h[2] == 0 && h[3] == 0
  }

  // ---- the stream read at once ----------------------------------------------------------------

  /** All messages of a stream, up to a partial one at the end. */
  function Parse(server: bool, s: seq<byte>): seq<Message>
    decreases |s|
  {
    if |s| < 4 then []
    else if IsHelloRequest(server, s) then Parse(server, s[4..])
    else if |s| < 4 + SizeIn(s) then []
    else [Message(s[0], s[4..4 + SizeIn(s)])] + Parse(server, s[4 + SizeIn(s)..])
  }

  function Flat(ms: seq<Message>): seq<byte> {
    if ms == [] then [] else ms[0].Bytes() + Flat(ms[1..])
  }

  function Kept(server: bool, ms: seq<Message>): seq<Message> {
    if ms == [] then []
    else (if ms[0].Skipped(server) then [] else [ms[0]]) + Kept(server, ms[1..])
  }

  lemma {:induction false} HeaderBack(m: Message, rest: seq<byte>)
    requires m.Fits()
    ensures var s := m.Bytes() + rest;
      && |s| >= 4 + |m.body| && s[0] == m.mtype && SizeIn(s) == |m.body|
      && s[4..4 + |m.body|] == m.body && s[4 + |m.body|..] == rest
      && !IsHelloRequest(true, s) && (IsHelloRequest(false, s) <==> m.Skipped(false))
  {
    var n := |m.body|;
    var s := m.Bytes() + rest;
    assert s[4..4 + n] == m.body && s[4 + n..] == rest && s[1..4] == Put3(n);
    Field3(s, 1, n);
    LowPart(n, 0x100_0000);
  }

  /** Parsing what was printed gives it back, on a client without the empty HelloRequests. */
  lemma {:induction false} ParseFlat(server: bool, ms: seq<Message>)
    requires forall m | m in ms :: m.Fits()
    ensures Parse(server, Flat(ms)) == Kept(server, ms)
    decreases |ms|
  {
    if ms != [] {
      var m, rest := ms[0], Flat(ms[1..]);
      var s := m.Bytes() + rest;
      HeaderBack(m, rest);
      assert IsHelloRequest(server, s) <==> m.Skipped(server);
      ParseFlat(server, ms[1..]);
      assert Parse(server, s) == (if m.Skipped(server) then [] else [m]) + Parse(server, rest);
    }
  }

  // ---- the code -------------------------------------------------------------------------------

  lemma {:induction false} FlatSnoc(ms: seq<Message>, m: Message)
    ensures Flat(ms + [m]) == Flat(ms) + m.Bytes()
  {
    if ms == [] {
      assert [] + [m] == [m] && [m][1..] == [];
      assert Flat([m]) == m.Bytes() + Flat([]);
    } else {
      assert (ms + [m])[1..] == ms[1..] + [m];
      FlatSnoc(ms[1..], m);
    }
  }

  /** What Valid says of the messages and the hash. */
  ghost predicate Accounted(
    server: bool, whole: seq<byte>, pending: seq<byte>, delivered: seq<Message>, restart: nat, transcript: seq<byte>)
  {
    var accounted :=
      && Parse(server, whole) == delivered + Parse(server, pending)
      && restart <= |delivered| && transcript == Flat(delivered[restart..]);
    accounted
  }

  class Reader {
    const server: bool
    const answers: nat -> int        // what the record layer answers, read by read
    var count: nat
    var stream: seq<byte>            // handshake bytes still to come
    var inBody: bool                 // the state is stn, and not st1
    var initBuf: seq<byte>           // what has come of the message
    var initNum: nat
    var messageType: byte
    var messageSize: nat
    var reuseMessage: bool
    var transcript: seq<byte>        // what the Finished hash has been given
    ghost const whole: seq<byte>     // the stream from its start
    ghost var delivered: seq<Message>
    ghost var restart: nat           // the messages of the hash start here
    ghost var done: bool             // a message has been handed up and not been replaced

    /** Bytes that are not part of a message handed up. */
    ghost function Pending(): seq<byte>
      reads this
    {
      if done then stream else initBuf + stream
    }

    ghost predicate BufferFits()
      reads this
    {
      if done then
        && delivered != [] && initBuf == delivered[|delivered| - 1].Bytes()
        && messageType == initBuf[0] && messageSize == |initBuf| - 4
      else if inBody then
        && |initBuf| == 4 + initNum && initNum <= messageSize == SizeIn(initBuf) && messageType == initBuf[0]
        && !IsHelloRequest(server, initBuf)
      else
        |initBuf| == initNum <= 4
    }

    /** The messages of the whole stream are those handed up and those that are pending; the hash has
        each of those handed up once, since the last restart. */
    ghost predicate Valid()
      reads this
    {
      BufferFits() && (reuseMessage ==> done)
      && Accounted(server, whole, Pending(), delivered, restart, transcript)
    }

    /** The last read brought nothing: the record layer had none, or there is none left. */
    predicate Stalled()
      reads this
    {
      count > 0 && (answers(count - 1) <= 0 || stream == [])
    }

    /** All of a header is there, and it was accepted or is about to be looked at. */
    predicate HeaderDone()
      reads this
    {
      |initBuf| >= 4 && (inBody || initNum == 4)
    }

    /** A second ClientHello, in the state where it may come. */
    predicate Restarts(mt: int, secondHello: bool)
      reads this
    {
      HeaderDone() && mt < 0 && secondHello && initBuf[0] == CLIENT_HELLO
    }

    constructor (server: bool, answers: nat -> int, whole: seq<byte>)
      ensures Valid() && !done && !inBody && delivered == [] && restart == 0 && transcript == []
      ensures this.whole == whole && this.server == server
    {
      this.server, this.answers, this.whole := server, answers, whole;
      count, stream, inBody, initBuf, initNum := 0, whole, false, [], 0;
      messageType, messageSize, reuseMessage, transcript := 0, 0, false, [];
      delivered, restart, done := [], 0, false;
      new;
      assert [] + whole == whole;
    }

    /** The record layer gives some of what was asked for, or nothing. */
    method ReadBytes(n: nat) returns (i: int, data: seq<byte>)
      requires n > 0
      modifies this`count, this`stream
      ensures i <= n && |data| == (if i > 0 then i else 0)
      ensures old(stream) == data + stream
      ensures count == old(count) + 1 && (i <= 0 ==> Stalled())
    {
      i := answers(count);
      count := count + 1;
      if i > n {
        i := n;
      }
      if i > |stream| {
        i := |stream|;
      }
      if i <= 0 {
        return i, [];
      }
      data := stream[..i];
      stream := stream[i..];
    }

    /** What comes goes behind what there is of the message. */
    method ReadMore(n: nat) returns (i: int)
      requires n > 0 && !done
      modifies this`count, this`stream, this`initBuf
      ensures Pending() == old(Pending()) && i <= n && (i <= 0 ==> Stalled())
      ensures old(initBuf) <= initBuf && |initBuf| == |old(initBuf)| + if i > 0 then i else 0
    {
      var data;
      i, data := ReadBytes(n);
      Regroup(initBuf, data, stream);
      initBuf := initBuf + data;
    }

    /** The handler has dealt with the message, or leaves it to the next; the loop moves on to st1. */
    method Next(putBack: bool)
      requires Valid() && done
      modifies this`inBody, this`initNum, this`initBuf, this`reuseMessage, this`done
      ensures Valid() && !inBody && reuseMessage == putBack && done == putBack
    {
      reuseMessage := putBack;
      inBody := false;
      initNum := 0;
      if !putBack {
        initBuf := [];
        done := false;
        assert [] + stream == stream;
      }
    }

    method FillHeader() returns (i: int)
      requires Valid() && !done && !inBody
      modifies this`count, this`stream, this`initBuf, this`initNum
      ensures Valid() && Pending() == old(Pending()) && (i > 0 <==> initNum == 4) && (i <= 0 ==> Stalled())
    {
      while initNum < 4
        invariant Valid() && Pending() == old(Pending()) && initNum <= 4
        decreases 4 - initNum
      {
        i := ReadMore(4 - initNum);
        if i <= 0 {
          return;
        }
        initNum := initNum + i;
      }
      return 1;
    }

    /** A HelloRequest is dropped, and does not count for the Finished hash. */
    method DropRequest()
      requires Valid() && !done && !inBody && initNum == 4 && IsHelloRequest(server, initBuf)
      modifies this`initBuf, this`initNum
      ensures Valid() && |Pending()| < |old(Pending())|
    {
      Skipped(server, whole, initBuf, stream, delivered, restart, transcript);
      initBuf := [];
      initNum := 0;
    }

    /** The four bytes of a header, past HelloRequests. */
    method ReadHeader() returns (i: int)
      requires Valid() && !done && !inBody
      modifies this`count, this`stream, this`initBuf, this`initNum
      ensures Valid() && (i > 0 ==> initNum == 4 && !IsHelloRequest(server, initBuf))
      ensures i <= 0 ==> initNum < 4 && Stalled()
    {
      var skipMessage := true;
      while skipMessage
        invariant Valid() && (!skipMessage ==> initNum == 4 && !IsHelloRequest(server, initBuf))
        decreases |Pending()|, skipMessage
      {
        i := FillHeader();
        if i <= 0 {
          return;
        }
        skipMessage := false;
        if !server && initBuf[0] == HELLO_REQUEST {
          if initBuf[1] == 0 && initBuf[2] == 0 && initBuf[3] == 0 {
            DropRequest();
            skipMessage := true;
          }
        }
      }
      return 1;
    }

    method ReadBody() returns (i: int)
      requires Valid() && !done && inBody
      modifies this`count, this`stream, this`initBuf, this`initNum
      ensures Valid() && (i > 0 ==> initNum == messageSize) && (i <= 0 ==> Stalled())
      ensures initBuf[..4] == old(initBuf[..4])
    {
      var n := messageSize - initNum;
      while n > 0
        invariant Valid() && n == messageSize - initNum && |initBuf| >= 4
        invariant initBuf[..4] == old(initBuf[..4])
        decreases n
      {
        i := ReadMore(n);
        if i <= 0 {
          return;
        }
        initNum := initNum + i;
        n := n - i;
      }
      return 1;
    }

    /** Header and body are there: they are hashed, and the message is handed up. */
    method HandUp()
      requires Valid() && !done && inBody && initNum == messageSize
      modifies this`transcript, this`delivered, this`done
      ensures Valid() && done
      ensures delivered == old(delivered) + [Message(messageType, initBuf[4..])]
      ensures transcript == old(transcript) + initBuf
    {
      var m := Message(messageType, initBuf[4..]);
      HandedUp(server, whole, delivered, restart, transcript, initBuf, stream, m);
      transcript := transcript + initBuf;
      delivered := delivered + [m];
      done := true;
    }

    /** What is checked of a header before its body is read. */
    method TakeHeader(mt: int, secondHello: bool, max: nat) returns (ok: bool)
      requires Valid() && !done && !inBody && initNum == 4 && !IsHelloRequest(server, initBuf)
      modifies this`transcript, this`restart, this`messageType, this`messageSize, this`inBody, this`initNum
      ensures Valid() && inBody == ok
      ensures ok <==> (mt >= 0 ==> initBuf[0] as int == mt) && SizeIn(initBuf) <= max
      ensures ok ==> messageType == initBuf[0] && messageSize == SizeIn(initBuf)
      ensures !ok ==> initNum == 4
      ensures restart == if mt < 0 && secondHello && initBuf[0] == CLIENT_HELLO then |delivered| else old(restart)
    {
      if mt >= 0 && initBuf[0] as int != mt {
        return false;
      }
      if mt < 0 && initBuf[0] == CLIENT_HELLO && secondHello {
        Restarted(server, whole, Pending(), delivered, restart, transcript);
        transcript := [];
        restart := |delivered|;
      }
      messageType := initBuf[0];
      if SizeIn(initBuf) > max {
        return false;
      }
      messageSize := SizeIn(initBuf);
      inBody := true;
      initNum := 0;
      return true;
    }

    /** The message that was put back, without reading or hashing. */
    method HandUpAgain(mt: int) returns (ok: bool)
      requires Valid() && reuseMessage
      modifies this`reuseMessage, this`initNum
      ensures Valid() && (ok <==> mt < 0 || mt == messageType as int)
    {
      reuseMessage := false;
      if mt >= 0 && messageType as int != mt {
        return false;
      }
      initNum := messageSize;
      return true;
    }

    /** ssl3_get_message. `secondHello` is the state in which a server lets a ClientHello start again. */
    method GetMessage(mt: int, secondHello: bool, max: nat) returns (ok: bool, n: int)
      requires Valid() && (done ==> reuseMessage)
      modifies this
      ensures Valid()
      ensures ok ==> done && n == messageSize && initBuf == delivered[|delivered| - 1].Bytes()
      ensures old(reuseMessage) ==> delivered == old(delivered) && transcript == old(transcript)
      ensures old(reuseMessage) ==> (ok <==> mt < 0 || mt == old(messageType))
      ensures !old(reuseMessage) && ok ==> delivered[..|delivered| - 1] == old(delivered)
      ensures !old(reuseMessage) && !ok ==> delivered == old(delivered) && n <= 0
      ensures old(reuseMessage) ==> restart == old(restart)
      ensures !old(reuseMessage) ==>
        restart == if !old(inBody) && Restarts(mt, secondHello) then |old(delivered)| else old(restart)
      ensures !old(reuseMessage) && !old(inBody) && HeaderDone() ==>
        (inBody <==> (mt >= 0 ==> initBuf[0] as int == mt) && SizeIn(initBuf) <= max)
      ensures !old(reuseMessage) && !ok ==> Stalled() || (!inBody && HeaderDone())
      ensures ok && mt >= 0 && !old(inBody) ==> messageType as int == mt
      ensures ok && !old(inBody) && !old(reuseMessage) ==> messageSize <= max
    {
      if reuseMessage {
        ok := HandUpAgain(mt);
        n := if ok then messageSize else -1;
      } else {
        ok, n := ReadMessage(mt, secondHello, max);
      }
    }

    /** The header is read and looked at. */
    method StartMessage(mt: int, secondHello: bool, max: nat) returns (ok: bool, n: int)
      requires Valid() && !done && !inBody
      modifies this`count, this`stream, this`initBuf, this`initNum, this`transcript, this`restart
      modifies this`messageType, this`messageSize, this`inBody
      ensures Valid() && ok == inBody && (!ok ==> n <= 0)
      ensures restart == if Restarts(mt, secondHello) then |delivered| else old(restart)
      ensures HeaderDone() ==> (inBody <==> (mt >= 0 ==> initBuf[0] as int == mt) && SizeIn(initBuf) <= max)
      ensures ok ==> (mt >= 0 ==> messageType as int == mt) && messageSize <= max
      ensures !ok ==> Stalled() || HeaderDone()
    {
      var i := ReadHeader();
      if i <= 0 {
        return false, i;
      }
      ok := TakeHeader(mt, secondHello, max);
      n := -1;
    }

    method ReadMessage(mt: int, secondHello: bool, max: nat) returns (ok: bool, n: int)
      requires Valid() && !done
      modifies this
      ensures Valid()
      ensures ok ==> done && n == messageSize && delivered != [] && delivered[..|delivered| - 1] == old(delivered)
      ensures !ok ==> delivered == old(delivered) && n <= 0
      ensures restart == if !old(inBody) && Restarts(mt, secondHello) then |old(delivered)| else old(restart)
      ensures !old(inBody) && HeaderDone() ==>
        (inBody <==> (mt >= 0 ==> initBuf[0] as int == mt) && SizeIn(initBuf) <= max)
      ensures !ok ==> Stalled() || (!inBody && HeaderDone())
      ensures ok && !old(inBody) ==> (mt >= 0 ==> messageType as int == mt) && messageSize <= max
    {
      if !inBody {
        ok, n := StartMessage(mt, secondHello, max);
        if !ok {
          return;
        }
      }
      ghost var header := initBuf[..4];
      ok, n := FinishMessage();
      SameHeader(header, initBuf);
    }

    /** The body is read, and the message handed up when it is all there. */
    method FinishMessage() returns (ok: bool, n: int)
      requires Valid() && !done && inBody
      modifies this`count, this`stream, this`initBuf, this`initNum, this`transcript, this`delivered, this`done
      ensures Valid() && ok == done
      ensures |initBuf| >= 4 && initBuf[..4] == old(initBuf[..4])
      ensures ok ==> n == messageSize && delivered != [] && delivered[..|delivered| - 1] == old(delivered)
      ensures !ok ==> delivered == old(delivered) && n <= 0 && Stalled()
    {
      var i := ReadBody();
      if i <= 0 {
        return false, i;
      }
      HandUp();
      return true, initNum;
    }
  }

  lemma {:induction false} SameHeader(header: seq<byte>, buf: seq<byte>)
    requires |header| == 4 && |buf| >= 4 && buf[..4] == header
    ensures buf[0] == header[0] && SizeIn(buf) == SizeIn(header)
  {
  }

  lemma {:induction false} SkipsRequest(server: bool, header: seq<byte>, stream: seq<byte>)
    requires |header| == 4 && IsHelloRequest(server, header)
    ensures Parse(server, header + stream) == Parse(server, stream)
  {
    assert (header + stream)[4..] == stream;
  }

  lemma {:induction false} TakesMessage(server: bool, buf: seq<byte>, stream: seq<byte>, m: Message)
    requires |buf| >= 4 && |buf| == 4 + SizeIn(buf) && !IsHelloRequest(server, buf)
    requires m == Message(buf[0], buf[4..])
    ensures Parse(server, buf + stream) == [m] + Parse(server, stream)
    ensures m.Bytes() == buf
  {
    var s := buf + stream;
    var n := |m.body|;
    assert SizeIn(s) == SizeIn(buf) && s[4..4 + n] == m.body && s[4 + n..] == stream;
    FieldDigits(buf[1], buf[2], buf[3]);
    assert Put3(n) == [buf[1], buf[2], buf[3]];
    assert buf == [buf[0], buf[1], buf[2], buf[3]] + buf[4..];
  }

  lemma {:induction false} HandedUp(
    server: bool, whole: seq<byte>, delivered: seq<Message>, restart: nat, transcript: seq<byte>, buf: seq<byte>,
    stream: seq<byte>, m: Message)
    requires |buf| >= 4 && |buf| == 4 + SizeIn(buf) && !IsHelloRequest(server, buf) && m == Message(buf[0], buf[4..])
    requires Accounted(server, whole, buf + stream, delivered, restart, transcript)
    ensures Accounted(server, whole, stream, delivered + [m], restart, transcript + buf) && m.Bytes() == buf
  {
    TakesMessage(server, buf, stream, m);
    OneMore(Parse(server, whole), delivered, m, Parse(server, stream));
    OneMoreFlat(delivered, restart, m);
  }

  lemma {:induction false} OneMore(all: seq<Message>, delivered: seq<Message>, m: Message, rest: seq<Message>)
    requires all == delivered + ([m] + rest)
    ensures all == delivered + [m] + rest
  {
  }

  lemma {:induction false} OneMoreFlat(delivered: seq<Message>, restart: nat, m: Message)
    requires restart <= |delivered|
    ensures Flat((delivered + [m])[restart..]) == Flat(delivered[restart..]) + m.Bytes()
  {
    assert (delivered + [m])[restart..] == delivered[restart..] + [m];
    FlatSnoc(delivered[restart..], m);
  }

  lemma {:induction false} Regroup(a: seq<byte>, b: seq<byte>, c: seq<byte>)
    ensures a + (b + c) == (a + b) + c
  {
  }

  /** A HelloRequest is no part of the messages. */
  lemma {:induction false} Skipped(
    server: bool, whole: seq<byte>, header: seq<byte>, stream: seq<byte>, delivered: seq<Message>, restart: nat,
    transcript: seq<byte>)
    requires |header| == 4 && IsHelloRequest(server, header)
    requires Accounted(server, whole, header + stream, delivered, restart, transcript)
    ensures Accounted(server, whole, [] + stream, delivered, restart, transcript)
  {
    SkipsRequest(server, header, stream);
    assert [] + stream == stream;
  }

  /** The hash starts again. */
  lemma {:induction false} Restarted(
    server: bool, whole: seq<byte>, pending: seq<byte>, delivered: seq<Message>, restart: nat, transcript: seq<byte>)
    requires Accounted(server, whole, pending, delivered, restart, transcript)
    ensures Accounted(server, whole, pending, delivered, |delivered|, [])
  {
    assert delivered[|delivered|..] == [];
  }
}
