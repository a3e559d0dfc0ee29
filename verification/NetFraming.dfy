/**
 Message framing (src/net.cpp, src/net.h): a send queue drained by partial writes and a
 receive parser fed in arbitrary chunks.  The socket is a nondeterministic write.
 */
module NetFraming {
  import opened Prelude

  type Byte = b: int | 0 <= b < 256

  const HEADER_SIZE := 24
  const MAX_SIZE := 0x0200_0000
  const MAX_PROTOCOL_MESSAGE_LENGTH := 4_000_000

  /** A message as it travels: a header of 24 bytes and the data. */
  datatype Frame = Frame(header: seq<Byte>, data: seq<Byte>)

  /** The little-endian size field after the network magic and the command. */
  function ReadSize(h: seq<Byte>): (n: nat)
    requires |h| == HEADER_SIZE
  {
    var a: int, b: int, c: int, d: int := h[16], h[17], h[18], h[19];
    a + 256 * b + 65536 * c + 16777216 * d
  }

  /** The header PushMessage writes for data of a given size. */
  function MakeHeader(start: seq<Byte>, command: seq<Byte>, size: nat, checksum: seq<Byte>): (h: seq<Byte>)
    requires |start| == 4 && |command| == 12 && |checksum| == 4 && size < 0x1_0000_0000
    ensures |h| == HEADER_SIZE && ReadSize(h) == size
    ensures h[..4] == start && h[4..16] == command && h[20..] == checksum
    ensures h[16] == size % 256 && h[17] == size / 256 % 256 && h[18] == size / 65536 % 256 && h[19] == size / 16777216
  {
    SizeBytes(size);
    start + command + [size % 256, size / 256 % 256, size / 65536 % 256, size / 16777216] + checksum
  }

  lemma SizeBytes(n: nat)
    requires n < 0x1_0000_0000
    ensures n % 256 + 256 * (n / 256 % 256) + 65536 * (n / 65536 % 256) + 16777216 * (n / 16777216) == n
    ensures 0 <= n / 16777216 < 256
  {
    var a := n / 256;
    var b := a / 256;
    assert n / 65536 == b && n / 16777216 == b / 256;
  }

  predicate Framed(f: Frame) {
    |f.header| == HEADER_SIZE && ReadSize(f.header) == |f.data| <= MAX_PROTOCOL_MESSAGE_LENGTH
  }

  predicate AllFramed(fs: seq<Frame>) {
    forall i :: 0 <= i < |fs| ==> Framed(fs[i])
  }

  /** The bytes of messages one after the other. */
  function Wire(fs: seq<Frame>): seq<Byte> {
    if fs == [] then [] else fs[0].header + fs[0].data + Wire(fs[1..])
  }

  lemma {:induction false} WireSnoc(fs: seq<Frame>, f: Frame)
    ensures Wire(fs + [f]) == Wire(fs) + f.header + f.data
  {
    if fs == [] {
      assert [] + [f] == [f] && [f][1..] == [];
    } else {
      assert (fs + [f])[1..] == fs[1..] + [f];
      WireSnoc(fs[1..], f);
    }
  }

  lemma FramedSnoc(fs: seq<Frame>, f: Frame)
    requires AllFramed(fs) && Framed(f)
    ensures AllFramed(fs + [f])
  {
  }

  /** Bytes of a message that has not arrived in full. */
  predicate Partial(p: seq<Byte>) {
    |p| < HEADER_SIZE || |p| < HEADER_SIZE + ReadSize(p[..HEADER_SIZE])
  }

  // ----- framing can be undone -----

  /** The first message of two equal streams is the same. */
  lemma SameFirst(f: Frame, g: Frame, x: seq<Byte>, y: seq<Byte>)
    requires Framed(f) && Framed(g) && f.header + f.data + x <= g.header + g.data + y
    ensures f == g && x <= y
  {
    hide ReadSize;
    var s, t := f.header + f.data + x, g.header + g.data + y;
    assert s[..24] == f.header && t[..24] == g.header && s[..24] == t[..24];
    var n := 24 + |f.data|;
    assert s[24..n] == f.data && t[24..n] == g.data && s[24..n] == t[24..n];
    assert s[n..] == x && t[n..] == y;
  }

  /** What has arrived in full is what was pushed first. */
  lemma {:induction false} Delivered(done: seq<Frame>, partial: seq<Byte>, pushed: seq<Frame>)
    requires AllFramed(done) && AllFramed(pushed) && Partial(partial) && Wire(done) + partial <= Wire(pushed)
    ensures done <= pushed
    ensures Wire(done) + partial == Wire(pushed) ==> done == pushed && partial == []
  {
    hide ReadSize;
    if done == [] {
      assert Wire(done) + partial == partial;
      if pushed != [] {
        NotWhole(partial, pushed[0], Wire(pushed[1..]));
      }
    } else {
      assert pushed != [];
      var rest := Wire(done[1..]) + partial;
      assert Wire(done) + partial == done[0].header + done[0].data + rest;
      SameFirst(done[0], pushed[0], rest, Wire(pushed[1..]));
      Delivered(done[1..], partial, pushed[1..]);
      assert done == [done[0]] + done[1..] && pushed == [pushed[0]] + pushed[1..];
    }
  }

  lemma NotWhole(partial: seq<Byte>, f: Frame, rest: seq<Byte>)
    requires Framed(f) && Partial(partial) && partial <= f.header + f.data + rest
    ensures partial != f.header + f.data + rest
  {
    hide ReadSize;
    var t := f.header + f.data + rest;
    if |partial| >= 24 {
      assert partial[..24] == t[..24] == f.header;
    }
  }

  /** A header found where a message begins is one that was pushed. */
  lemma {:induction false} HeaderWasPushed(done: seq<Frame>, header: seq<Byte>, pushed: seq<Frame>)
    requires AllFramed(done) && AllFramed(pushed) && |header| == HEADER_SIZE && Wire(done) + header <= Wire(pushed)
    ensures ReadSize(header) <= MAX_PROTOCOL_MESSAGE_LENGTH
  {
    hide ReadSize;
    assert pushed != [];
    if done == [] {
      assert Wire(done) + header == header;
      assert Wire(pushed)[..24] == pushed[0].header && Wire(pushed)[..24] == header;
    } else {
      var rest := Wire(done[1..]) + header;
      assert Wire(done) + header == done[0].header + done[0].data + rest;
      SameFirst(done[0], pushed[0], rest, Wire(pushed[1..]));
      HeaderWasPushed(done[1..], header, pushed[1..]);
    }
  }

  // ----- receiving -----

  class NetMessage {
    var inData: bool
    var hdrbuf: seq<Byte>
    var nMessageSize: nat
    var nHdrPos: nat
    var vRecv: seq<Byte>
    var nDataPos: nat

    constructor ()
      ensures Valid() && !Complete() && Arrived() == []
    {
      inData, hdrbuf, nMessageSize, nHdrPos, vRecv, nDataPos := false, seq(24, _ => 0), 0, 0, [], 0;
    }

    ghost predicate Valid()
      reads this
    {
      && |hdrbuf| == HEADER_SIZE && nHdrPos <= HEADER_SIZE
      && (!inData ==> nHdrPos < HEADER_SIZE && vRecv == [] && nDataPos == 0)
      && (inData ==> nHdrPos == HEADER_SIZE && nMessageSize == ReadSize(hdrbuf) && nDataPos <= |vRecv| <= nMessageSize)
    }

    predicate Complete()
      reads this
    {
      inData && nMessageSize == nDataPos
    }

    /** The bytes taken in so far. */
    ghost function Arrived(): seq<Byte>
      requires Valid()
      reads this
    {
      hdrbuf[..nHdrPos] + vRecv[..nDataPos]
    }

    /** A complete message holds exactly its data, however far the buffer had been extended. */
    lemma Whole()
      requires Valid()
      ensures Complete() ==> |vRecv| == nDataPos && Arrived() == hdrbuf + vRecv
      ensures !Complete() ==> Partial(Arrived())
    {
      if Complete() {
        assert hdrbuf[..24] == hdrbuf && vRecv[..nDataPos] == vRecv;
      } else if inData {
        assert Arrived()[..24] == hdrbuf;
      }
    }

    method ReadHeader(pch: seq<Byte>) returns (handled: int)
      requires Valid() && !inData && pch != []
      modifies this
      ensures handled == -1 || handled == Min(24 - old(nHdrPos), |pch|) > 0
      ensures handled >= 0 ==> Valid() && Arrived() == old(Arrived()) + pch[..handled]
      ensures handled < 0 <==> 24 - old(nHdrPos) <= |pch| && ReadSize(old(Arrived()) + pch[..24 - old(nHdrPos)]) > MAX_SIZE
      ensures handled < 0 ==> |hdrbuf| == nHdrPos == 24 && ReadSize(hdrbuf) > MAX_SIZE
      ensures handled >= 0 && inData ==> nMessageSize <= MAX_SIZE
      ensures handled < 0 ==> exists k :: 0 < k <= |pch| && hdrbuf == old(Arrived()) + pch[..k]
    {
      var nCopy := Min(24 - nHdrPos, |pch|);
      ghost var was := hdrbuf[..nHdrPos];
      hdrbuf := hdrbuf[..nHdrPos] + pch[..nCopy] + hdrbuf[nHdrPos + nCopy..];
      nHdrPos := nHdrPos + nCopy;
      assert hdrbuf[..nHdrPos] == was + pch[..nCopy];
      if nHdrPos < 24 {
        return nCopy;
      }
      assert hdrbuf[..24] == hdrbuf;
      nMessageSize := ReadSize(hdrbuf);
      if nMessageSize > MAX_SIZE {
        return -1;
      }
      inData := true;
      return nCopy;
    }

    method ReadData(pch: seq<Byte>) returns (handled: nat)
      requires Valid() && inData && !Complete() && pch != []
      modifies this`vRecv, this`nDataPos
      ensures Valid() && 0 < handled <= |pch| && Arrived() == old(Arrived()) + pch[..handled]
    {
      var nCopy := Min(nMessageSize - nDataPos, |pch|);
      if |vRecv| < nDataPos + nCopy {
        var n := Min(nMessageSize, nDataPos + nCopy + 256 * 1024);
        vRecv := vRecv + seq(n - |vRecv|, _ => 0);
      }
      ghost var was := vRecv[..nDataPos];
      assert was == old(vRecv[..nDataPos]);
      vRecv := vRecv[..nDataPos] + pch[..nCopy] + vRecv[nDataPos + nCopy..];
      nDataPos := nDataPos + nCopy;
      assert vRecv[..nDataPos] == was + pch[..nCopy];
      handled := nCopy;
    }
  }

  // ----- sending -----

  /** Buffers one after the other. */
  function Concat(q: seq<seq<Byte>>): seq<Byte> {
    if q == [] then [] else q[0] + Concat(q[1..])
  }

  lemma {:induction false} ConcatSnoc(q: seq<seq<Byte>>, x: seq<Byte>)
    ensures Concat(q + [x]) == Concat(q) + x
  {
    if q == [] {
      assert [] + [x] == [x] && [x][1..] == [];
    } else {
      assert (q + [x])[1..] == q[1..] + [x];
      ConcatSnoc(q[1..], x);
    }
  }

  /** What is still to be written: the queue from an offset in its first buffer on. */
  ghost predicate Queue(q: seq<seq<Byte>>, offset: nat) {
    (forall i :: 0 <= i < |q| ==> q[i] != []) && (if q == [] then offset == 0 else offset < |q[0]|)
  }

  function Pending(q: seq<seq<Byte>>, offset: nat): seq<Byte> {
    if offset <= |Concat(q)| then Concat(q)[offset..] else []
  }

  /** A write takes bytes off the front of what is pending. */
  lemma Written(q: seq<seq<Byte>>, offset: nat, n: nat)
    requires Queue(q, offset) && q != [] && 0 < n && offset + n <= |q[0]|
    ensures Pending(q, offset) == q[0][offset..offset + n] + Pending(q, offset + n)
    ensures offset + n == |q[0]| ==> Queue(q[1..], 0) && Pending(q, offset + n) == Pending(q[1..], 0)
    ensures offset + n < |q[0]| ==> Queue(q, offset + n)
    ensures |Concat(q)| == |q[0]| + |Concat(q[1..])|
  {
    var all := Concat(q);
    assert all[offset..] == all[offset..offset + n] + all[offset + n..];
    assert all[offset..offset + n] == q[0][offset..offset + n];
    assert all[|q[0]|..] == Concat(q[1..]);
  }

  class Node {
    // sending
    var vSendMsg: seq<seq<Byte>>
    var nSendSize: nat
    var nSendOffset: nat
    var fPauseSend: bool
    const nSendBufferMaxSize: nat
    /** Messages pushed and bytes accepted by the socket, since the start. */
    ghost var pushed: seq<Frame>
    ghost var wire: seq<Byte>

    // receiving
    var vRecvMsg: seq<NetMessage>
    /** The messages received in full. */
    ghost var done: seq<Frame>

    constructor (max: nat)
      ensures SendValid() && RecvValid() && pushed == [] && wire == [] && done == [] && Stream() == []
    {
      vSendMsg, nSendSize, nSendOffset, fPauseSend, nSendBufferMaxSize := [], 0, 0, false, max;
      pushed, wire, vRecvMsg, done := [], [], [], [];
    }

    /** The size counter is exact, and the bytes written and pending are those of the messages pushed. */
    ghost predicate SendValid()
      reads this
    {
      && Queue(vSendMsg, nSendOffset) && nSendSize == |Concat(vSendMsg)|
      && fPauseSend == (nSendSize > nSendBufferMaxSize)
      && wire + Pending(vSendMsg, nSendOffset) == Wire(pushed)
    }

    /** Writes as much of the queue as the socket accepts. */
    method SocketSendData() returns (nSentSize: nat)
      requires SendValid()
      modifies this`vSendMsg, this`nSendSize, this`nSendOffset, this`fPauseSend, this`wire
      ensures SendValid() && old(wire) <= wire && |wire| == |old(wire)| + nSentSize
    {
      hide Pending, Concat, Wire, Queue;
      nSentSize := 0;
      var it := 0;
      ghost var queue := vSendMsg;
      assert queue[0..] == queue;
      while it < |vSendMsg|
        invariant 0 <= it <= |vSendMsg| && vSendMsg == queue
        invariant Queue(queue[it..], nSendOffset) && nSendSize == |Concat(queue[it..])|
        invariant fPauseSend == (nSendSize > nSendBufferMaxSize)
        invariant wire + Pending(queue[it..], nSendOffset) == Wire(pushed)
        invariant old(wire) <= wire && |wire| == |old(wire)| + nSentSize
      {
        var data := vSendMsg[it];
        ghost var rest := queue[it..];
        QueueFirst(rest, nSendOffset);
        assert |data| > nSendOffset;
        var nBytes: int :| -1 <= nBytes <= |data| - nSendOffset;
        if nBytes <= 0 {
          break;
        }
        Written(rest, nSendOffset, nBytes);
        assert rest[1..] == queue[it + 1..];
        wire := wire + data[nSendOffset..nSendOffset + nBytes];
        nSendOffset := nSendOffset + nBytes;
        nSentSize := nSentSize + nBytes;
        if nSendOffset != |data| {
          break;
        }
        nSendOffset := 0;
        nSendSize := nSendSize - |data|;
        fPauseSend := nSendSize > nSendBufferMaxSize;
        it := it + 1;
      }
      if it == |vSendMsg| {
        QueueEmpty(queue[it..], nSendOffset);
        assert nSendOffset == 0;
        assert nSendSize == 0;
      }
      vSendMsg := vSendMsg[it..];
    }

    /** Queues a message, header first, and tries to write when nothing was waiting. */
    method PushMessage(start: seq<Byte>, command: seq<Byte>, checksum: seq<Byte>, data: seq<Byte>) returns (ghost f: Frame)
      requires SendValid() && |start| == 4 && |command| == 12 && |checksum| == 4 && |data| < 0x1_0000_0000
      modifies this`vSendMsg, this`nSendSize, this`nSendOffset, this`fPauseSend, this`wire, this`pushed
      ensures SendValid() && pushed == old(pushed) + [f] && old(wire) <= wire
      ensures f.data == data && (|data| <= MAX_PROTOCOL_MESSAGE_LENGTH ==> Framed(f))
      ensures |f.header| == HEADER_SIZE && ReadSize(f.header) == |data|
      ensures f.header[..4] == start && f.header[4..16] == command && f.header[20..] == checksum
    {
      hide Pending, Concat, Wire, Queue, MakeHeader, ReadSize;
      var header := MakeHeader(start, command, |data|, checksum);
      f := Frame(header, data);
      var optimisticSend := vSendMsg == [];
      Pushed(vSendMsg, nSendOffset, f);
      WireSnoc(pushed, f);
      nSendSize := nSendSize + |data| + HEADER_SIZE;
      if nSendSize > nSendBufferMaxSize {
        fPauseSend := true;
      }
      vSendMsg := vSendMsg + [header];
      if |data| != 0 {
        vSendMsg := vSendMsg + [data];
      }
      assert wire + (Pending(old(vSendMsg), nSendOffset) + f.header + f.data) == wire + Pending(old(vSendMsg), nSendOffset) + f.header + f.data;
      pushed := pushed + [f];
      if optimisticSend {
        var n := SocketSendData();
      }
    }

    /** Whole messages in order, then at most one that is incomplete. */
    ghost predicate RecvValid()
      reads this, vRecvMsg
    {
      && |done| <= |vRecvMsg| <= |done| + 1 && AllFramed(done)
      && Settled(vRecvMsg[..|done|], done)
      && (|vRecvMsg| > |done| ==> vRecvMsg[|done|] !in vRecvMsg[..|done|] && Open(vRecvMsg[|done|]))
    }

    /** Everything received so far. */
    ghost function Stream(): seq<Byte>
      requires RecvValid()
      reads this, vRecvMsg
    {
      Wire(done) + Rest()
    }

    ghost function Rest(): seq<Byte>
      requires RecvValid()
      reads this, vRecvMsg
    {
      if |vRecvMsg| > |done| then vRecvMsg[|done|].Arrived() else []
    }

    /** The message the next byte belongs to. */
    method Current() returns (msg: NetMessage)
      requires RecvValid()
      modifies this`vRecvMsg
      ensures RecvValid() && Stream() == old(Stream()) && done == old(done)
      ensures |vRecvMsg| == |done| + 1 && msg == vRecvMsg[|done|] && msg.Valid() && Rest() == msg.Arrived()
      ensures msg in old(vRecvMsg) || fresh(msg)
      ensures vRecvMsg[..|done|] == old(vRecvMsg[..|done|])
    {
      hide Wire, Settled;
      LastSettled(vRecvMsg[..|done|], done);
      assert |vRecvMsg| == |done| ==> vRecvMsg[..|done|] == vRecvMsg;
      if vRecvMsg == [] || vRecvMsg[|vRecvMsg| - 1].Complete() {
        msg := new NetMessage();
        vRecvMsg := vRecvMsg + [msg];
        assert vRecvMsg[..|done|] == old(vRecvMsg);
      }
      msg := vRecvMsg[|vRecvMsg| - 1];
    }

    /** Lets the message take in bytes; refuses only a header that announces too much. */
    static method Feed(msg: NetMessage, pch: seq<Byte>, ghost done: seq<Frame>) returns (handled: int)
      requires msg.Valid() && Open(msg) && pch != []
      modifies msg
      ensures handled >= 0 ==> msg.Valid() && 0 < handled <= |pch| && msg.Arrived() == old(msg.Arrived()) + pch[..handled]
      ensures handled >= 0 && msg.inData ==> msg.nMessageSize <= MAX_PROTOCOL_MESSAGE_LENGTH
      ensures handled < 0 ==> TooLong(done, Wire(done) + old(msg.Arrived()) + pch)
    {
      hide ReadSize, Wire;
      ghost var arrived := msg.Arrived();
      if !msg.inData {
        handled := msg.ReadHeader(pch);
        if handled < 0 {
          ghost var k :| 0 < k <= |pch| && msg.hdrbuf == arrived + pch[..k];
          FoundTooLong(done, arrived, pch, k, msg.hdrbuf);
          return;
        }
      } else {
        handled := msg.ReadData(pch);
      }
      if msg.inData && msg.nMessageSize > MAX_PROTOCOL_MESSAGE_LENGTH {
        assert msg.Arrived() == msg.hdrbuf;
        FoundTooLong(done, arrived, pch, handled, msg.hdrbuf);
        return -1;
      }
    }

    /** The last message has taken in bytes and may be complete. */
    ghost predicate Between(msg: NetMessage)
      reads this, vRecvMsg, msg
    {
      && |vRecvMsg| == |done| + 1 && msg == vRecvMsg[|done|] && msg !in vRecvMsg[..|done|]
      && AllFramed(done) && Settled(vRecvMsg[..|done|], done)
      && msg.Valid() && (msg.inData ==> msg.nMessageSize <= MAX_PROTOCOL_MESSAGE_LENGTH)
    }

    /** A message that is complete joins those received in full. */
    method Conclude(msg: NetMessage) returns (finished: bool)
      requires Between(msg)
      modifies this`done
      ensures RecvValid() && Stream() == old(Wire(done)) + msg.Arrived()
      ensures old(done) <= done && |done| == |old(done)| + if finished then 1 else 0
    {
      hide ReadSize, Settled, Wire, AllFramed, Partial;
      msg.Whole();
      finished := msg.Complete();
      if finished {
        ghost var f := Frame(msg.hdrbuf, msg.vRecv);
        FramedSnoc(done, f);
        WireSnoc(done, f);
        SettledSnoc(vRecvMsg[..|done|], done, msg, f);
        assert vRecvMsg[..|done| + 1] == vRecvMsg[..|done|] + [msg];
        done := done + [f];
        assert Wire(done) + [] == Wire(done);
      } else {
        OpenIs(msg);
      }
    }

    /** One round of the receive loop. */
    method Absorb(pch: seq<Byte>) returns (handled: int, finished: bool)
      requires RecvValid() && pch != []
      modifies this`vRecvMsg, this`done, vRecvMsg
      ensures forall i :: 0 <= i < |vRecvMsg| ==> vRecvMsg[i] in old(vRecvMsg) || fresh(vRecvMsg[i])
      ensures handled >= 0 ==> RecvValid() && 0 < handled <= |pch| && Stream() == old(Stream()) + pch[..handled]
      ensures handled >= 0 ==> old(done) <= done && |done| == |old(done)| + if finished then 1 else 0
      ensures handled < 0 ==> TooLong(old(done), old(Stream()) + pch)
    {
      hide ReadSize, Settled, Wire, NetMessage.Arrived, NetMessage.Complete, NetMessage.Valid, Open, AllFramed, Partial, TooLong;
      ghost var stream := Stream();
      var msg := Current();
      ghost var arrived := msg.Arrived();
      OpenIs(msg);
      handled := Feed(msg, pch, done);
      if handled < 0 {
        finished := false;
        return;
      }
      Regroup(Wire(done), arrived, pch[..handled]);
      finished := Conclude(msg);
    }

    /** However the bytes are cut, they are taken in one by one and complete messages come out. */
    method ReceiveMsgBytes(pch: seq<Byte>) returns (ok: bool, complete: bool)
      requires RecvValid()
      modifies this`vRecvMsg, this`done, vRecvMsg
      ensures ok ==> RecvValid() && Stream() == old(Stream()) + pch && old(done) <= done
      ensures ok ==> (complete <==> |done| > |old(done)|)
      ensures !ok ==> exists d :: old(done) <= d && AllFramed(d) && TooLong(d, old(Stream()) + pch)
      ensures (exists pushed :: AllFramed(pushed) && old(Stream()) + pch <= Wire(pushed)) ==> ok
    {
      hide Wire, Settled, Open, TooLong;
      PrefixNeverRefused(Stream() + pch);
      ok, complete := true, false;
      var pos := 0;
      ghost var stream := Stream();
      assert pch[..0] == [];
      while pos < |pch|
        invariant 0 <= pos <= |pch| && RecvValid() && Stream() == stream + pch[..pos]
        invariant forall i :: 0 <= i < |vRecvMsg| ==> vRecvMsg[i] in old(vRecvMsg) || fresh(vRecvMsg[i])
        invariant old(done) <= done && (complete <==> |done| > |old(done)|)
      {
        assert stream + pch[..pos] + pch[pos..] == stream + pch;
        var handled, finished := Absorb(pch[pos..]);
        if handled < 0 {
          return false, complete;
        }
        assert pch[..pos + handled] == pch[..pos] + pch[pos..][..handled];
        pos := pos + handled;
        complete := complete || finished;
      }
      assert pch[..|pch|] == pch;
    }
  }

  /** Messages that are complete and hold the given frames. */
  ghost predicate Settled(ms: seq<NetMessage>, done: seq<Frame>)
    reads ms
  {
    |ms| == |done| && forall i :: 0 <= i < |ms| ==>
      ms[i].Valid() && ms[i].Complete() && done[i] == Frame(ms[i].hdrbuf, ms[i].vRecv)
  }

  /** A message still being received, of an acceptable size as far as it is known. */
  ghost predicate Open(m: NetMessage)
    reads m
  {
    m.Valid() && !m.Complete() && (m.inData ==> m.nMessageSize <= MAX_PROTOCOL_MESSAGE_LENGTH)
  }

  lemma OpenIs(m: NetMessage)
    requires m.Valid()
    ensures Open(m) <==> !m.Complete() && (m.inData ==> m.nMessageSize <= MAX_PROTOCOL_MESSAGE_LENGTH)
  {
  }

  lemma LastSettled(ms: seq<NetMessage>, done: seq<Frame>)
    requires Settled(ms, done)
    ensures ms != [] ==> ms[|ms| - 1].Complete()
  {
  }

  lemma SettledSnoc(ms: seq<NetMessage>, done: seq<Frame>, m: NetMessage, f: Frame)
    requires Settled(ms, done) && m.Valid() && m.Complete() && f == Frame(m.hdrbuf, m.vRecv)
    ensures Settled(ms + [m], done + [f])
  {
  }

  /** After whole messages a header follows that announces more than is allowed. */
  ghost predicate TooLong(done: seq<Frame>, stream: seq<Byte>) {
    exists h :: |h| == HEADER_SIZE && ReadSize(h) > MAX_PROTOCOL_MESSAGE_LENGTH && Wire(done) + h <= stream
  }

  lemma FoundTooLong(done: seq<Frame>, arrived: seq<Byte>, pch: seq<Byte>, k: nat, h: seq<Byte>)
    requires k <= |pch| && h == arrived + pch[..k] && |h| == HEADER_SIZE && ReadSize(h) > MAX_PROTOCOL_MESSAGE_LENGTH
    ensures TooLong(done, Wire(done) + arrived + pch)
  {
    hide Wire, ReadSize;
    assert Wire(done) + arrived + pch == Wire(done) + h + pch[k..];
  }

  /** Between two nodes: messages arrive intact and in order, and no chunk of them is refused. */
  lemma EndToEnd(sender: Node, receiver: Node)
    requires sender.SendValid() && receiver.RecvValid() && AllFramed(sender.pushed)
    requires receiver.Stream() <= sender.wire
    ensures receiver.done <= sender.pushed
    ensures receiver.Stream() == sender.wire && sender.vSendMsg == [] ==> receiver.done == sender.pushed
    ensures forall d, pch :: AllFramed(d) && receiver.Stream() + pch <= sender.wire ==> !TooLong(d, receiver.Stream() + pch)
  {
    hide Wire, Queue, Framed, ReadSize, Settled, TooLong;
    forall d, pch | AllFramed(d) && receiver.Stream() + pch <= sender.wire
      ensures !TooLong(d, receiver.Stream() + pch)
    {
      NeverRefused(d, receiver.Stream() + pch, sender.pushed);
    }
    var partial := receiver.Rest();
    if |receiver.vRecvMsg| > |receiver.done| {
      receiver.vRecvMsg[|receiver.done|].Whole();
    }
    Delivered(receiver.done, partial, sender.pushed);
    if sender.vSendMsg == [] {
      assert Pending(sender.vSendMsg, sender.nSendOffset) == [];
    }
  }

  lemma NeverRefused(done: seq<Frame>, received: seq<Byte>, pushed: seq<Frame>)
    requires AllFramed(done) && AllFramed(pushed) && received <= Wire(pushed)
    ensures !TooLong(done, received)
  {
    hide Wire, Framed, ReadSize;
    forall h | |h| == HEADER_SIZE && Wire(done) + h <= received
      ensures ReadSize(h) <= MAX_PROTOCOL_MESSAGE_LENGTH
    {
      HeaderWasPushed(done, h, pushed);
    }
  }

  lemma PrefixNeverRefused(received: seq<Byte>)
    ensures (exists pushed :: AllFramed(pushed) && received <= Wire(pushed)) ==>
              forall d :: AllFramed(d) ==> !TooLong(d, received)
  {
    hide Wire, AllFramed, TooLong;
    forall d, pushed | AllFramed(d) && AllFramed(pushed) && received <= Wire(pushed)
      ensures !TooLong(d, received)
    {
      NeverRefused(d, received, pushed);
    }
  }

  lemma Regroup(a: seq<Byte>, b: seq<Byte>, c: seq<Byte>)
    ensures a + (b + c) == a + b + c
  {
  }

  lemma QueueFirst(q: seq<seq<Byte>>, offset: nat)
    requires Queue(q, offset) && q != []
    ensures offset < |q[0]|
  {
  }

  lemma QueueEmpty(q: seq<seq<Byte>>, offset: nat)
    requires Queue(q, offset) && q == []
    ensures offset == 0 && Concat(q) == []
  {
  }

  lemma Pushed(q: seq<seq<Byte>>, offset: nat, f: Frame)
    requires Queue(q, offset) && |f.header| == HEADER_SIZE
    ensures var r := if |f.data| != 0 then q + [f.header] + [f.data] else q + [f.header];
            && Queue(r, offset) && |Concat(r)| == |Concat(q)| + HEADER_SIZE + |f.data|
            && Pending(r, offset) == Pending(q, offset) + f.header + f.data
  {
    ConcatSnoc(q, f.header);
    ConcatSnoc(q + [f.header], f.data);
    OffsetFits(q, offset);
    hide Concat;
    var c := Concat(q);
    assert (c + f.header)[offset..] == c[offset..] + f.header;
    assert (c + f.header + f.data)[offset..] == c[offset..] + f.header + f.data;
    if |f.data| == 0 {
      assert c[offset..] + f.header + f.data == c[offset..] + f.header;
    }
  }

  lemma OffsetFits(q: seq<seq<Byte>>, offset: nat)
    requires Queue(q, offset)
    ensures offset <= |Concat(q)|
  {
  }
}
