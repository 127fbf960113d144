// The whole transport: messages encoded and sent on one side, received, cut and decoded on
// the other, over a wire that chunks as it likes. Both ends use message buffers of max bytes,
// 4096 in the server; everything here holds for every size up to that of the receive buffer.
module Link {
  import opened Common
  import opened Message
  import opened TcpSocket

  predicate Sendable(m: Msg, max: int) {
    Fits(m) && |Encode(m)| <= max
  }

  ghost predicate AllSendable(ms: seq<Msg>, max: int) {
    forall i :: 0 <= i < |ms| ==> Sendable(ms[i], max)
  }

  function EncodeAll(ms: seq<Msg>): (fs: seq<seq<byte>>)
    ensures |fs| == |ms| && forall i :: 0 <= i < |ms| ==> fs[i] == Encode(ms[i])
  {
    seq(|ms|, i requires 0 <= i < |ms| => Encode(ms[i]))
  }

  function Concat(fs: seq<seq<byte>>): seq<byte> {
    if fs == [] then [] else fs[0] + Concat(fs[1..])
  }

  // The bytes of a sequence of messages.
  function Bytes(ms: seq<Msg>): seq<byte> { Concat(EncodeAll(ms)) }

  lemma {:induction false} ConcatAppend(fs: seq<seq<byte>>, f: seq<byte>)
    ensures Concat(fs + [f]) == Concat(fs) + f
  {
    var more := fs + [f];
    if fs == [] {
      assert more == [f] && more[1..] == [];
    } else {
      var later := Concat(fs[1..]);
      assert more[0] == fs[0] && more[1..] == fs[1..] + [f];
      ConcatAppend(fs[1..], f);
      assert fs[0] + (later + f) == fs[0] + later + f;
    }
  }

  lemma BytesAppend(ms: seq<Msg>, m: Msg)
    ensures EncodeAll(ms + [m]) == EncodeAll(ms) + [Encode(m)]
    ensures Bytes(ms + [m]) == Bytes(ms) + Encode(m)
  {
    ConcatAppend(EncodeAll(ms), Encode(m));
  }

  // The first four bytes of an encoded message are its length.
  lemma FrameLength(m: Msg, s: seq<byte>)
    requires Fits(m) && 4 <= |s| && s[..4] == Encode(m)[..4]
    ensures Announced(s) == |Encode(m)|
  {
    DecodeEncode(m);
    var h := Stamp(m).head;
    assert Encode(m)[..4] == BE32(ToUint32(h.packetlen));
    WordAt(s, 0, ToUint32(h.packetlen));
    assert s[0..] == s;
    SignRoundTrip(h.packetlen, 0);
  }

  lemma ShortFrontIsIncomplete(m: Msg, s: seq<byte>, max: int)
    requires Sendable(m, max) && s < Encode(m)
    ensures FrontFrame(s, max).Incomplete?
  {
    if |s| > 4 { FrameLength(m, s); }
  }

  lemma WholeFrontIsCut(m: Msg, s: seq<byte>, max: int)
    requires Sendable(m, max) && Encode(m) <= s
    ensures FrontFrame(s, max) == Whole(|Encode(m)|)
  {
    DecodeEncode(m);
    FrameLength(m, s);
  }

  // The front of a prefix of the encoded stream: a piece of the first message, or all of it
  // and then a prefix of the rest of the stream.
  lemma FirstMessage(ms: seq<Msg>, p: seq<byte>, max: int)
    requires ms != [] && AllSendable(ms, max) && p <= Bytes(ms)
    ensures var e := Encode(ms[0]);
            if |p| < |e| then FrontFrame(p, max).Incomplete?
            else FrontFrame(p, max) == Whole(|e|) && p[..|e|] == e && p[|e|..] <= Bytes(ms[1..]) &&
                 (p == Bytes(ms) <==> p[|e|..] == Bytes(ms[1..]))
  {
    var e, later := Encode(ms[0]), Bytes(ms[1..]);
    assert EncodeAll(ms)[1..] == EncodeAll(ms[1..]);
    assert Bytes(ms) == e + later;
    if |p| < |e| {
      assert p == (e + later)[..|p|] == e[..|p|];
      ShortFrontIsIncomplete(ms[0], p, max);
    } else {
      var q := p[|e|..];
      assert p[..|e|] == (e + later)[..|e|] == e;
      assert p == e + q && q == later[..|q|];
      WholeFrontIsCut(ms[0], p, max);
    }
  }

  lemma EncodeAllCons(ms: seq<Msg>, k: nat)
    requires k < |ms|
    ensures EncodeAll(ms)[..k + 1] == [Encode(ms[0])] + EncodeAll(ms[1..])[..k]
  {}

  lemma FramesCons(p: seq<byte>, n: nat, max: int)
    requires FrontFrame(p, max) == Whole(n)
    ensures Frames(p, max) == [p[..n]] + Frames(p[n..], max)
  {}

  // Cutting any prefix of the encoded stream yields whole messages from its start, and all
  // of them when the whole stream is there.
  lemma {:induction false} FramesOfPrefix(ms: seq<Msg>, p: seq<byte>, max: int) returns (n: nat)
    requires AllSendable(ms, max) && p <= Bytes(ms)
    ensures n <= |ms| && Frames(p, max) == EncodeAll(ms)[..n]
    ensures n == |ms| <==> p == Bytes(ms)
    decreases |ms|
  {
    n := 0;
    if ms != [] {
      FirstMessage(ms, p, max);
      var e := Encode(ms[0]);
      if |p| >= |e| {
        var k := FramesOfPrefix(ms[1..], p[|e|..], max);
        EncodeAllCons(ms, k);
        FramesCons(p, |e|, max);
        n := k + 1;
      }
    }
  }

  // What is left after cutting a prefix of the encoded stream is a piece of one message: it
  // shows no corrupt length, and it is shorter than the limit.
  lemma {:induction false} RestOfPrefix(ms: seq<Msg>, p: seq<byte>, max: int)
    requires AllSendable(ms, max) && p <= Bytes(ms) && max > 0
    ensures FrontFrame(Rest(p, max), max).Incomplete? && |Rest(p, max)| < max
    decreases |ms|
  {
    if ms != [] {
      FirstMessage(ms, p, max);
      if |p| >= |Encode(ms[0])| {
        RestOfPrefix(ms[1..], p[|Encode(ms[0])|..], max);
      }
    }
  }

  // No frame is cut from an incomplete message at the end of the stream.
  lemma FramesOfBrokenStream(ms: seq<Msg>, m: Msg, p: seq<byte>, max: int) returns (n: nat)
    requires AllSendable(ms, max) && Sendable(m, max) && p < Bytes(ms) + Encode(m)
    ensures n <= |ms| && Frames(p, max) == EncodeAll(ms)[..n]
  {
    BytesAppend(ms, m);
    n := FramesOfPrefix(ms + [m], p, max);
    assert EncodeAll(ms + [m])[..n] == EncodeAll(ms)[..n];
  }

  // ---- The invariant of a connection, on values ----

  // What SendData has accepted, as encoded; and the message whose sending failed part way,
  // with how much of it got out.
  datatype Outgoing = Outgoing(accepted: seq<Msg>, victim: Msg, scrap: nat)

  // The stream is the accepted messages in order, plus at most a piece of one more that no
  // later call can complete.
  ghost predicate SenderInv(stream: seq<byte>, isUsing: bool, o: Outgoing, max: int) {
    && AllSendable(o.accepted, max) && Sendable(o.victim, max) && o.scrap < |Encode(o.victim)|
    && (forall i :: 0 <= i < |o.accepted| ==> Stamp(o.accepted[i]) == o.accepted[i])
    && stream == Bytes(o.accepted) + Encode(o.victim)[..o.scrap]
    && (o.scrap > 0 ==> !isUsing)
  }

  // Everything received, what of it is still unread, and the frames cut from it.
  datatype Incoming = Incoming(received: seq<byte>, unread: seq<byte>, cut: seq<seq<byte>>)

  // The frames cut so far, followed by those the unread bytes hold, are the frames of
  // everything received.
  ghost predicate CutInv(i: Incoming, max: int) {
    && Frames(i.received, max) == i.cut + Frames(i.unread, max)
    && Rest(i.received, max) == Rest(i.unread, max)
  }

  // Each cut frame was decoded.
  ghost predicate DecodedAs(cut: seq<seq<byte>>, delivered: seq<Msg>) {
    |cut| == |delivered| && forall i :: 0 <= i < |cut| ==> Decode(cut[i]) == Some(delivered[i])
  }

  // What a SendData call on an encoded message does to the history.
  function AfterSend(o: Outgoing, m: Msg, isUsing: bool, status: WriteStatus, part: nat): Outgoing {
    if !isUsing then o
    else match status
      case WriteSuccess => o.(accepted := o.accepted + [m])
      case WriteNotFinish => o
      case WriteError => o.(victim := m, scrap := part)
  }

  lemma SendKeepsInv(stream: seq<byte>, isUsing: bool, o: Outgoing, max: int, m: Msg, status: WriteStatus, part: nat)
    requires SenderInv(stream, isUsing, o, max) && Sendable(m, max) && Stamp(m) == m
    requires match status
             case WriteSuccess => isUsing && part == |Encode(m)|
             case WriteNotFinish => isUsing && part == 0
             case WriteError => part < |Encode(m)| && (!isUsing ==> part == 0)
    ensures SenderInv(stream + Encode(m)[..part], isUsing && status != WriteError,
                      AfterSend(o, m, isUsing, status, part), max)
  {
    assert stream + [] == stream;
    if isUsing {
      assert stream == Bytes(o.accepted);
      BytesAppend(o.accepted, m);
      assert Encode(m)[..|Encode(m)|] == Encode(m);
      assert Bytes(o.accepted + [m]) + [] == Bytes(o.accepted + [m]);
    }
  }

  lemma BytesArrived(i: Incoming, more: seq<byte>, max: int)
    requires CutInv(i, max)
    ensures CutInv(Incoming(i.received + more, i.unread + more, i.cut), max)
  {
    FramesOfParts(i.received, more, max);
    FramesOfParts(i.unread, more, max);
    AppendIsAssociative(i.cut, Frames(i.unread, max), Frames(Rest(i.unread, max) + more, max));
  }

  lemma FrameCut(i: Incoming, n: nat, max: int)
    requires CutInv(i, max) && FrontFrame(i.unread, max) == Whole(n)
    ensures CutInv(Incoming(i.received, i.unread[n..], i.cut + [i.unread[..n]]), max)
  {
    AppendIsAssociative(i.cut, [i.unread[..n]], Frames(i.unread[n..], max));
  }

  lemma FrameDecoded(cut: seq<seq<byte>>, delivered: seq<Msg>, f: seq<byte>, m: Msg)
    requires DecodedAs(cut, delivered) && Decode(f) == Some(m)
    ensures DecodedAs(cut + [f], delivered + [m])
  {
    var cut', delivered' := cut + [f], delivered + [m];
    forall i | 0 <= i < |cut'| ensures Decode(cut'[i]) == Some(delivered'[i]) {
      if i < |cut| { assert cut'[i] == cut[i] && delivered'[i] == delivered[i]; }
    }
  }

  // Frames cut from any prefix of the stream are accepted messages, from the first on.
  lemma CutFramesAreAccepted(stream: seq<byte>, isUsing: bool, o: Outgoing, max: int, p: seq<byte>) returns (n: nat)
    requires SenderInv(stream, isUsing, o, max) && p <= stream
    ensures n <= |o.accepted| && Frames(p, max) == EncodeAll(o.accepted)[..n]
    ensures p == stream && o.scrap == 0 ==> n == |o.accepted|
  {
    if p == stream && o.scrap == 0 {
      assert stream == Bytes(o.accepted);
      n := FramesOfPrefix(o.accepted, p, max);
    } else {
      PieceOfVictim(stream, isUsing, o, max, p);
      n := FramesOfBrokenStream(o.accepted, o.victim, p, max);
    }
  }

  // The stream stops short of the message whose sending failed.
  lemma PieceOfVictim(stream: seq<byte>, isUsing: bool, o: Outgoing, max: int, p: seq<byte>)
    requires SenderInv(stream, isUsing, o, max) && p <= stream
    ensures p < Bytes(o.accepted) + Encode(o.victim)
  {
    var v := Encode(o.victim);
    assert v == v[..o.scrap] + v[o.scrap..];
    AppendIsAssociative(Bytes(o.accepted), v[..o.scrap], v[o.scrap..]);
  }

  // The next frame in the unread bytes is the next accepted message.
  lemma NextFrameIsAccepted(stream: seq<byte>, isUsing: bool, o: Outgoing, i: Incoming, max: int)
    requires SenderInv(stream, isUsing, o, max) && i.received <= stream && CutInv(i, max)
    requires FrontFrame(i.unread, max).Whole?
    ensures |i.cut| < |o.accepted|
    ensures i.unread[..FrontFrame(i.unread, max).n] == Encode(o.accepted[|i.cut|])
  {
    var n := CutFramesAreAccepted(stream, isUsing, o, max, i.received);
    assert Frames(i.received, max)[|i.cut|] == Frames(i.unread, max)[0];
  }

  // There is never a corrupt length at the front, and max unread bytes always hold a whole
  // frame, so a buffer full of unread bytes never stops the connection.
  lemma UnreadBytesMakeProgress(stream: seq<byte>, isUsing: bool, o: Outgoing, i: Incoming, max: int)
    requires SenderInv(stream, isUsing, o, max) && i.received <= stream && CutInv(i, max)
    ensures !FrontFrame(i.unread, max).Corrupt?
    ensures |i.unread| >= max ==> FrontFrame(i.unread, max).Whole?
  {
    BytesAppend(o.accepted, o.victim);
    PieceOfVictim(stream, isUsing, o, max, i.received);
    RestOfPrefix(o.accepted + [o.victim], i.received, max);
  }

  lemma NextFrameIsSound(stream: seq<byte>, isUsing: bool, o: Outgoing, i: Incoming, max: int)
    requires SenderInv(stream, isUsing, o, max) && i.received <= stream && CutInv(i, max)
    ensures var f := FrontFrame(i.unread, max);
            !f.Corrupt? &&
            (f.Whole? ==> Decode(i.unread[..f.n]).Some? &&
                          CutInv(Incoming(i.received, i.unread[f.n..], i.cut + [i.unread[..f.n]]), max))
  {
    UnreadBytesMakeProgress(stream, isUsing, o, i, max);
    var f := FrontFrame(i.unread, max);
    if f.Whole? {
      NextFrameIsAccepted(stream, isUsing, o, i, max);
      DecodeEncode(o.accepted[|i.cut|]);
      FrameCut(i, f.n, max);
    }
  }

  // The end-to-end law: what the receiver has decoded is a prefix, in order and field for
  // field, of what the sender accepted; once everything sent has been received and no whole
  // frame is left unread, it is all of it.
  lemma DeliveredIsAPrefix(stream: seq<byte>, isUsing: bool, o: Outgoing, i: Incoming, max: int, delivered: seq<Msg>)
    requires SenderInv(stream, isUsing, o, max) && i.received <= stream
    requires CutInv(i, max) && DecodedAs(i.cut, delivered)
    ensures delivered <= o.accepted
    ensures i.received == stream && o.scrap == 0 && !FrontFrame(i.unread, max).Whole? ==> delivered == o.accepted
  {
    var n := CutFramesAreAccepted(stream, isUsing, o, max, i.received);
    var frames := Frames(i.received, max);
    assert i.cut == frames[..|i.cut|] == EncodeAll(o.accepted)[..|i.cut|];
    DecodedEncodings(i.cut, o.accepted, delivered);
  }

  // Decoding encoded messages gives the messages.
  lemma DecodedEncodings(cut: seq<seq<byte>>, ms: seq<Msg>, delivered: seq<Msg>)
    requires |cut| <= |ms| && cut == EncodeAll(ms)[..|cut|] && DecodedAs(cut, delivered)
    requires forall k :: 0 <= k < |ms| ==> Fits(ms[k]) && Stamp(ms[k]) == ms[k]
    ensures delivered == ms[..|cut|]
  {
    forall k | 0 <= k < |cut| ensures delivered[k] == ms[k] {
      assert cut[k] == EncodeAll(ms)[k];
      StampedDecodes(ms[k]);
    }
  }

  lemma StampedDecodes(m: Msg)
    requires Fits(m) && Stamp(m) == m
    ensures Decode(Encode(m)) == Some(m)
  {
    DecodeEncode(m);
  }

  class Connection {
    const max: int
    const sender: Socket
    const receiver: Socket
    const wire: Wire
    const sendData: array<byte>
    const recvData: array<byte>
    ghost var outgoing: Outgoing
    ghost var cut: seq<seq<byte>>
    var delivered: seq<Msg>

    ghost predicate Shape()
      reads sender, receiver, wire
    {
      && 0 < max <= RECV_BUFFER_SIZE
      && sender.Valid() && receiver.Valid() && wire.Valid() && sender != receiver
      && sendData.Length == recvData.Length == max
      && sender.sendBuffer != receiver.recvBuffer && sendData != recvData
      && sendData != sender.sendBuffer && sendData != sender.recvBuffer && sendData != receiver.recvBuffer
      && recvData != sender.sendBuffer && recvData != receiver.sendBuffer && recvData != receiver.recvBuffer
    }

    ghost function Arrived(): Incoming
      requires Shape()
      reads this, sender, receiver, wire, receiver.recvBuffer
    {
      Incoming(wire.sent[..wire.taken], receiver.Unread(), cut)
    }

    ghost predicate Valid()
      reads this, sender, receiver, wire, sender.sendBuffer, receiver.recvBuffer
    {
      && Shape()
      && SenderValid()
      && CutInv(Arrived(), max)
      && DecodedAs(cut, delivered)
    }

    // A whole frame is waiting.
    ghost predicate Ready()
      requires Shape()
      reads this, sender, receiver, wire, receiver.recvBuffer
    {
      FrontFrame(receiver.Unread(), max).Whole?
    }

    constructor (max: int)
      requires HEAD_SIZE <= max <= RECV_BUFFER_SIZE
      ensures Valid() && outgoing.accepted == delivered == [] && this.max == max
      ensures fresh(sender) && fresh(receiver) && fresh(wire) && fresh(sendData) && fresh(recvData)
      ensures fresh(sender.sendBuffer) && fresh(receiver.recvBuffer)
    {
      this.max := max;
      sender := new Socket();
      receiver := new Socket();
      wire := new Wire();
      sendData := new byte[max];
      recvData := new byte[max];
      outgoing := Outgoing([], Msg(Head(0, 0, 0, 0), Some([])), 0);
      cut, delivered := [], [];
    }

    ghost predicate SenderValid()
      requires Shape()
      reads this`outgoing, sender, receiver, wire, sender.sendBuffer
    {
      SenderInv(sender.Stream(wire), sender.isUsing, outgoing, max)
    }

    // What the send calls since then, on a socket that was open, decide; before is the length
    // the stream had.
    ghost predicate Decided(isUsing: bool, status: WriteStatus, sends: seq<IoResult>, before: nat, size: int)
      requires sender.Valid()
      reads sender, wire, sender.sendBuffer
    {
      && sends <= wire.sends
      && if isUsing
         then SendOutcome(status, wire.sends[|sends|..], before - |wire.sent|, size, |sender.Pending()|)
         else status == WriteError && wire.sends == sends
    }

    // Hands an encoded message to the socket, and closes it on an error.
    method Transmit(len: nat, ghost m: Msg) returns (status: WriteStatus)
      requires Shape() && SenderValid()
      requires Sendable(m, max) && Stamp(m) == m && len == |Encode(m)| && sendData[..len] == Encode(m)
      modifies sender, sender.sendBuffer, wire, this`outgoing
      ensures Shape() && SenderValid()
      ensures wire.taken == old(wire.taken) && old(wire.sent) <= wire.sent
      ensures outgoing.accepted == old(outgoing.accepted) + if status == WriteSuccess then [m] else []
      ensures Decided(old(sender.isUsing), status, old(wire.sends), old(|sender.Pending()| + |wire.sent|), len)
      ensures sender.isUsing == (old(sender.isUsing) && status != WriteError)
    {
      ghost var stream, isUsing := sender.Stream(wire), sender.isUsing;
      ghost var part, calls;
      status, part, calls := sender.SendData(wire, sendData, len);
      assert wire.sends[|old(wire.sends)|..] == calls;
      assert sendData[..part] == Encode(m)[..part];
      assert stream + [] == stream;
      SendKeepsInv(stream, isUsing, outgoing, max, m, status, part);
      outgoing := AfterSend(outgoing, m, isUsing, status, part);
      if status == WriteError {
        sender.CloseSocket();
      }
    }

    // Sends one message: it is accepted whole, refused whole, or breaks the connection,
    // which is then closed. One without a payload adds nothing to the stream.
    method Send(m: CMessage) returns (status: WriteStatus)
      requires Valid() && |Encode(m.Value())| <= max
      modifies m`head, sendData, sender, sender.sendBuffer, wire, this`outgoing
      ensures Valid() && m.Value() == Stamp(old(m.Value()))
      ensures outgoing.accepted == old(outgoing.accepted) +
                                   if status == WriteSuccess && m.proto.Some? then [m.Value()] else []
      ensures m.proto.Some? ==> Decided(old(sender.isUsing), status, old(wire.sends),
                                        old(|sender.Pending()| + |wire.sent|), |Encode(m.Value())|)
    {
      var len := m.EncodeTo(sendData);
      status := SendEncoded(len, m.Value());
    }

    // Hands the encoded bytes, if any, to the socket.
    method SendEncoded(len: nat, m: Msg) returns (status: WriteStatus)
      requires Valid() && Stamp(m) == m && len == |Encode(m)| <= max && sendData[..len] == Encode(m)
      modifies sender, sender.sendBuffer, wire, this`outgoing
      ensures Valid()
      ensures outgoing.accepted == old(outgoing.accepted) + if status == WriteSuccess && m.proto.Some? then [m] else []
      ensures m.proto.Some? ==>
                Decided(old(sender.isUsing), status, old(wire.sends), old(|sender.Pending()| + |wire.sent|), len)
    {
      ghost var before := Arrived();
      if m.proto.None? {
        status := TransmitNothing();
      } else {
        status := Transmit(len, m);
      }
      assert Arrived() == before;
    }

    // SendData of no bytes.
    method TransmitNothing() returns (status: WriteStatus)
      requires Shape() && SenderValid()
      modifies sender, sender.sendBuffer, wire
      ensures Shape() && SenderValid()
      ensures wire.taken == old(wire.taken) && old(wire.sent) <= wire.sent
    {
      ghost var stream := sender.Stream(wire);
      ghost var part, calls;
      status, part, calls := sender.SendData(wire, sendData, 0);
      assert stream + [] == stream;
    }

    // One readable event: reads whatever the kernel hands over. A read that stops for lack of
    // room leaves a whole frame waiting.
    method Receive() returns (status: ReadStatus, ghost calls: seq<IoResult>)
      requires Valid()
      modifies receiver, receiver.recvBuffer, wire
      ensures Valid() && wire.sent == old(wire.sent) && (status == ReadNotFinish ==> Ready())
      ensures wire.recvs == old(wire.recvs) + calls
      ensures receiver.isUsing ==> ReadOutcome(status, calls, |receiver.Unread()| == 0x30000)
    {
      ghost var stream := sender.Stream(wire);
      status, calls := ReadOn();
      UnreadBytesMakeProgress(stream, sender.isUsing, outgoing, Arrived(), max);
    }

    // The receiver's half of a read.
    method ReadOn() returns (status: ReadStatus, ghost calls: seq<IoResult>)
      requires Shape() && CutInv(Arrived(), max)
      modifies receiver, receiver.recvBuffer, wire
      ensures Shape() && CutInv(Arrived(), max) && wire.sent == old(wire.sent)
      ensures wire.recvs == old(wire.recvs) + calls
      ensures status == ReadNotFinish ==> |receiver.Unread()| == RECV_BUFFER_SIZE
      ensures receiver.isUsing ==> ReadOutcome(status, calls, |receiver.Unread()| == 0x30000)
    {
      ghost var before, taken := Arrived(), wire.taken;
      status, calls := receiver.RecvData(wire);
      ghost var more := wire.sent[taken..wire.taken];
      BytesArrived(before, more, max);
      assert wire.sent[..wire.taken] == before.received + more;
      assert Arrived() == Incoming(before.received + more, before.unread + more, cut);
    }

    // Decodes the frame that has just been cut.
    method Deliver(size: nat, ghost f: seq<byte>)
      requires size <= recvData.Length && recvData[..size] == f && Decode(f).Some?
      requires DecodedAs(cut, delivered)
      modifies this`cut, this`delivered
      ensures cut == old(cut) + [f] && DecodedAs(cut, delivered)
      ensures old(delivered) <= delivered
    {
      var m := new CMessage(Head(0, 0, 0, 0), Some([]));
      var ok := m.DecodeFrom(recvData, size);
      FrameDecoded(cut, delivered, f, m.Value());
      cut := cut + [f];
      delivered := delivered + [m.Value()];
    }

    // The receiver's half of an extraction.
    method CutOne() returns (r: Result)
      requires Shape() && CutInv(Arrived(), max) && DecodedAs(cut, delivered)
      requires Ready() ==> Decode(receiver.Unread()[..FrontFrame(receiver.Unread(), max).n]).Some?
      modifies receiver, recvData, this`cut, this`delivered
      ensures Shape() && CutInv(Arrived(), max) && DecodedAs(cut, delivered)
      ensures r == Success <==> old(Ready())
      ensures r == Error <==> FrontFrame(old(receiver.Unread()), max).Corrupt?
      ensures old(delivered) <= delivered
      ensures r == Success ==> |cut| == |old(cut)| + 1 && |receiver.Unread()| < |old(receiver.Unread())|
      ensures r != Success ==> delivered == old(delivered) && receiver.Unread() == old(receiver.Unread())
    {
      ghost var before := Arrived();
      var size;
      r, size := receiver.GetOneMessage(recvData, max);
      if r == Success {
        ghost var f := before.unread[..size];
        FrameCut(before, size, max);
        Deliver(size, f);
        assert Arrived() == Incoming(before.received, before.unread[size..], before.cut + [f]);
      }
    }

    // Cuts and decodes one message exactly when a whole one has arrived; never meets a
    // corrupt one.
    method Extract() returns (r: Result)
      requires Valid()
      modifies receiver, recvData, this`cut, this`delivered
      ensures Valid() && (r == Success <==> old(Ready())) && r != Error
      ensures if r == Success then |delivered| == |old(delivered)| + 1 else delivered == old(delivered)
      ensures old(delivered) <= delivered
      ensures r == Success ==> |receiver.Unread()| < |old(receiver.Unread())|
      ensures r != Success ==> receiver.Unread() == old(receiver.Unread())
    {
      NextFrameIsSound(sender.Stream(wire), sender.isUsing, outgoing, Arrived(), max);
      r := CutOne();
    }

    // Extracts until nothing whole is left.
    method Drain()
      requires Valid()
      modifies receiver, recvData, this`cut, this`delivered
      ensures Valid() && !Ready() && old(delivered) <= delivered <= outgoing.accepted
      ensures wire.taken == |wire.sent| && sender.Pending() == [] && outgoing.scrap == 0 ==>
                delivered == outgoing.accepted
    {
      var r := Success;
      while r == Success
        invariant Valid() && old(delivered) <= delivered && (r != Success ==> !Ready())
        decreases r == Success, |receiver.Unread()|
      {
        r := Extract();
      }
      assert wire.taken == |wire.sent| ==> wire.sent[..wire.taken] == wire.sent;
      DeliveredIsAPrefix(sender.Stream(wire), sender.isUsing, outgoing, Arrived(), max, delivered);
    }

    // Any interleaving of the three, from any reachable state: what has been delivered is
    // always a prefix of what has been accepted.
    method Run(schedule: seq<Step>)
      requires Valid()
      requires forall i :: 0 <= i < |schedule| && schedule[i].DoSend? ==> |Encode(schedule[i].m)| <= max
      modifies this`outgoing, this`cut, this`delivered, sendData, recvData
      modifies sender, sender.sendBuffer, receiver, receiver.recvBuffer, wire
      ensures Valid() && delivered <= outgoing.accepted
    {
      for i := 0 to |schedule|
        invariant Valid()
      {
        match schedule[i] {
          case DoSend(v) =>
            var m := new CMessage(v.head, v.proto);
            var _ := Send(m);
          case DoReceive => var _, _ := Receive();
          case DoExtract => var _ := Extract();
        }
      }
      DeliveredIsAPrefix(sender.Stream(wire), sender.isUsing, outgoing, Arrived(), max, delivered);
    }
  }

  datatype Step = DoSend(m: Msg) | DoReceive | DoExtract
}
