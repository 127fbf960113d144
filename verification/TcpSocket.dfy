// TcpSocket: a non-blocking sender with a residual buffer, a compacting receive buffer,
// and the framer that cuts the received stream into length-prefixed messages.
module TcpSocket {
  import opened Common
  import Message

  const RECV_BUFFER_SIZE := 0x30000
  const SEND_BUFFER_SIZE := 0x30000

  datatype ReadStatus = ReadSuccess | ReadNotFinish | ReadError
  datatype WriteStatus = WriteSuccess | WriteNotFinish | WriteError
  datatype Result = Success | Fail | Error

  // What one send or recv call reports: some bytes moved, EAGAIN, or anything else
  // (another errno, or an orderly close).
  datatype IoResult = Moved(n: nat) | WouldBlock | Broken

  // ---- Framing ----

  datatype Front = Incomplete | Corrupt | Whole(n: nat)

  // What get_one_message sees at the front of the unread bytes.
  function FrontFrame(s: seq<byte>, max: int): (f: Front)
    ensures f.Whole? ==> 0 < f.n <= |s| && f.n <= max
  {
    if |s| <= 4 then Incomplete
    else
      var n := Message.ToInt32(Message.ReadBE32(s));
      if n <= 0 then Corrupt
      else if n > |s| || n > max then Incomplete
      else Whole(n)
  }

  // All frames that can be cut from a stream, and the bytes left over.
  function Frames(s: seq<byte>, max: int): seq<seq<byte>>
    decreases |s|
  {
    var f := FrontFrame(s, max);
    if f.Whole? then [s[..f.n]] + Frames(s[f.n..], max) else []
  }

  function Rest(s: seq<byte>, max: int): seq<byte>
    decreases |s|
  {
    var f := FrontFrame(s, max);
    if f.Whole? then Rest(s[f.n..], max) else s
  }

  lemma FrontFrameIsStable(s: seq<byte>, t: seq<byte>, max: int)
    requires FrontFrame(s, max).Whole?
    ensures FrontFrame(s + t, max) == FrontFrame(s, max)
  {
    assert Message.ReadBE32(s + t) == Message.ReadBE32(s);
  }

  // The length a front frame announces in its first four bytes.
  function Announced(s: seq<byte>): int
    requires |s| >= 4
  {
    Message.ToInt32(Message.ReadBE32(s))
  }

  predicate Completes(s: seq<byte>, t: seq<byte>, max: int) {
    |s + t| <= RECV_BUFFER_SIZE && FrontFrame(s + t, max).Whole?
  }

  lemma AnnouncedIsStable(s: seq<byte>, t: seq<byte>)
    requires |s| >= 4
    ensures Announced(s + t) == Announced(s)
  {
    assert forall k :: 0 <= k < 4 ==> (s + t)[k] == s[k];
  }

  // A front frame whose length is known can be completed by bytes the buffer still has room
  // for exactly when that length is positive and within both the caller's limit and the
  // buffer. Any other front is never cut.
  lemma FrontCompletesExactly(s: seq<byte>, max: int)
    requires 4 <= |s| <= RECV_BUFFER_SIZE && !FrontFrame(s, max).Whole?
    ensures (exists t :: Completes(s, t, max)) <==> 0 < Announced(s) <= max && Announced(s) <= RECV_BUFFER_SIZE
  {
    var n := Announced(s);
    if 0 < n <= max && n <= RECV_BUFFER_SIZE {
      var t: seq<byte> := if |s| < n then seq(n - |s|, i => 0) else [0];
      AnnouncedIsStable(s, t);
      assert Completes(s, t, max);
    } else {
      forall t ensures !Completes(s, t, max) {
        AnnouncedIsStable(s, t);
      }
    }
  }

  // A positive length that is beyond the caller's limit or the buffer.
  predicate Blocked(s: seq<byte>, max: int) {
    |s| >= 4 && Announced(s) > 0 && (Announced(s) > max || Announced(s) > RECV_BUFFER_SIZE)
  }

  // How many of a sequence of polls are cuts.
  function Cuts(polls: seq<bool>): nat {
    if polls == [] then 0 else Cuts(polls[..|polls| - 1]) + if polls[|polls| - 1] then 0 else 1
  }

  // Both limits block: 4097 bytes for a caller with room for 4096, and one byte more than the
  // buffer for a caller with room for it.
  lemma BlockedFronts(t: seq<byte>)
    ensures Blocked([0, 0, 16, 1], 4096) && !Completes([0, 0, 16, 1], t, 4096)
    ensures Blocked([0, 3, 0, 1], 0x4_0000) && !Completes([0, 3, 0, 1], t, 0x4_0000)
  {
    assert Announced([0, 0, 16, 1]) == 4097 && Announced([0, 3, 0, 1]) == 0x3_0001;
    AnnouncedIsStable([0, 0, 16, 1], t);
    AnnouncedIsStable([0, 3, 0, 1], t);
  }

  // Cutting frames does not depend on how the stream arrives: what has been cut from a
  // part of it stays cut, and the rest continues from the bytes left over.
  lemma {:induction false} FramesOfParts(s: seq<byte>, t: seq<byte>, max: int)
    ensures Frames(s + t, max) == Frames(s, max) + Frames(Rest(s, max) + t, max)
    ensures Rest(s + t, max) == Rest(Rest(s, max) + t, max)
    decreases |s|
  {
    var f := FrontFrame(s, max);
    if f.Whole? {
      var first, later := s[..f.n], s[f.n..];
      assert (s + t)[..f.n] == first && (s + t)[f.n..] == later + t;
      FrontFrameIsStable(s, t, max);
      FramesOfParts(later, t, max);
      var rest := Frames(Rest(s, max) + t, max);
      assert Frames(s + t, max) == [first] + (Frames(later, max) + rest) == ([first] + Frames(later, max)) + rest;
    }
  }

  // Appending two adjacent slices one after the other appends the slice they form.
  lemma SlicesJoin(start: seq<byte>, s: seq<byte>, a: nat, b: nat, c: nat)
    requires a <= b <= c <= |s|
    ensures start + s[a..b] + s[b..c] == start + s[a..c]
  {}

  // ---- What decides a status ----

  predicate AllMoved(calls: seq<IoResult>) {
    forall i :: 0 <= i < |calls| ==> calls[i].Moved?
  }

  // What the recv calls of one read decide: it stops at the first call that moves nothing, with
  // success if that one would block and an error if it broke, or else on a full buffer.
  predicate ReadOutcome(status: ReadStatus, calls: seq<IoResult>, full: bool) {
    && (calls != [] ==> AllMoved(calls[..|calls| - 1]))
    && (status == ReadSuccess <==> calls != [] && calls[|calls| - 1].WouldBlock?)
    && (status == ReadError <==> calls != [] && calls[|calls| - 1].Broken?)
    && (status == ReadNotFinish <==> full && AllMoved(calls))
  }

  // What the send calls of one send decide, with left residual bytes not yet sent and size more
  // to send: an error exactly if the last call broke, and not-finish exactly if it would block
  // while the two together exceed the buffer. When no call is refused, nothing is left pending.
  predicate SendOutcome(status: WriteStatus, calls: seq<IoResult>, left: int, size: int, pending: nat) {
    && calls != [] && AllMoved(calls[..|calls| - 1])
    && (status == WriteError <==> calls[|calls| - 1].Broken?)
    && (status == WriteNotFinish <==> calls[|calls| - 1].WouldBlock? && left > 0 && left + size > 0x30000)
    && (calls[|calls| - 1].Moved? ==> pending == 0)
  }

  lemma OneMoreMoved(calls: seq<IoResult>, r: IoResult)
    requires AllMoved(calls)
    ensures AllMoved((calls + [r])[..|calls|]) && (r.Moved? ==> AllMoved(calls + [r]))
  {
    assert (calls + [r])[..|calls|] == calls;
  }

  lemma MovedThen(calls: seq<IoResult>, later: seq<IoResult>)
    requires AllMoved(calls) && later != [] && AllMoved(later[..|later| - 1])
    ensures (calls + later)[|calls + later| - 1] == later[|later| - 1]
    ensures AllMoved((calls + later)[..|calls + later| - 1])
  {
    assert (calls + later)[..|calls + later| - 1] == calls + later[..|later| - 1];
  }

  // ---- The network ----

  // One direction of a connection: every byte the kernel has taken from the sender, in
  // order, and how many of them it has handed to the receiver. How many bytes a call
  // moves, and whether it fails, is left open.
  class Wire {
    var sent: seq<byte>
    var taken: nat
    // The outcome of every call so far.
    ghost var sends: seq<IoResult>
    ghost var recvs: seq<IoResult>

    ghost predicate Valid()
      reads this
    {
      taken <= |sent|
    }

    constructor ()
      ensures Valid() && sent == [] && taken == 0
    {
      sent, taken := [], 0;
      sends, recvs := [], [];
    }

    method Send(bytes: seq<byte>) returns (r: IoResult)
      requires Valid() && bytes != []
      modifies this
      ensures Valid() && taken == old(taken)
      ensures r.Moved? ==> 0 < r.n <= |bytes| && sent == old(sent) + bytes[..r.n]
      ensures !r.Moved? ==> sent == old(sent)
      ensures sends == old(sends) + [r] && recvs == old(recvs)
    {
      if * {
        var n: nat :| 0 < n <= |bytes|;
        sent := sent + bytes[..n];
        r := Moved(n);
      } else if * {
        r := WouldBlock;
      } else {
        r := Broken;
      }
      sends := sends + [r];
    }

    method Recv(len: nat) returns (r: IoResult, bytes: seq<byte>)
      requires Valid() && 0 < len
      modifies this
      ensures Valid() && sent == old(sent) && old(taken) <= taken
      ensures |bytes| <= len && bytes == sent[old(taken)..taken]
      ensures r.Moved? <==> bytes != []
      ensures r.Moved? ==> r.n == |bytes|
      ensures recvs == old(recvs) + [r] && sends == old(sends)
    {
      bytes := [];
      var deliver: bool := *;
      if taken < |sent| && deliver {
        var n: nat :| 0 < n <= len && n <= |sent| - taken;
        bytes := sent[taken..taken + n];
        taken := taken + n;
        r := Moved(n);
      } else if * {
        r := WouldBlock;
      } else {
        r := Broken;
      }
      recvs := recvs + [r];
    }
  }

  class Socket {
    var isUsing: bool
    var recvHead: int
    var recvTail: int
    const recvBuffer: array<byte>
    var sendHead: int
    var sendTail: int
    const sendBuffer: array<byte>

    ghost predicate Valid()
      reads this
    {
      && recvBuffer.Length == RECV_BUFFER_SIZE + 1
      && sendBuffer.Length == SEND_BUFFER_SIZE + 1
      && recvBuffer != sendBuffer
      && 0 <= recvHead <= recvTail <= RECV_BUFFER_SIZE
      && 0 <= sendHead <= sendTail <= SEND_BUFFER_SIZE
    }

    // Received but not yet consumed.
    ghost function Unread(): seq<byte>
      requires Valid()
      reads this, recvBuffer
    {
      recvBuffer[recvHead..recvTail]
    }

    // Accepted but not yet handed to the kernel.
    ghost function Pending(): seq<byte>
      requires Valid()
      reads this, sendBuffer
    {
      sendBuffer[sendHead..sendTail]
    }

    constructor ()
      ensures Valid() && fresh(recvBuffer) && fresh(sendBuffer)
      ensures isUsing && Unread() == [] && Pending() == []
    {
      isUsing := true;
      recvHead, recvTail, sendHead, sendTail := 0, 0, 0, 0;
      recvBuffer := new byte[RECV_BUFFER_SIZE + 1];
      sendBuffer := new byte[SEND_BUFFER_SIZE + 1];
    }

    method CloseSocket()
      modifies this`isUsing
      ensures !isUsing
    {
      isUsing := false;
    }

    // Moves the unread bytes to the front of a full buffer; false when there is no room
    // to be made.
    method TryMoveReceDataAhead() returns (room: bool)
      requires Valid()
      modifies this`recvHead, this`recvTail, recvBuffer
      ensures Valid() && Unread() == old(Unread())
      ensures room <==> |Unread()| < RECV_BUFFER_SIZE
      ensures room ==> recvTail < RECV_BUFFER_SIZE
    {
      if recvTail == RECV_BUFFER_SIZE {
        if recvHead > 0 {
          var n := recvTail - recvHead;
          ghost var unread := Unread();
          forall k | 0 <= k < n {
            recvBuffer[k] := recvBuffer[recvHead + k];
          }
          assert recvBuffer[0..n] == unread;
          recvHead, recvTail := 0, n;
        } else {
          return false;
        }
      }
      return true;
    }

    // One recv call into the free end of the buffer.
    method RecvOnce(wire: Wire) returns (r: IoResult)
      requires Valid() && wire.Valid() && recvTail < RECV_BUFFER_SIZE
      modifies this`recvTail, recvBuffer, wire
      ensures Valid() && wire.Valid() && wire.sent == old(wire.sent) && old(wire.taken) <= wire.taken
      ensures Unread() == old(Unread()) + wire.sent[old(wire.taken)..wire.taken]
      ensures r.Moved? <==> old(wire.taken) < wire.taken
      ensures wire.recvs == old(wire.recvs) + [r] && wire.sends == old(wire.sends)
    {
      var bytes;
      r, bytes := wire.Recv(RECV_BUFFER_SIZE - recvTail);
      ghost var before := Unread();
      forall k | 0 <= k < |bytes| {
        recvBuffer[recvTail + k] := bytes[k];
      }
      assert Unread() == before;
      recvTail := recvTail + |bytes|;
      assert Unread() == before + bytes;
    }

    // One pass of the loop below.
    method MakeRoomAndRecv(wire: Wire) returns (room: bool, r: IoResult)
      requires Valid() && wire.Valid()
      modifies this`recvHead, this`recvTail, recvBuffer, wire
      ensures Valid() && wire.Valid() && wire.sent == old(wire.sent) && wire.sends == old(wire.sends)
      ensures room <==> |old(Unread())| < RECV_BUFFER_SIZE
      ensures !room ==> Unread() == old(Unread()) && wire.taken == old(wire.taken) && wire.recvs == old(wire.recvs)
      ensures room ==> old(wire.taken) <= wire.taken && wire.recvs == old(wire.recvs) + [r] &&
                       Unread() == old(Unread()) + wire.sent[old(wire.taken)..wire.taken] &&
                       (r.Moved? <==> old(wire.taken) < wire.taken)
    {
      room := TryMoveReceDataAhead();
      if room {
        r := RecvOnce(wire);
      } else {
        r := WouldBlock;
      }
    }

    // Appends to the unread bytes exactly what the kernel hands over, however it is
    // chunked, until a call moves nothing or the buffer is full of unread bytes.
    method RecvData(wire: Wire) returns (status: ReadStatus, ghost calls: seq<IoResult>)
      requires Valid() && wire.Valid()
      modifies this`recvHead, this`recvTail, recvBuffer, wire
      ensures Valid() && wire.Valid() && wire.sent == old(wire.sent) && old(wire.taken) <= wire.taken
      ensures Unread() == old(Unread()) + wire.sent[old(wire.taken)..wire.taken]
      ensures wire.recvs == old(wire.recvs) + calls && wire.sends == old(wire.sends)
      ensures if isUsing then ReadOutcome(status, calls, |Unread()| == 0x30000)
              else status == ReadError && calls == [] && wire.taken == old(wire.taken)
    {
      calls := [];
      if !isUsing {
        return ReadError, calls;
      }
      if recvTail == recvHead {
        recvHead, recvTail := 0, 0;
      }
      ghost var start := Unread();
      var more := true;
      while more
        invariant Valid() && wire.Valid() && wire.sent == old(wire.sent) && old(wire.taken) <= wire.taken
        invariant Unread() == start + wire.sent[old(wire.taken)..wire.taken]
        invariant wire.recvs == old(wire.recvs) + calls && wire.sends == old(wire.sends)
        invariant if more then AllMoved(calls)
                  else calls != [] && calls[|calls| - 1].WouldBlock? && AllMoved(calls[..|calls| - 1])
        decreases more, RECV_BUFFER_SIZE - |Unread()|
      {
        ghost var taken := wire.taken;
        var room, r := MakeRoomAndRecv(wire);
        if !room {
          return ReadNotFinish, calls;
        }
        SlicesJoin(start, wire.sent, old(wire.taken), taken, wire.taken);
        OneMoreMoved(calls, r);
        calls := calls + [r];
        if r.Broken? {
          return ReadError, calls;
        }
        more := r.Moved?;
      }
      return ReadSuccess, calls;
    }

    // Cuts the front frame off the unread bytes, or leaves them alone.
    method GetOneMessage(data: array?<byte>, maxSize: int) returns (r: Result, size: nat)
      requires Valid() && (data != null ==> data != recvBuffer && data != sendBuffer && maxSize <= data.Length)
      modifies this`recvHead, data
      ensures Valid()
      ensures r == Success <==> data != null && |old(Unread())| > 4 && 0 < Announced(old(Unread())) <= maxSize &&
                                Announced(old(Unread())) <= |old(Unread())|
      ensures r == Error <==> data != null && |old(Unread())| > 4 && Announced(old(Unread())) <= 0
      ensures r == Success ==> size == Announced(old(Unread()))
      ensures r == Success <==> data != null && FrontFrame(old(Unread()), maxSize).Whole?
      ensures r == Error <==> data != null && FrontFrame(old(Unread()), maxSize).Corrupt?
      ensures r == Success ==> size == FrontFrame(old(Unread()), maxSize).n &&
                               data[..size] == old(Unread())[..size] && Unread() == old(Unread())[size..]
      ensures r != Success ==> Unread() == old(Unread())
    {
      size := 0;
      if data == null || recvTail - recvHead <= 4 {
        return Fail, size;
      }
      var n := Message.ToInt32(Message.ReadBE32(recvBuffer[recvHead..recvHead + 4]));
      assert Message.ReadBE32(recvBuffer[recvHead..recvHead + 4]) == Message.ReadBE32(Unread());
      if n <= 0 {
        return Error, size;
      }
      if n > recvTail - recvHead || n > maxSize {
        return Fail, size;
      }
      size := n;
      ghost var unread := Unread();
      forall k | 0 <= k < size {
        data[k] := recvBuffer[recvHead + k];
      }
      assert Unread() == unread;
      assert forall k :: 0 <= k < size ==> data[k] == unread[k];
      assert data[..size] == unread[..size];
      recvHead := recvHead + size;
      r := Success;
    }

    // A read that stops on a full buffer, and the cut after it: the cut succeeds exactly when
    // the front frame's length is positive and within the caller's limit and the buffer.
    method ReadAndCut(wire: Wire, data: array<byte>, maxSize: int) returns (status: ReadStatus, r: Result, size: nat)
      requires Valid() && wire.Valid()
      requires data != recvBuffer && data != sendBuffer && maxSize <= data.Length
      modifies this`recvHead, this`recvTail, recvBuffer, wire, data
      ensures Valid() && wire.Valid() && wire.sent == old(wire.sent) && old(wire.taken) <= wire.taken
      ensures var unread := old(Unread()) + wire.sent[old(wire.taken)..wire.taken];
              status == ReadNotFinish ==>
                |unread| == RECV_BUFFER_SIZE &&
                (r == Success <==> 0 < Announced(unread) <= maxSize && Announced(unread) <= RECV_BUFFER_SIZE)
    {
      ghost var calls;
      status, calls := RecvData(wire);
      r, size := GetOneMessage(data, maxSize);
    }

    // A blocked front is never cut and never reported, whatever reads (true) and cuts (false)
    // follow: the connection is stuck for good.
    method PollBlocked(wire: Wire, data: array<byte>, maxSize: int, polls: seq<bool>) returns (results: seq<Result>)
      requires Valid() && wire.Valid() && Blocked(Unread(), maxSize)
      requires data != recvBuffer && data != sendBuffer && maxSize <= data.Length
      modifies this`recvHead, this`recvTail, recvBuffer, wire, data
      ensures Valid() && wire.Valid() && old(Unread()) <= Unread() && Blocked(Unread(), maxSize)
      ensures |results| == Cuts(polls) && forall i :: 0 <= i < |results| ==> results[i] == Fail
    {
      results := [];
      assert polls[..|polls|] == polls;
      for k := 0 to |polls|
        invariant Valid() && wire.Valid() && old(Unread()) <= Unread() && Blocked(Unread(), maxSize)
        invariant |results| == Cuts(polls[..k]) && forall i :: 0 <= i < |results| ==> results[i] == Fail
      {
        assert polls[..k + 1][..k] == polls[..k];
        ghost var unread, taken := Unread(), wire.taken;
        if polls[k] {
          var _, _ := RecvData(wire);
          AnnouncedIsStable(unread, wire.sent[taken..wire.taken]);
        } else {
          var r, _ := GetOneMessage(data, maxSize);
          results := results + [r];
        }
      }
    }

    // The bytes on the wire followed by the residual buffer.
    ghost function Stream(wire: Wire): seq<byte>
      requires Valid()
      reads this, sendBuffer, wire
    {
      wire.sent + Pending()
    }

    // memmove of the residual bytes to the front of their buffer.
    method CompactPending()
      requires Valid()
      modifies this`sendHead, this`sendTail, sendBuffer
      ensures Valid() && sendHead == 0 && Pending() == old(Pending())
    {
      var len := sendTail - sendHead;
      forall k | 0 <= k < len {
        sendBuffer[k] := sendBuffer[sendHead + k];
      }
      sendHead, sendTail := 0, len;
    }

    // One send call from the residual buffer.
    method SendPending(wire: Wire) returns (r: IoResult)
      requires Valid() && wire.Valid() && sendHead < sendTail
      modifies this`sendHead, wire
      ensures Valid() && wire.Valid() && wire.taken == old(wire.taken) && old(wire.sent) <= wire.sent
      ensures Stream(wire) == old(Stream(wire))
      ensures r.Moved? <==> old(sendHead) < sendHead
      ensures wire.sends == old(wire.sends) + [r] && wire.recvs == old(wire.recvs)
    {
      var bytes := sendBuffer[sendHead..sendTail];
      r := wire.Send(bytes);
      if r.Moved? {
        sendHead := sendHead + r.n;
        assert bytes == bytes[..r.n] + Pending();
      }
    }

    // First what earlier calls left behind: sends it, or moves what is left to the front.
    method FlushPending(wire: Wire) returns (r: IoResult, ghost calls: seq<IoResult>)
      requires Valid() && wire.Valid()
      modifies this`sendHead, this`sendTail, sendBuffer, wire
      ensures Valid() && wire.Valid() && wire.taken == old(wire.taken) && old(wire.sent) <= wire.sent
      ensures Stream(wire) == old(Stream(wire))
      ensures wire.sends == old(wire.sends) + calls && wire.recvs == old(wire.recvs)
      ensures if r.Moved? then sendHead == sendTail && AllMoved(calls)
              else calls != [] && calls[|calls| - 1] == r && AllMoved(calls[..|calls| - 1]) && sendHead < sendTail
      ensures |Pending()| == |old(Pending())| - (|wire.sent| - |old(wire.sent)|)
      ensures r.WouldBlock? ==> sendHead == 0
    {
      calls := [];
      while sendTail - sendHead > 0
        invariant Valid() && wire.Valid() && wire.taken == old(wire.taken) && old(wire.sent) <= wire.sent
        invariant Stream(wire) == old(Stream(wire))
        invariant wire.sends == old(wire.sends) + calls && wire.recvs == old(wire.recvs) && AllMoved(calls)
        decreases sendTail - sendHead
      {
        r := SendPending(wire);
        OneMoreMoved(calls, r);
        calls := calls + [r];
        if r.Broken? {
          return;
        } else if r.WouldBlock? {
          ghost var pending := Pending();
          CompactPending();
          assert Pending() == pending;
          return;
        }
      }
      r := Moved(0);
    }

    // Then the data itself, straight from the caller's buffer, keeping what does not go
    // out; part is how much of it the stream has taken in.
    method SendDirect(wire: Wire, data: seq<byte>)
      returns (status: WriteStatus, ghost part: nat, ghost calls: seq<IoResult>)
      requires Valid() && wire.Valid() && sendHead == sendTail == 0
      requires 0 < |data| <= SEND_BUFFER_SIZE
      modifies this`sendTail, sendBuffer, wire
      ensures Valid() && wire.Valid() && wire.taken == old(wire.taken) && old(wire.sent) <= wire.sent
      ensures if part == |data| then status == WriteSuccess else status == WriteError && part < |data|
      ensures Stream(wire) == old(wire.sent) + data[..part]
      ensures wire.sends == old(wire.sends) + calls && wire.recvs == old(wire.recvs)
      ensures SendOutcome(status, calls, 0, |data|, |Pending()|)
    {
      ghost var start := wire.sent;
      calls := [];
      var done: nat := 0;
      while |data| - done > 0
        invariant Valid() && wire.Valid() && wire.taken == old(wire.taken)
        invariant wire.sends == old(wire.sends) + calls && wire.recvs == old(wire.recvs) && AllMoved(calls)
        invariant done > 0 ==> calls != []
        invariant done <= |data| && sendHead == sendTail == 0
        invariant wire.sent == start + data[0..done]
      {
        var r := SendRest(wire, data, done);
        OneMoreMoved(calls, r);
        calls := calls + [r];
        if r.Moved? {
          SlicesJoin(start, data, 0, done, done + r.n);
          done := done + r.n;
        } else if r.Broken? {
          return WriteError, done, calls;
        } else if SEND_BUFFER_SIZE - sendTail >= |data| - done {
          Store(data[done..]);
          SlicesJoin(start, data, 0, done, |data|);
          return WriteSuccess, |data|, calls;
        } else {
          assert false;
        }
      }
      return WriteSuccess, |data|, calls;
    }

    // One send call with what is left of the data.
    method SendRest(wire: Wire, data: seq<byte>, done: nat) returns (r: IoResult)
      requires wire.Valid() && done < |data|
      modifies wire
      ensures wire.Valid() && wire.taken == old(wire.taken)
      ensures wire.sends == old(wire.sends) + [r] && wire.recvs == old(wire.recvs)
      ensures r.Moved? ==> 0 < r.n <= |data| - done && wire.sent == old(wire.sent) + data[done..done + r.n]
      ensures !r.Moved? ==> wire.sent == old(wire.sent)
    {
      var rest := data[done..];
      r := wire.Send(rest);
      if r.Moved? { assert rest[..r.n] == data[done..done + r.n]; }
    }

    // Success accepts the whole of the data, not-finish accepts none of it; after an error
    // the stream has taken in a proper prefix of the data.
    method SendData(wire: Wire, data: array?<byte>, size: int)
      returns (status: WriteStatus, ghost part: nat, ghost calls: seq<IoResult>)
      requires Valid() && wire.Valid()
      requires size <= SEND_BUFFER_SIZE
      requires data != null ==> size <= data.Length && data != sendBuffer && data != recvBuffer
      modifies this`sendHead, this`sendTail, sendBuffer, wire
      ensures Valid() && wire.Valid() && wire.taken == old(wire.taken) && old(wire.sent) <= wire.sent
      ensures data == null || size <= 0 ==> status == WriteSuccess && part == 0
      ensures data != null && 0 < size ==>
                match status
                case WriteSuccess => isUsing && part == size
                case WriteNotFinish => isUsing && part == 0
                case WriteError => part < size && (!isUsing ==> part == 0)
      ensures Stream(wire) == old(Stream(wire)) + if part == 0 then [] else data[..part]
      ensures wire.sends == old(wire.sends) + calls && wire.recvs == old(wire.recvs)
      ensures if isUsing && data != null && 0 < size
              then SendOutcome(status, calls, |old(Pending())| - (|wire.sent| - |old(wire.sent)|), size, |Pending()|)
              else calls == []
    {
      assert Stream(wire) + [] == Stream(wire);
      if data == null || size <= 0 {
        return WriteSuccess, 0, [];
      }
      if !isUsing {
        return WriteError, 0, [];
      }
      var bytes := data[..size];
      status, part, calls := SendBytes(wire, bytes);
      assert bytes[..part] == data[..part];
    }

    // The residual bytes first, then the data: stored behind them if the kernel takes no more.
    method SendBytes(wire: Wire, bytes: seq<byte>)
      returns (status: WriteStatus, ghost part: nat, ghost calls: seq<IoResult>)
      requires Valid() && wire.Valid() && 0 < |bytes| <= SEND_BUFFER_SIZE
      modifies this`sendHead, this`sendTail, sendBuffer, wire
      ensures Valid() && wire.Valid() && wire.taken == old(wire.taken) && old(wire.sent) <= wire.sent
      ensures match status
              case WriteSuccess => part == |bytes|
              case WriteNotFinish => part == 0
              case WriteError => part < |bytes|
      ensures Stream(wire) == old(Stream(wire)) + bytes[..part]
      ensures wire.sends == old(wire.sends) + calls && wire.recvs == old(wire.recvs)
      ensures SendOutcome(status, calls, |old(Pending())| - (|wire.sent| - |old(wire.sent)|), |bytes|, |Pending()|)
    {
      ghost var start := Stream(wire);
      assert start + bytes[..0] == start && bytes[..|bytes|] == bytes;
      var r;
      r, calls := FlushPending(wire);
      if r.Broken? {
        return WriteError, 0, calls;
      }
      if r.WouldBlock? {
        status, part := StoreOrRefuse(wire, bytes, calls);
      } else {
        status, part, calls := SendFlushed(wire, bytes, calls);
      }
    }

    // Nothing residual is left: the data can go straight out.
    method SendFlushed(wire: Wire, bytes: seq<byte>, ghost earlier: seq<IoResult>)
      returns (status: WriteStatus, ghost part: nat, ghost calls: seq<IoResult>)
      requires Valid() && wire.Valid() && sendHead == sendTail && 0 < |bytes| <= SEND_BUFFER_SIZE && AllMoved(earlier)
      modifies this`sendHead, this`sendTail, sendBuffer, wire
      ensures Valid() && wire.Valid() && wire.taken == old(wire.taken) && old(wire.sent) <= wire.sent
      ensures if part == |bytes| then status == WriteSuccess else status == WriteError && part < |bytes|
      ensures Stream(wire) == old(wire.sent) + bytes[..part]
      ensures earlier <= calls && wire.sends == old(wire.sends) + calls[|earlier|..] && wire.recvs == old(wire.recvs)
      ensures SendOutcome(status, calls, 0, |bytes|, |Pending()|)
    {
      if sendHead == sendTail {
        sendHead, sendTail := 0, 0;
      } else {
        assert false;
      }
      ghost var later;
      status, part, later := SendDirect(wire, bytes);
      MovedThen(earlier, later);
      calls := earlier + later;
    }

    // With residual bytes left, the data is kept whole or refused whole.
    method StoreOrRefuse(wire: Wire, bytes: seq<byte>, ghost calls: seq<IoResult>)
      returns (status: WriteStatus, ghost part: nat)
      requires Valid() && sendHead == 0 && sendHead < sendTail && 0 < |bytes|
      requires calls != [] && calls[|calls| - 1].WouldBlock? && AllMoved(calls[..|calls| - 1])
      modifies this`sendTail, sendBuffer
      ensures Valid()
      ensures if status == WriteSuccess then part == |bytes| else status == WriteNotFinish && part == 0
      ensures Stream(wire) == old(Stream(wire)) + bytes[..part]
      ensures SendOutcome(status, calls, |old(Pending())|, |bytes|, |Pending()|)
    {
      if SEND_BUFFER_SIZE - sendTail >= |bytes| {
        StoreBehind(wire, bytes);
        assert bytes[..|bytes|] == bytes;
        return WriteSuccess, |bytes|;
      } else {
        assert Stream(wire) + bytes[..0] == Stream(wire);
        return WriteNotFinish, 0;
      }
    }

    // The data goes behind the residual bytes, and so to the end of the stream.
    method StoreBehind(wire: Wire, bytes: seq<byte>)
      requires Valid() && SEND_BUFFER_SIZE - sendTail >= |bytes|
      modifies this`sendTail, sendBuffer
      ensures Valid() && Stream(wire) == old(Stream(wire)) + bytes
    {
      ghost var sent, before := wire.sent, Pending();
      Store(bytes);
      assert sent + (before + bytes) == sent + before + bytes;
    }

    // memcpy to the tail of the residual buffer.
    method Store(bytes: seq<byte>)
      requires Valid() && SEND_BUFFER_SIZE - sendTail >= |bytes|
      modifies this`sendTail, sendBuffer
      ensures Valid() && Pending() == old(Pending()) + bytes
    {
      forall k | 0 <= k < |bytes| {
        sendBuffer[sendTail + k] := bytes[k];
      }
      sendTail := sendTail + |bytes|;
    }
  }
}
