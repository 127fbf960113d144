// CMessage: a fixed header of four big-endian words followed by an opaque payload.
module Message {
  import opened Common

  const HEAD_SIZE := 16
  const INT32_MAX := 0x7fff_ffff

  datatype Head = Head(packetlen: int32, messageId: int32, framenum: int32, hash: uint32)

  // The payload is m_proto serialized; None is a null m_proto.
  datatype Msg = Msg(head: Head, proto: Option<seq<byte>>)

  // The bits of an int32 as a uint32, and back.
  function ToUint32(x: int32): uint32 { if x >= 0 then x else x + 0x1_0000_0000 }

  function ToInt32(u: uint32): int32 { if u <= INT32_MAX then u else u - 0x1_0000_0000 }

  // Conversion of a length to int32_t.
  function Truncate(x: int): int32 { ToInt32(x % 0x1_0000_0000) }

  // htonl and ntohl on a little-endian host, seen as bytes in memory.
  function BE32(u: uint32): (s: seq<byte>)
    ensures |s| == 4
  {
    [u / 256 / 256 / 256, u / 256 / 256 % 256, u / 256 % 256, u % 256]
  }

  function ReadBE32(s: seq<byte>): uint32
    requires |s| >= 4
  {
    Word(s[0], s[1], s[2], s[3])
  }

  function Word(a: int, b: int, c: int, d: int): int { ((a * 256 + b) * 256 + c) * 256 + d }

  function HeadBytes(h: Head): (s: seq<byte>)
    ensures |s| == HEAD_SIZE
  {
    BE32(ToUint32(h.packetlen)) + BE32(ToUint32(h.messageId)) + BE32(ToUint32(h.framenum)) + BE32(h.hash)
  }

  function ParseHead(s: seq<byte>): Head
    requires |s| >= HEAD_SIZE
  {
    Head(ToInt32(ReadBE32(s)), ToInt32(ReadBE32(s[4..])), ToInt32(ReadBE32(s[8..])), ReadBE32(s[12..]))
  }

  // encode stores the total length in the header first.
  function Stamp(m: Msg): Msg {
    if m.proto.None? then m
    else m.(head := m.head.(packetlen := Truncate(|m.proto.value| + HEAD_SIZE)))
  }

  function Encode(m: Msg): seq<byte> {
    if m.proto.None? then [] else HeadBytes(Stamp(m).head) + m.proto.value
  }

  // decode into a message whose m_proto is set.
  function Decode(s: seq<byte>): Option<Msg> {
    if |s| < HEAD_SIZE then None
    else
      var h := ParseHead(s);
      if |s| != h.packetlen then None else Some(Msg(h, Some(s[HEAD_SIZE..])))
  }

  // The lengths an int32 out-length can carry.
  predicate Fits(m: Msg) {
    m.proto.Some? && |m.proto.value| + HEAD_SIZE <= INT32_MAX
  }

  lemma WordRoundTrip(u: uint32)
    ensures ReadBE32(BE32(u)) == u
  {
    assert u == u / 256 * 256 + u % 256;
    assert u / 256 == u / 256 / 256 * 256 + u / 256 % 256;
    assert u / 256 / 256 == u / 256 / 256 / 256 * 256 + u / 256 / 256 % 256;
  }

  lemma WordIsUnique(s: seq<byte>)
    requires |s| == 4
    ensures BE32(ReadBE32(s)) == s
  {
    DigitIsUnique(Word(0, s[0], s[1], s[2]), s[3]);
    DigitIsUnique(Word(0, 0, s[0], s[1]), s[2]);
    DigitIsUnique(s[0], s[1]);
  }

  lemma DigitIsUnique(q: int, d: byte)
    ensures (q * 256 + d) / 256 == q && (q * 256 + d) % 256 == d
  {}

  lemma SignRoundTrip(x: int32, u: uint32)
    ensures ToInt32(ToUint32(x)) == x
    ensures ToUint32(ToInt32(u)) == u
  {}

  lemma HeadRoundTrip(h: Head, t: seq<byte>)
    ensures ParseHead(HeadBytes(h) + t) == h
  {
    var s := HeadBytes(h) + t;
    assert s[..4] == BE32(ToUint32(h.packetlen));
    assert s[4..8] == BE32(ToUint32(h.messageId));
    assert s[8..12] == BE32(ToUint32(h.framenum));
    assert s[12..16] == BE32(h.hash);
    WordAt(s, 0, ToUint32(h.packetlen));
    WordAt(s, 4, ToUint32(h.messageId));
    WordAt(s, 8, ToUint32(h.framenum));
    WordAt(s, 12, h.hash);
    assert s[0..] == s;
    SignRoundTrip(h.packetlen, 0);
    SignRoundTrip(h.messageId, 0);
    SignRoundTrip(h.framenum, 0);
  }

  lemma WordAt(s: seq<byte>, i: nat, u: uint32)
    requires i + 4 <= |s| && s[i..i + 4] == BE32(u)
    ensures ReadBE32(s[i..]) == u
  {
    WordRoundTrip(u);
    assert forall k :: 0 <= k < 4 ==> s[i..][k] == s[i..i + 4][k];
  }

  lemma HeadIsUnique(s: seq<byte>)
    requires |s| >= HEAD_SIZE
    ensures HeadBytes(ParseHead(s)) == s[..HEAD_SIZE]
  {
    WordIsUnique(s[..4]);
    WordIsUnique(s[4..8]);
    WordIsUnique(s[8..12]);
    WordIsUnique(s[12..16]);
    SignRoundTrip(0, ReadBE32(s));
    SignRoundTrip(0, ReadBE32(s[4..]));
    SignRoundTrip(0, ReadBE32(s[8..]));
    assert s[..16] == s[..4] + s[4..8] + s[8..12] + s[12..16];
  }

  // Which bytes carry which field: four words, most significant byte first, of the length, the
  // message id, the frame number and the hash, a negative number as its value plus 2^32.
  lemma HeadLayout(h: Head)
    ensures Carries(HeadBytes(h), 0, h.packetlen) && Carries(HeadBytes(h), 4, h.messageId)
    ensures Carries(HeadBytes(h), 8, h.framenum) && Carries(HeadBytes(h), 12, h.hash)
  {
    WordCarries(ToUint32(h.packetlen));
    WordCarries(ToUint32(h.messageId));
    WordCarries(ToUint32(h.framenum));
    WordCarries(h.hash);
  }

  predicate Carries(s: seq<byte>, at: nat, x: int)
    requires at + 4 <= |s|
  {
    var a: int, b: int, c: int, d: int := s[at], s[at + 1], s[at + 2], s[at + 3];
    0x100_0000 * a + 0x1_0000 * b + 0x100 * c + d == if x >= 0 then x else x + 0x1_0000_0000
  }

  lemma WordCarries(u: uint32)
    ensures Carries(BE32(u), 0, u)
  {
    WordRoundTrip(u);
  }

  lemma StampedLength(m: Msg)
    requires Fits(m)
    ensures Stamp(m).head.packetlen == |m.proto.value| + HEAD_SIZE
  {}

  // Every message that fits comes back field for field, with its length filled in.
  lemma DecodeEncode(m: Msg)
    requires Fits(m)
    ensures Decode(Encode(m)) == Some(Stamp(m))
    ensures |Encode(m)| == Stamp(m).head.packetlen == |m.proto.value| + HEAD_SIZE
  {
    StampedLength(m);
    var h, p := Stamp(m).head, m.proto.value;
    HeadRoundTrip(h, p);
    assert (HeadBytes(h) + p)[HEAD_SIZE..] == p;
    assert Stamp(m) == Msg(h, Some(p));
  }

  // Whatever decodes is the encoding of what it decodes to.
  lemma EncodeDecode(s: seq<byte>)
    requires Decode(s).Some?
    ensures Encode(Decode(s).value) == s && Fits(Decode(s).value)
  {
    var m := Decode(s).value;
    assert m.head == ParseHead(s) && m.proto.value == s[HEAD_SIZE..];
    assert Fits(m);
    StampedLength(m);
    assert Encode(m) == s by {
      HeadIsUnique(s);
      assert s == s[..HEAD_SIZE] + s[HEAD_SIZE..];
    }
  }

  // ---- The buffer-writing code ----

  method Append32(u: uint32, outs: array<byte>, at: nat) returns (next: nat)
    requires at + 4 <= outs.Length
    modifies outs
    ensures next == at + 4
    ensures outs[..] == old(outs[..at]) + BE32(u) + old(outs[next..])
  {
    var v := BE32(u);
    outs[at], outs[at + 1], outs[at + 2], outs[at + 3] := v[0], v[1], v[2], v[3];
    next := at + 4;
  }

  method EncodeHead(h: Head, outs: array<byte>) returns (outLen: nat)
    requires outs.Length >= HEAD_SIZE
    modifies outs
    ensures outLen == HEAD_SIZE
    ensures outs[..] == HeadBytes(h) + old(outs[HEAD_SIZE..])
  {
    ghost var tail := outs[HEAD_SIZE..];
    outLen := Append32(ToUint32(h.packetlen), outs, 0);
    ghost var w0 := BE32(ToUint32(h.packetlen));
    assert outs[..4] == w0 && outs[HEAD_SIZE..] == tail;
    outLen := Append32(ToUint32(h.messageId), outs, outLen);
    ghost var w1 := w0 + BE32(ToUint32(h.messageId));
    assert outs[..8] == w1 && outs[HEAD_SIZE..] == tail;
    outLen := Append32(ToUint32(h.framenum), outs, outLen);
    ghost var w2 := w1 + BE32(ToUint32(h.framenum));
    assert outs[..12] == w2 && outs[HEAD_SIZE..] == tail;
    outLen := Append32(h.hash, outs, outLen);
    assert outs[..16] == w2 + BE32(h.hash) && outs[HEAD_SIZE..] == tail;
    assert outs[..] == outs[..16] + outs[16..];
  }

  // memcpy of the payload.
  method CopyTo(bytes: seq<byte>, outs: array<byte>, at: nat)
    requires at + |bytes| <= outs.Length
    modifies outs
    ensures outs[..at + |bytes|] == old(outs[..at]) + bytes
  {
    forall k | 0 <= k < |bytes| {
      outs[at + k] := bytes[k];
    }
  }

  class CMessage {
    var head: Head
    var proto: Option<seq<byte>>

    constructor (head: Head, proto: Option<seq<byte>>)
      ensures Value() == Msg(head, proto)
    {
      this.head, this.proto := head, proto;
    }

    function Value(): Msg
      reads this
    {
      Msg(head, proto)
    }

    method EncodeTo(outs: array<byte>) returns (outLen: nat)
      requires outs.Length >= |Encode(Value())|
      modifies this`head, outs
      ensures Value() == Stamp(old(Value()))
      ensures old(proto).None? ==> outLen == 0 && Value() == old(Value())
      ensures outLen == |Encode(Value())| && outs[..outLen] == Encode(Value()) == Encode(old(Value()))
    {
      outLen := 0;
      if proto.None? {
        return;
      }
      ghost var m := Value();
      head := head.(packetlen := 0);
      head := head.(packetlen := Truncate(head.packetlen + |proto.value| + HEAD_SIZE));
      assert Value() == Stamp(m) && Encode(Value()) == Encode(m) == HeadBytes(head) + proto.value;
      outLen := EncodeHead(head, outs);
      CopyTo(proto.value, outs, outLen);
      outLen := outLen + |proto.value|;
    }

    // A failed length check has already overwritten the header.
    method DecodeFrom(ins: array?<byte>, inLen: nat) returns (ok: bool)
      requires ins != null ==> inLen <= ins.Length
      modifies this
      ensures ok <==> old(proto).Some? && ins != null && Decode(ins[..inLen]).Some?
      ensures ok ==> Some(Value()) == Decode(ins[..inLen])
      ensures !ok ==> proto == old(proto)
    {
      if proto.None? || ins == null || inLen < HEAD_SIZE {
        return false;
      }
      head := ParseHead(ins[..inLen]);
      if inLen != head.packetlen {
        return false;
      }
      proto := Some(ins[HEAD_SIZE..head.packetlen]);
      assert ins[..inLen][HEAD_SIZE..] == ins[HEAD_SIZE..inLen];
      return true;
    }
  }
}
