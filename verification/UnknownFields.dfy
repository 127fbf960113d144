// Fields the registry does not know, described by the bytes they take up, and what parsing does
// with them.
module UnknownFields {
  import opened Common
  import opened WireFormat
  import opened ExtensionSet

  // ---- Varints, by their bytes ----

  // From 1 to 10 bytes, all but the last with the high bit set.
  predicate IsVarint(s: seq<byte>) {
    1 <= |s| <= 10 && s[|s| - 1] < 128 && forall i :: 0 <= i < |s| - 1 ==> s[i] >= 128
  }

  function VarintValue(s: seq<byte>): nat
    requires s != []
  {
    if |s| == 1 then s[0] % 128 else s[0] % 128 + 128 * VarintValue(s[1..])
  }

  lemma {:induction false} ReadVarintAt(s: seq<byte>, t: seq<byte>, budget: nat)
    requires s != [] && |s| <= budget
    requires s[|s| - 1] < 128 && forall i :: 0 <= i < |s| - 1 ==> s[i] >= 128
    ensures ReadVarint(s + t, budget) == Parsed(VarintValue(s), t)
    decreases |s|
  {
    if |s| == 1 {
      assert (s + t)[1..] == t;
    } else {
      ReadVarintAt(s[1..], t, budget - 1);
      assert (s + t)[1..] == s[1..] + t;
    }
  }

  lemma {:induction false} VarintRead(s: seq<byte>, budget: nat) returns (head: seq<byte>)
    requires ReadVarint(s, budget).Parsed?
    ensures head != [] && |head| <= budget && s == head + ReadVarint(s, budget).rest
    ensures head[|head| - 1] < 128 && forall i :: 0 <= i < |head| - 1 ==> head[i] >= 128
    ensures VarintValue(head) == ReadVarint(s, budget).value
    decreases |s|
  {
    if s[0] < 128 {
      head := [s[0]];
    } else {
      var later := VarintRead(s[1..], budget - 1);
      head := [s[0]] + later;
      assert head[1..] == later;
    }
  }

  // A read takes exactly a varint of at most ten bytes off the input, or refuses it.
  lemma ReadVarintExactly(s: seq<byte>, head: seq<byte>, rest: seq<byte>)
    requires s == head + rest && IsVarint(head)
    ensures ReadVarint(s, MAX_VARINT_BYTES) == Parsed(VarintValue(head), rest)
  {
    ReadVarintAt(head, rest, MAX_VARINT_BYTES);
  }

  // ---- Unknown fields ----

  // The body of a field by its wire type; the members of a group carry their tags.
  datatype Unknown = Number(bytes: seq<byte>)
                   | Eight(bytes: seq<byte>)
                   | Lengthy(length: seq<byte>, bytes: seq<byte>)
                   | Four(bytes: seq<byte>)
                   | Group(members: seq<Member>, end: seq<byte>)

  datatype Member = Member(tag: seq<byte>, body: Unknown)

  function WireOf(u: Unknown): nat {
    match u case Number(_) => 0 case Eight(_) => 1 case Lengthy(_, _) => 2 case Group(_, _) => 3 case Four(_) => 5
  }

  // A varint, any 8 bytes, a length and that many bytes, any 4 bytes, or a group of such fields
  // up to the end tag with the group's number, nested in at most 100 groups.
  predicate WellFormed(u: Unknown, number: nat, depth: nat) {
    match u
    case Number(b) => IsVarint(b)
    case Eight(b) => |b| == 8
    case Lengthy(length, b) => IsVarint(length) && |b| <= 0x7fff_ffff && VarintValue(length) % 0x1_0000_0000 == |b|
    case Four(b) => |b| == 4
    case Group(members, end) =>
      && depth < 100 && IsVarint(end) && VarintValue(end) % 0x1_0000_0000 == number * 8 + 4
      && forall m :: m in members ==> WellFormedMember(m, depth)
  }

  predicate WellFormedMember(m: Member, depth: nat) {
    && IsVarint(m.tag) && VarintValue(m.tag) % 0x1_0000_0000 != 0
    && VarintValue(m.tag) % 0x1_0000_0000 % 8 == WireOf(m.body)
    && WellFormed(m.body, VarintValue(m.tag) % 0x1_0000_0000 / 8, depth + 1)
  }

  function Bytes(u: Unknown): seq<byte>
    decreases u, 1, 0
  {
    match u
    case Number(b) => b
    case Eight(b) => b
    case Lengthy(length, b) => length + b
    case Four(b) => b
    case Group(_, _) => GroupBytes(u, 0)
  }

  // The members of a group from one on, and its end.
  function GroupBytes(u: Unknown, i: nat): seq<byte>
    requires u.Group? && i <= |u.members|
    decreases u, 0, |u.members| - i
  {
    if i == |u.members| then u.end else u.members[i].tag + Bytes(u.members[i].body) + GroupBytes(u, i + 1)
  }

  // ---- Skipping takes exactly an unknown field ----

  lemma {:induction false} SkipsUnknown(tag: nat, u: Unknown, depth: nat, t: seq<byte>)
    requires tag % 8 == WireOf(u) && WellFormed(u, tag / 8, depth)
    ensures SkipField(tag, Bytes(u) + t, depth) == Parsed((), t)
    decreases u, 1, 0
  {
    match u
    case Number(b) => ReadVarintExactly(b + t, b, t);
    case Eight(b) => assert (b + t)[8..] == t;
    case Lengthy(length, b) => LengthyIsTaken(length, b, t);
    case Four(b) => assert (b + t)[4..] == t;
    case Group(_, _) => SkipsGroup(tag / 8, u, 0, depth, t);
  }

  lemma LengthyIsTaken(length: seq<byte>, b: seq<byte>, t: seq<byte>)
    requires IsVarint(length) && |b| <= 0x7fff_ffff && VarintValue(length) % 0x1_0000_0000 == |b|
    ensures ReadLength(length + b + t) == Parsed(b, t)
  {
    AppendIsAssociative(length, b, t);
    ReadVarintExactly(length + (b + t), length, b + t);
    assert (b + t)[..|b|] == b && (b + t)[|b|..] == t;
  }

  lemma {:induction false} SkipsGroup(number: nat, u: Unknown, i: nat, depth: nat, t: seq<byte>)
    requires u.Group? && i <= |u.members| && WellFormed(u, number, depth)
    ensures SkipGroup(number, GroupBytes(u, i) + t, depth + 1) == Parsed((), t)
    decreases u, 0, |u.members| - i
  {
    if i == |u.members| {
      EndIsTaken(number, u.end, depth, t);
    } else {
      var m := u.members[i];
      var later := GroupBytes(u, i + 1) + t;
      assert WellFormedMember(m, depth);
      FourParts(m.tag, Bytes(m.body), GroupBytes(u, i + 1), t);
      SkipsUnknown(VarintValue(m.tag) % 0x1_0000_0000, m.body, depth + 1, later);
      MemberIsTaken(number, m.tag, Bytes(m.body), depth, later);
      SkipsGroup(number, u, i + 1, depth, t);
    }
  }

  lemma EndIsTaken(number: nat, end: seq<byte>, depth: nat, t: seq<byte>)
    requires IsVarint(end) && VarintValue(end) % 0x1_0000_0000 == number * 8 + 4
    ensures SkipGroup(number, end + t, depth + 1) == Parsed((), t)
  {
    ReadVarintExactly(end + t, end, t);
  }

  lemma MemberIsTaken(number: nat, head: seq<byte>, body: seq<byte>, depth: nat, later: seq<byte>)
    requires IsVarint(head)
    requires var tag := VarintValue(head) % 0x1_0000_0000;
             tag != 0 && tag % 8 != 4 && SkipField(tag, body + later, depth + 1) == Parsed((), later)
    ensures SkipGroup(number, head + (body + later), depth + 1) == SkipGroup(number, later, depth + 1)
  {
    ReadVarintExactly(head + (body + later), head, body + later);
  }

  lemma NumberTaken(s: seq<byte>) returns (head: seq<byte>)
    requires ReadVarint(s, MAX_VARINT_BYTES).Parsed?
    ensures IsVarint(head) && s == head + ReadVarint(s, MAX_VARINT_BYTES).rest
    ensures VarintValue(head) == ReadVarint(s, MAX_VARINT_BYTES).value
  {
    head := VarintRead(s, MAX_VARINT_BYTES);
  }

  lemma LengthTaken(s: seq<byte>) returns (u: Unknown)
    requires ReadLength(s).Parsed?
    ensures u.Lengthy? && WellFormed(u, 0, 0) && s == Bytes(u) + ReadLength(s).rest
  {
    var length := NumberTaken(s);
    var rest := ReadVarint(s, MAX_VARINT_BYTES).rest;
    var n := VarintValue(length) % 0x1_0000_0000;
    u := Lengthy(length, rest[..n]);
    assert rest == rest[..n] + rest[n..];
    AppendIsAssociative(length, rest[..n], rest[n..]);
  }

  // And nothing else is skipped: whatever is taken off the input is such a field.
  lemma {:induction false} SkippedIsUnknown(tag: nat, s: seq<byte>, depth: nat) returns (u: Unknown)
    requires SkipField(tag, s, depth).Parsed?
    ensures WireOf(u) == tag % 8 && WellFormed(u, tag / 8, depth) && s == Bytes(u) + SkipField(tag, s, depth).rest
    decreases |s|, 1
  {
    match tag % 8
    case 0 =>
      var b := NumberTaken(s);
      u := Number(b);
    case 1 => u := Eight(s[..8]);
    case 2 => u := LengthTaken(s);
    case 3 => u := SkippedIsGroup(tag / 8, s, depth);
    case 5 => u := Four(s[..4]);
    case _ =>
  }

  lemma {:induction false} SkippedIsGroup(number: nat, s: seq<byte>, depth: nat) returns (u: Unknown)
    requires depth < 100 && SkipGroup(number, s, depth + 1).Parsed?
    ensures u.Group? && WellFormed(u, number, depth) && s == Bytes(u) + SkipGroup(number, s, depth + 1).rest
    decreases |s|, 0
  {
    var head := NumberTaken(s);
    var rest := ReadVarint(s, MAX_VARINT_BYTES).rest;
    var tag := VarintValue(head) % 0x1_0000_0000;
    if tag % 8 == 4 {
      u := Group([], head);
    } else {
      var body := SkippedIsUnknown(tag, rest, depth + 1);
      var after := SkipField(tag, rest, depth + 1).rest;
      var later := SkippedIsGroup(number, after, depth);
      u := GroupJoined(head, body, later, number, depth);
      FourParts(head, Bytes(body), Bytes(later), SkipGroup(number, after, depth + 1).rest);
    }
  }

  lemma FourParts(a: seq<byte>, b: seq<byte>, c: seq<byte>, d: seq<byte>)
    ensures a + (b + (c + d)) == a + b + c + d
  {}

  lemma GroupJoined(tag: seq<byte>, body: Unknown, later: Unknown, number: nat, depth: nat) returns (u: Unknown)
    requires later.Group? && WellFormed(later, number, depth) && WellFormedMember(Member(tag, body), depth)
    ensures u.Group? && WellFormed(u, number, depth) && Bytes(u) == tag + Bytes(body) + Bytes(later)
  {
    var m := Member(tag, body);
    u := Group([m] + later.members, later.end);
    forall x | x in u.members ensures WellFormedMember(x, depth) {
      if x != m { assert x in later.members; }
    }
    GroupCons(m, later, 0);
  }

  lemma {:induction false} GroupCons(m: Member, later: Unknown, i: nat)
    requires later.Group? && i <= |later.members|
    ensures var u := Group([m] + later.members, later.end);
            GroupBytes(u, i + 1) == GroupBytes(later, i) && Bytes(u) == m.tag + Bytes(m.body) + GroupBytes(u, 1)
    decreases |later.members| - i
  {
    if i < |later.members| { GroupCons(m, later, i + 1); }
  }

  // ---- What parsing does with them ----

  // The registry does not know the number, or knows it with another wire type.
  predicate Unregistered(reg: Registry, tag: nat) {
    var n := tag / 8;
    n !in reg || tag % 8 != if reg[n].packed then 2 else
      match reg[n].fieldType
      case Double | Fixed64 | SFixed64 => 1
      case String | Bytes => 2
      case Float | Fixed32 | SFixed32 => 5
      case Int64 | UInt64 | Int32 | Bool | UInt32 | Enum | SInt32 | SInt64 => 0
  }

  // An unknown field anywhere in the input makes no difference to the view.
  lemma {:induction false} UnknownIsSkipped(reg: Registry, head: seq<byte>, u: Unknown, s: seq<byte>, view: View)
    requires IsVarint(head) && VarintValue(head) % 0x1_0000_0000 != 0
    requires var tag := VarintValue(head) % 0x1_0000_0000;
             Unregistered(reg, tag) && tag % 8 == WireOf(u) && WellFormed(u, tag / 8, 0)
    ensures ParseAll(reg, head + Bytes(u) + s, view) == ParseAll(reg, s, view)
  {
    var tag := VarintValue(head) % 0x1_0000_0000;
    assert head + Bytes(u) + s == head + (Bytes(u) + s);
    ReadVarintExactly(head + (Bytes(u) + s), head, Bytes(u) + s);
    SkipsUnknown(tag, u, 0, s);
    assert FindExtensionInfoFromTag(reg, tag) == None;
  }

  // And a field the registry does not know that is not of this form refuses the whole input.
  lemma {:induction false} MalformedUnknownIsRefused(reg: Registry, head: seq<byte>, s: seq<byte>, view: View)
    requires IsVarint(head) && Unregistered(reg, VarintValue(head) % 0x1_0000_0000)
    requires var tag := VarintValue(head) % 0x1_0000_0000;
             forall u: Unknown, t: seq<byte> :: WireOf(u) == tag % 8 && WellFormed(u, tag / 8, 0) ==> s != Bytes(u) + t
    ensures ParseAll(reg, head + s, view).None?
  {
    var tag := VarintValue(head) % 0x1_0000_0000;
    ReadVarintExactly(head + s, head, s);
    assert FindExtensionInfoFromTag(reg, tag) == None;
    if SkipField(tag, s, 0).Parsed? {
      var u := SkippedIsUnknown(tag, s, 0);
    }
  }

  // An unknown fixed32 field 9 in front of field 1 = 5.
  lemma UnknownFixed32IsSkipped()
    ensures ParseAll(map[1 := Info(Int32, false, false, {})], [0x4d, 1, 2, 3, 4, 8, 5], map[]) ==
            Some(map[1 := [Num(5)]])
  {
    var reg, view: View := map[1 := Info(Int32, false, false, {})], map[];
    assert VarintValue([0x4d]) == 0x4d;
    UnknownIsSkipped(reg, [0x4d], Four([1, 2, 3, 4]), [8, 5], view);
    assert [0x4d] + [1, 2, 3, 4] + [8, 5] == [0x4d, 1, 2, 3, 4, 8, 5];
    ParseOneTagged(reg, 1, Num(5), [], view);
    assert TaggedOne(1, reg[1], Num(5)) == [8] + [5] && [8] + [5] + [] == [8, 5];
  }

  // ---- Enum numbers the type does not allow ----

  // On its own such a number leaves the view as it was.
  lemma {:induction false} UnknownEnumIsDropped(reg: Registry, n: int, v: int, s: seq<byte>, view: View)
    requires n in reg && ValidInfo(n, reg[n]) && !reg[n].packed && reg[n].fieldType.Enum?
    requires InRange(FieldType.Enum, Num(v)) && v !in reg[n].enumValues
    ensures ParseAll(reg, Varint(n * 8) + Encode(FieldType.Enum, Num(v)) + s, view) == ParseAll(reg, s, view)
  {
    var body := Encode(FieldType.Enum, Num(v)) + s;
    AppendIsAssociative(Varint(n * 8), Encode(FieldType.Enum, Num(v)), s);
    assert MakeTag(n, WireVarint) == n * 8;
    ParseTag(reg, n, WireVarint, body, view);
    ValueRoundTrip(FieldType.Enum, Num(v), s);
    assert FindExtensionInfoFromTag(reg, n * 8) == Some(reg[n]) by { TagRoundTrip(n, WireVarint, []); }
  }

  ghost predicate AllInRange(t: FieldType, vs: seq<Value>) {
    forall i :: 0 <= i < |vs| ==> InRange(t, vs[i])
  }

  // A payload with any values of the type, allowed or not.
  function RawPayload(t: FieldType, vs: seq<Value>): seq<byte>
    requires AllInRange(t, vs)
  {
    if vs == [] then [] else Encode(t, vs[0]) + RawPayload(t, vs[1..])
  }

  function Kept(vs: seq<Value>, allowed: set<int>): seq<Value> {
    if vs == [] then []
    else (if vs[0].Num? && vs[0].n in allowed then [vs[0]] else []) + Kept(vs[1..], allowed)
  }

  lemma {:induction false} PayloadKeepsAllowed(info: Info, vs: seq<Value>)
    requires info.fieldType.Enum? && AllInRange(info.fieldType, vs)
    ensures ReadPacked(info, RawPayload(info.fieldType, vs)) == Some(Kept(vs, info.enumValues))
    decreases vs
  {
    if vs != [] {
      PayloadKeepsAllowed(info, vs[1..]);
      var later := Kept(vs[1..], info.enumValues);
      ValueRoundTrip(info.fieldType, vs[0], RawPayload(info.fieldType, vs[1..]));
      assert RawPayload(info.fieldType, vs) != [];
      assert [] + later == later;
    }
  }

  // In a packed field only the numbers that are not allowed are lost.
  lemma PackedEnumsKeepAllowed(reg: Registry, n: int, vs: seq<Value>, s: seq<byte>, view: View)
    requires n in reg && ValidInfo(n, reg[n]) && reg[n].packed && reg[n].fieldType.Enum?
    requires AllInRange(reg[n].fieldType, vs) && |RawPayload(reg[n].fieldType, vs)| <= INT32_MAX
    ensures var payload := RawPayload(reg[n].fieldType, vs);
            ParseAll(reg, Varint(n * 8 + 2) + (Varint(|payload|) + payload + s), view) ==
            ParseAll(reg, s, Append(view, n, Kept(vs, reg[n].enumValues)))
  {
    assert MakeTag(n, WireLengthDelimited) == n * 8 + 2;
    PayloadKeepsAllowed(reg[n], vs);
    ParsePackedBytes(reg, n, RawPayload(reg[n].fieldType, vs), s, view);
  }

  // ---- Encodings the format is documented with ----

  lemma Varints()
    ensures Varint(150) == [0x96, 0x01] && Varint(270) == [0x8e, 0x02] && Varint(86942) == [0x9e, 0xa7, 0x05]
  {
    assert Varint(150) == [0x96] + Varint(1) && Varint(270) == [0x8e] + Varint(2);
    assert Varint(86942) == [0x9e] + Varint(679) && Varint(679) == [0xa7] + Varint(5);
  }

  // The examples of the Protocol Buffers Encoding guide, sections "A Simple Message", "Length-
  // Delimited Records" and "Packed Repeated Fields", and one of each fixed width.
  lemma NumberExample(t: FieldType)
    requires t == Int32 || t == Int64 || t == UInt32 || t == UInt64 || t == Enum
    ensures TaggedOne(1, Info(t, false, false, {150}), Num(150)) == [0x08, 0x96, 0x01]
  {
    Varints();
    assert [0x08] + [0x96, 0x01] == [0x08, 0x96, 0x01];
  }

  lemma StringExample(t: FieldType)
    requires t.String? || t.Bytes?
    ensures TaggedOne(2, Info(t, false, false, {}), Str([0x74, 0x65, 0x73, 0x74, 0x69, 0x6e, 0x67])) ==
            [0x12, 0x07, 0x74, 0x65, 0x73, 0x74, 0x69, 0x6e, 0x67]
  {
    assert Varint(0x12) == [0x12] && Varint(7) == [7];
  }

  lemma FixedExamples(t: FieldType)
    ensures t == Fixed32 || t == SFixed32 || t == Float ==>
              TaggedOne(1, Info(t, false, false, {}), Num(0x0102)) == [0x0d, 2, 1, 0, 0]
    ensures t == Fixed64 || t == SFixed64 || t == Double ==>
              TaggedOne(1, Info(t, false, false, {}), Num(0x0102)) == [0x09, 2, 1, 0, 0, 0, 0, 0, 0]
  {
    if t == Fixed32 || t == SFixed32 || t == Float {
      assert Varint(0x0d) == [0x0d];
      FixedNumber(2);
    } else if t == Fixed64 || t == SFixed64 || t == Double {
      assert Varint(0x09) == [0x09];
      FixedNumber(6);
    }
  }

  lemma {:induction false} ZeroBytes(k: nat)
    ensures LittleEndian(0, k) == seq(k, i => 0)
    decreases k
  {
    if k > 0 { ZeroBytes(k - 1); }
  }

  lemma FixedNumber(k: nat)
    ensures LittleEndian(0x0102, k + 2) == [2, 1] + seq(k, i => 0)
  {
    ZeroBytes(k);
    assert LittleEndian(1, k + 1) == [1] + LittleEndian(0, k);
  }

  lemma PackedExample()
    ensures AllAllowed(Info(Int32, true, true, {}), [Num(3), Num(270), Num(86942)])
    ensures FieldBytes(4, Info(Int32, true, true, {}), [Num(3), Num(270), Num(86942)]) ==
            [0x22, 0x06, 0x03, 0x8e, 0x02, 0x9e, 0xa7, 0x05]
  {
    var info, vs := Info(Int32, true, true, {}), [Num(3), Num(270), Num(86942)];
    Varints();
    assert vs[1..] == [Num(270), Num(86942)] && vs[1..][1..] == [Num(86942)] && vs[1..][1..][1..] == [];
    assert EncodeAll(info, [Num(86942)]) == [0x9e, 0xa7, 0x05] + [];
    assert EncodeAll(info, vs[1..]) == [0x8e, 0x02] + [0x9e, 0xa7, 0x05];
    assert EncodeAll(info, vs) == [0x03] + ([0x8e, 0x02] + [0x9e, 0xa7, 0x05]);
  }

  // Zig-zag numbers 0, -1, 1, -2, 2 as 0, 1, 2, 3, 4, and a negative int32 takes ten bytes.
  lemma SignedExamples()
    ensures forall t :: t == SInt32 || t == SInt64 ==>
              ToWire(t, 0) == 0 && ToWire(t, -1) == 1 && ToWire(t, 1) == 2 && ToWire(t, -2) == 3 && ToWire(t, 2) == 4
    ensures forall t :: t == SInt32 || t == SInt64 || t == Bool ==> WireTypeFor(t).WireVarint?
    ensures ToWire(Int32, -1) == 0xffff_ffff_ffff_ffff && |Encode(Int32, Num(-1))| == 10
    ensures ToWire(SFixed32, -1) == 0xffff_ffff
  {
    SizeIsLength(Int32, Num(-1));
  }
}
