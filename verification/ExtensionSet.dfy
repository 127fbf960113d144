// ExtensionSet: scalar, enum and string extensions of a message, merged, sized, serialized
// and parsed.
module ExtensionSet {
  import opened Common
  import opened WireFormat

  // A registered extension; enumValues are the numbers its enum type allows.
  datatype Info = Info(fieldType: FieldType, repeated: bool, packed: bool, enumValues: set<int>)

  type Registry = map<int, Info>

  // What a reader of a set can observe: the values of each extension that is there.
  type View = map<int, seq<Value>>

  predicate Primitive(t: FieldType) { !t.String? && !t.Bytes? }

  predicate ValidInfo(number: int, info: Info) {
    1 <= number <= MAX_FIELD_NUMBER && (info.packed ==> info.repeated && Primitive(info.fieldType))
  }

  ghost predicate ValidRegistry(reg: Registry) {
    forall n :: n in reg ==> ValidInfo(n, reg[n])
  }

  predicate Allowed(info: Info, v: Value) {
    InRange(info.fieldType, v) && (info.fieldType.Enum? ==> v.n in info.enumValues)
  }

  ghost predicate AllAllowed(info: Info, vs: seq<Value>) {
    forall i :: 0 <= i < |vs| ==> Allowed(info, vs[i])
  }

  function Get(view: View, n: int): seq<Value> { if n in view then view[n] else [] }

  function Append(view: View, n: int, vs: seq<Value>): View {
    if vs == [] then view else view[n := Get(view, n) + vs]
  }

  // ---- Serialized form ----

  function EncodeAll(info: Info, vs: seq<Value>): seq<byte>
    requires AllAllowed(info, vs)
  {
    if vs == [] then [] else Encode(info.fieldType, vs[0]) + EncodeAll(info, vs[1..])
  }

  function TaggedOne(n: nat, info: Info, v: Value): seq<byte>
    requires Allowed(info, v)
  {
    Varint(MakeTag(n, WireTypeFor(info.fieldType))) + Encode(info.fieldType, v)
  }

  // Tag and value, once per value.
  function TaggedAll(n: nat, info: Info, vs: seq<Value>): seq<byte>
    requires AllAllowed(info, vs)
  {
    if vs == [] then []
    else TaggedOne(n, info, vs[0]) + TaggedAll(n, info, vs[1..])
  }

  function FieldBytes(n: nat, info: Info, vs: seq<Value>): seq<byte>
    requires AllAllowed(info, vs)
  {
    if info.packed then
      var payload := EncodeAll(info, vs);
      if payload == [] then [] else Varint(MakeTag(n, WireLengthDelimited)) + Varint(|payload|) + payload
    else TaggedAll(n, info, vs)
  }

  // A field that can be serialized: its values are allowed, a singular one has exactly one,
  // and a packed payload fits an int.
  ghost predicate ValidField(n: int, info: Info, vs: seq<Value>) {
    && ValidInfo(n, info) && vs != [] && AllAllowed(info, vs)
    && (!info.repeated ==> |vs| == 1)
    && (info.packed ==> |EncodeAll(info, vs)| <= INT32_MAX)
  }

  ghost predicate ValidView(reg: Registry, view: View) {
    forall n :: n in view ==> n in reg && ValidField(n, reg[n], view[n])
  }

  ghost predicate AllIn(keys: seq<int>, view: View) {
    forall i :: 0 <= i < |keys| ==> keys[i] in view
  }

  // Every extension of the view once, in some order.
  ghost predicate Lists(keys: seq<int>, view: View) {
    AllIn(keys, view) && (forall n :: n in view ==> n in keys) && Distinct(keys)
  }

  ghost predicate Distinct(keys: seq<int>) {
    forall i, j :: 0 <= i < j < |keys| ==> keys[i] != keys[j]
  }

  // The listed fields in order.
  function Serialize(reg: Registry, view: View, keys: seq<int>): seq<byte>
    requires ValidView(reg, view) && AllIn(keys, view)
  {
    if keys == [] then []
    else FieldBytes(keys[0], reg[keys[0]], view[keys[0]]) + Serialize(reg, view, keys[1..])
  }

  // ---- Parsing ----

  // FindExtensionInfoFromTag: the extension a tag stands for, if it is registered and the
  // wire type is the one it is written with.
  function FindExtensionInfoFromTag(reg: Registry, tag: nat): Option<Info> {
    var number := tag / 8;
    if number !in reg then None
    else
      var info := reg[number];
      var expected := if info.packed then WireLengthDelimited else WireTypeFor(info.fieldType);
      if tag % 8 == WireNumber(expected) then Some(info) else None
  }

  const RECURSION_LIMIT := 100

  // SkipField: what an unknown field takes up. A group nests, up to the recursion limit.
  function SkipField(tag: nat, s: seq<byte>, depth: nat): (r: Parse<()>)
    ensures r.Parsed? ==> |r.rest| <= |s|
    decreases |s|, 1
  {
    match tag % 8
    case 0 => Skipped(ReadVarint(s, MAX_VARINT_BYTES))
    case 1 => Skipped(ReadLittleEndian(s, 8))
    case 2 => Skipped(ReadLength(s))
    case 3 => if depth >= RECURSION_LIMIT then Malformed else SkipGroup(tag / 8, s, depth + 1)
    case 5 => Skipped(ReadLittleEndian(s, 4))
    case _ => Malformed
  }

  function Skipped<T>(r: Parse<T>): Parse<()> {
    match r case Malformed => Malformed case Parsed(_, rest) => Parsed((), rest)
  }

  // SkipMessage inside a group: fields up to an end tag, which must carry the group's number.
  function SkipGroup(number: nat, s: seq<byte>, depth: nat): (r: Parse<()>)
    ensures r.Parsed? ==> |r.rest| <= |s|
    decreases |s|, 0
  {
    match ReadVarint(s, MAX_VARINT_BYTES)
    case Malformed => Malformed
    case Parsed(u, rest) =>
      var tag := u % TWO32;
      if tag == 0 then Malformed
      else if tag % 8 == 4 then if tag / 8 == number then Parsed((), rest) else Malformed
      else
        match SkipField(tag, rest, depth)
        case Malformed => Malformed
        case Parsed(_, rest') => SkipGroup(number, rest', depth)
  }

  // A length, and the bytes up to the limit it pushes. A length past the end of the array
  // being parsed, or one that is negative as an int, leaves the array's own end as the limit.
  function ReadPayload(s: seq<byte>): (r: Parse<seq<byte>>)
    ensures r.Parsed? ==> |r.rest| < |s|
  {
    match ReadVarint(s, MAX_VARINT_BYTES)
    case Malformed => Malformed
    case Parsed(u, rest) =>
      var n := u % TWO32;
      if n > INT32_MAX || n > |rest| then Parsed(rest, []) else Parsed(rest[..n], rest[n..])
  }

  // The values of a packed payload; enum values the type does not allow are left out.
  function ReadPacked(info: Info, s: seq<byte>): Option<seq<Value>>
    decreases |s|
  {
    if s == [] then Some([])
    else
      match Read(info.fieldType, s)
      case Malformed => None
      case Parsed(v, rest) =>
        match ReadPacked(info, rest)
        case None => None
        case Some(vs) => Some(if Known(info, v) then [v] + vs else vs)
  }

  predicate Known(info: Info, v: Value) { info.fieldType.Enum? ==> v.Num? && v.n in info.enumValues }

  // ParseFieldWithExtensionInfo: adds to a repeated extension, replaces a singular one.
  function ParseKnown(n: int, info: Info, s: seq<byte>, view: View): (r: Parse<View>)
    ensures r.Parsed? ==> |r.rest| <= |s|
  {
    if info.packed then
      match ReadPayload(s)
      case Malformed => Malformed
      case Parsed(payload, rest) =>
        (match ReadPacked(info, payload) case None => Malformed case Some(vs) => Parsed(Append(view, n, vs), rest))
    else
      match Read(info.fieldType, s)
      case Malformed => Malformed
      case Parsed(v, rest) =>
        if !Known(info, v) then Parsed(view, rest)
        else if info.repeated then Parsed(Append(view, n, [v]), rest)
        else Parsed(view[n := [v]], rest)
  }

  function ParseField(reg: Registry, tag: nat, s: seq<byte>, view: View): (r: Parse<View>)
    ensures r.Parsed? ==> |r.rest| <= |s|
  {
    match FindExtensionInfoFromTag(reg, tag)
    case None => (match SkipField(tag, s, 0) case Malformed => Malformed case Parsed(_, rest) => Parsed(view, rest))
    case Some(info) => ParseKnown(tag / 8, info, s, view)
  }

  // The message loop: tags until the input ends.
  function ParseAll(reg: Registry, s: seq<byte>, view: View): Option<View>
    decreases |s|
  {
    if s == [] then Some(view)
    else
      match ReadVarint(s, MAX_VARINT_BYTES)
      case Malformed => None
      case Parsed(u, rest) =>
        if u % TWO32 == 0 then None
        else
          match ParseField(reg, u % TWO32, rest, view)
          case Malformed => None
          case Parsed(view', rest') => ParseAll(reg, rest', view')
  }

  // ---- Merging ----

  // MergeFrom of one extension: appended if repeated, replaced if singular.
  function MergeField(info: Info, view: View, n: int, vs: seq<Value>): View {
    if info.repeated then Append(view, n, vs) else view[n := vs]
  }

  // The reference: what merging b into a must look like to a reader.
  function Merge(reg: Registry, a: View, b: View): View
    requires forall n :: n in b ==> n in reg
  {
    map n | n in a.Keys + b.Keys :: if n !in b then a[n] else if n in a && reg[n].repeated then a[n] + b[n] else b[n]
  }

  // ---- Parsing what was serialized ----

  lemma {:induction false} PackedRoundTrip(info: Info, vs: seq<Value>)
    requires AllAllowed(info, vs)
    ensures ReadPacked(info, EncodeAll(info, vs)) == Some(vs)
    ensures vs != [] ==> EncodeAll(info, vs) != []
    decreases vs
  {
    if vs != [] {
      ValueRoundTrip(info.fieldType, vs[0], EncodeAll(info, vs[1..]));
      PackedRoundTrip(info, vs[1..]);
      assert vs == [vs[0]] + vs[1..];
    }
  }

  // Reading one tag of a serialized field.
  lemma {:induction false} ParseTag(reg: Registry, n: nat, w: WireType, s: seq<byte>, view: View)
    requires 1 <= n <= MAX_FIELD_NUMBER
    ensures ParseAll(reg, Varint(MakeTag(n, w)) + s, view) ==
            match ParseField(reg, MakeTag(n, w), s, view)
            case Malformed => None
            case Parsed(view', rest) => ParseAll(reg, rest, view')
  {
    TagRoundTrip(n, w, s);
  }

  // A packed field with any payload, whatever follows.
  lemma {:induction false} ParsePackedBytes(reg: Registry, n: int, payload: seq<byte>, s: seq<byte>, view: View)
    requires n in reg && ValidInfo(n, reg[n]) && reg[n].packed && |payload| <= INT32_MAX
    ensures ParseAll(reg, Varint(MakeTag(n, WireLengthDelimited)) + (Varint(|payload|) + payload + s), view) ==
            match ReadPacked(reg[n], payload)
            case None => None
            case Some(vs) => ParseAll(reg, s, Append(view, n, vs))
  {
    var tag, body := MakeTag(n, WireLengthDelimited), Varint(|payload|) + payload + s;
    ParseTag(reg, n, WireLengthDelimited, body, view);
    assert ReadPayload(body) == Parsed(payload, s) by { LengthRoundTrip(payload, s); }
    assert FindExtensionInfoFromTag(reg, tag) == Some(reg[n]) && tag / 8 == n by {
      TagRoundTrip(n, WireLengthDelimited, []);
    }
    assert ParseField(reg, tag, body, view) == ParseKnown(n, reg[n], body, view);
  }

  lemma {:induction false} ParsePacked(reg: Registry, n: int, vs: seq<Value>, s: seq<byte>, view: View)
    requires n in reg && ValidField(n, reg[n], vs) && reg[n].packed
    ensures ParseAll(reg, FieldBytes(n, reg[n], vs) + s, view) == ParseAll(reg, s, Append(view, n, vs))
  {
    var payload := EncodeAll(reg[n], vs);
    var tag, size := Varint(MakeTag(n, WireLengthDelimited)), Varint(|payload|);
    PackedFieldBytes(n, reg[n], vs);
    AppendIsAssociative(tag, size, payload);
    AppendIsAssociative(tag, size + payload, s);
    assert ReadPacked(reg[n], payload) == Some(vs) by { PackedRoundTrip(reg[n], vs); }
    ParsePackedBytes(reg, n, payload, s, view);
  }

  lemma {:induction false} ParseOneTagged(reg: Registry, n: int, v: Value, s: seq<byte>, view: View)
    requires n in reg && ValidInfo(n, reg[n]) && !reg[n].packed && Allowed(reg[n], v)
    ensures var info := reg[n];
            ParseAll(reg, TaggedOne(n, info, v) + s, view) ==
            ParseAll(reg, s, MergeField(info, view, n, [v]))
  {
    var info := reg[n];
    var w := WireTypeFor(info.fieldType);
    var tag, body := Varint(MakeTag(n, w)), Encode(info.fieldType, v);
    assert tag + body + s == tag + (body + s);
    ParseTag(reg, n, w, body + s, view);
    ValueRoundTrip(info.fieldType, v, s);
    TagRoundTrip(n, w, []);
  }

  lemma {:induction false} ParseTagged(reg: Registry, n: int, vs: seq<Value>, s: seq<byte>, view: View)
    requires n in reg && ValidInfo(n, reg[n]) && !reg[n].packed && reg[n].repeated && AllAllowed(reg[n], vs)
    ensures ParseAll(reg, TaggedAll(n, reg[n], vs) + s, view) == ParseAll(reg, s, Append(view, n, vs))
    decreases vs
  {
    var info := reg[n];
    if vs == [] {
      assert TaggedAll(n, info, vs) + s == s;
    } else {
      var one := TaggedOne(n, info, vs[0]);
      var later := TaggedAll(n, info, vs[1..]);
      assert TaggedAll(n, info, vs) + s == one + (later + s);
      ParseOneTagged(reg, n, vs[0], later + s, view);
      var view' := Append(view, n, [vs[0]]);
      ParseTagged(reg, n, vs[1..], s, view');
      AppendTwice(view, n, vs);
    }
  }

  lemma AppendTwice(view: View, n: int, vs: seq<Value>)
    requires vs != []
    ensures Append(Append(view, n, [vs[0]]), n, vs[1..]) == Append(view, n, vs)
  {
    var g := Get(view, n);
    assert g + vs == g + [vs[0]] + vs[1..];
    assert vs[1..] == [] ==> vs == [vs[0]];
  }

  lemma {:induction false} ParseSingular(reg: Registry, n: int, vs: seq<Value>, s: seq<byte>, view: View)
    requires n in reg && ValidField(n, reg[n], vs) && !reg[n].repeated
    ensures ParseAll(reg, TaggedAll(n, reg[n], vs) + s, view) == ParseAll(reg, s, view[n := vs])
  {
    var info, v := reg[n], vs[0];
    assert vs == [v] && vs[1..] == [];
    var one := TaggedOne(n, info, v);
    assert TaggedAll(n, info, vs) == one + [] == one;
    ParseOneTagged(reg, n, v, s, view);
  }

  // Parsing a serialized field does what MergeFrom does with that field.
  lemma {:induction false} ParseSerializedField(reg: Registry, n: int, vs: seq<Value>, s: seq<byte>, view: View)
    requires n in reg && ValidField(n, reg[n], vs)
    ensures ParseAll(reg, FieldBytes(n, reg[n], vs) + s, view) == ParseAll(reg, s, MergeField(reg[n], view, n, vs))
  {
    if reg[n].packed {
      ParsePacked(reg, n, vs, s, view);
    } else if reg[n].repeated {
      ParseTagged(reg, n, vs, s, view);
    } else {
      ParseSingular(reg, n, vs, s, view);
    }
  }

  // Merging the listed fields one after the other.
  function MergeKeys(reg: Registry, view: View, b: View, keys: seq<int>): View
    requires ValidView(reg, b) && AllIn(keys, b)
    decreases keys
  {
    if keys == [] then view
    else
      var n := keys[0];
      var vs := b[n];
      MergeKeys(reg, MergeField(reg[n], view, n, vs), b, keys[1..])
  }

  lemma {:induction false} ParseSerialized(reg: Registry, b: View, keys: seq<int>, s: seq<byte>, view: View)
    requires ValidView(reg, b) && AllIn(keys, b)
    ensures ParseAll(reg, Serialize(reg, b, keys) + s, view) == ParseAll(reg, s, MergeKeys(reg, view, b, keys))
    decreases keys
  {
    if keys == [] {
      assert Serialize(reg, b, keys) + s == s;
    } else {
      var n := keys[0];
      var later := Serialize(reg, b, keys[1..]);
      assert Serialize(reg, b, keys) + s == FieldBytes(n, reg[n], b[n]) + (later + s);
      ParseSerializedField(reg, n, b[n], later + s, view);
      ParseSerialized(reg, b, keys[1..], s, MergeField(reg[n], view, n, b[n]));
    }
  }

  // Field by field, in any order, the merge gives each extension what Merge says.
  lemma {:induction false} MergeKeysAt(reg: Registry, view: View, b: View, keys: seq<int>, n: int)
    requires ValidView(reg, b) && Distinct(keys) && AllIn(keys, b)
    ensures n in MergeKeys(reg, view, b, keys) <==> n in view || n in keys
    ensures n !in keys && n in view ==> MergeKeys(reg, view, b, keys)[n] == view[n]
    ensures n in keys ==> MergeKeys(reg, view, b, keys)[n] == if reg[n].repeated then Get(view, n) + b[n] else b[n]
    decreases keys
  {
    if keys != [] {
      var k, later := keys[0], keys[1..];
      var view' := MergeField(reg[k], view, k, b[k]);
      assert keys == [k] + later;
      assert k !in later by {
        assert forall i :: 0 <= i < |later| ==> later[i] == keys[i + 1];
      }
      MergeKeysAt(reg, view', b, later, n);
    }
  }

  lemma MergeKeysIsMerge(reg: Registry, a: View, b: View, keys: seq<int>)
    requires ValidView(reg, b) && Lists(keys, b)
    ensures MergeKeys(reg, a, b, keys) == Merge(reg, a, b)
  {
    var m := MergeKeys(reg, a, b, keys);
    forall n ensures (n in m <==> n in Merge(reg, a, b)) && (n in m ==> m[n] == Merge(reg, a, b)[n]) {
      MergeKeysAt(reg, a, b, keys, n);
      assert n in b ==> [] + b[n] == b[n];
    }
  }

  // The law of the wire format: parsing the concatenation of two serialized sets gives what
  // merging the second into the first gives.
  lemma ConcatenationIsMerge(reg: Registry, a: View, aKeys: seq<int>, b: View, bKeys: seq<int>)
    requires ValidView(reg, a) && Lists(aKeys, a)
    requires ValidView(reg, b) && Lists(bKeys, b)
    ensures ParseAll(reg, Serialize(reg, a, aKeys) + Serialize(reg, b, bKeys), map[]) == Some(Merge(reg, a, b))
  {
    var second := Serialize(reg, b, bKeys);
    ParseIntoView(reg, a, aKeys, second, map[]);
    MergeIntoNothing(reg, a);
    ParseIntoView(reg, b, bKeys, [], a);
    assert second + [] == second;
  }

  lemma MergeIntoNothing(reg: Registry, a: View)
    requires forall n :: n in a ==> n in reg
    ensures Merge(reg, map[], a) == a
  {}

  // Parsing a serialized set, and what follows it, on top of a view.
  lemma ParseIntoView(reg: Registry, a: View, keys: seq<int>, s: seq<byte>, view: View)
    requires ValidView(reg, a) && Lists(keys, a)
    ensures ParseAll(reg, Serialize(reg, a, keys) + s, view) == ParseAll(reg, s, Merge(reg, view, a))
  {
    ParseSerialized(reg, a, keys, s, view);
    MergeKeysIsMerge(reg, view, a, keys);
  }

  // And a set comes back from its own serialized form.
  lemma SetRoundTrip(reg: Registry, a: View, keys: seq<int>)
    requires ValidView(reg, a) && Lists(keys, a)
    ensures ParseAll(reg, Serialize(reg, a, keys), map[]) == Some(a)
  {
    ConcatenationIsMerge(reg, a, keys, map[], []);
    assert Serialize(reg, a, keys) + Serialize(reg, map[], []) == Serialize(reg, a, keys);
    assert Merge(reg, a, map[]) == a;
  }

  // ---- Parsing what was cut short ----

  lemma {:induction false} OverlongPayload(payload: seq<byte>, size: nat)
    requires |payload| <= size < TWO32
    ensures ReadPayload(Varint(size) + payload) == Parsed(payload, [])
  {
    VarintSizeIsLength(size);
    VarintRoundTrip(size, payload, MAX_VARINT_BYTES);
    assert payload[..|payload|] == payload;
  }

  // A packed field at the end of the input, with any bytes for a payload and any announced
  // size that is not too small for them: it parses exactly when the payload does.
  lemma {:induction false} TruncatedPackedExactly(reg: Registry, n: int, payload: seq<byte>, size: nat, view: View)
    requires n in reg && ValidInfo(n, reg[n]) && reg[n].packed && |payload| <= size < TWO32
    ensures ParseAll(reg, Varint(MakeTag(n, WireLengthDelimited)) + (Varint(size) + payload), view) ==
            match ReadPacked(reg[n], payload) case None => None case Some(vs) => Some(Append(view, n, vs))
  {
    var tag, body := MakeTag(n, WireLengthDelimited), Varint(size) + payload;
    ParseTag(reg, n, WireLengthDelimited, body, view);
    OverlongPayload(payload, size);
    assert FindExtensionInfoFromTag(reg, tag) == Some(reg[n]) && tag / 8 == n by {
      TagRoundTrip(n, WireLengthDelimited, []);
    }
    assert ParseField(reg, tag, body, view) == ParseKnown(n, reg[n], body, view);
  }

  // The first k bytes of the values are exactly the first j values.
  ghost predicate Boundary(info: Info, vs: seq<Value>, j: int, k: int) {
    0 <= j <= |vs| && AllAllowed(info, vs[..j]) && k == |EncodeAll(info, vs[..j])|
  }

  lemma EncodeAllCons(info: Info, vs: seq<Value>, j: int)
    requires AllAllowed(info, vs) && 1 <= j <= |vs|
    ensures AllAllowed(info, vs[..j]) && AllAllowed(info, vs[1..][..j - 1])
    ensures EncodeAll(info, vs[..j]) == Encode(info.fieldType, vs[0]) + EncodeAll(info, vs[1..][..j - 1])
  {
    assert vs[..j][1..] == vs[1..][..j - 1];
  }

  // How many values the first k bytes hold, if they do not end inside one.
  function WholeValues(info: Info, vs: seq<Value>, k: nat): (j: Option<nat>)
    requires AllAllowed(info, vs)
    ensures j.Some? ==> j.value <= |vs|
    decreases vs
  {
    if k == 0 then Some(0)
    else if vs == [] || k < |Encode(info.fieldType, vs[0])| then None
    else
      match WholeValues(info, vs[1..], k - |Encode(info.fieldType, vs[0])|)
      case None => None
      case Some(j) => Some(j + 1)
  }

  lemma {:induction false} WholeValuesExactly(info: Info, vs: seq<Value>, k: nat, j: nat)
    requires AllAllowed(info, vs)
    ensures WholeValues(info, vs, k) == Some(j) <==> Boundary(info, vs, j, k)
    decreases vs
  {
    if j == 0 {
      assert vs[..j] == [];
    } else if j <= |vs| {
      EncodeAllCons(info, vs, j);
      ValueRoundTrip(info.fieldType, vs[0], []);
      var e := |Encode(info.fieldType, vs[0])|;
      if k >= e { WholeValuesExactly(info, vs[1..], k - e, j - 1); }
    }
  }

  // A cut of two parts is a cut of the first or of the second.
  lemma CutParts<T>(a: seq<T>, b: seq<T>, p: seq<T>, lost: seq<T>)
    requires a + b == p + lost
    ensures |p| <= |a| ==> p == a[..|p|]
    ensures |p| >= |a| ==> p == a + p[|a|..] && b == p[|a|..] + lost
  {
    assert p == (a + b)[..|p|] && lost == (a + b)[|p|..];
  }

  lemma {:induction false} ReadPackedCons(info: Info, v: Value, s: seq<byte>)
    requires Allowed(info, v)
    ensures ReadPacked(info, Encode(info.fieldType, v) + s) ==
            Prepend([v], ReadPacked(info, s))
  {
    ValueRoundTrip(info.fieldType, v, s);
  }

  lemma {:induction false} ReadPackedPrefix(info: Info, v: Value, k: nat)
    requires Allowed(info, v) && 0 < k < |Encode(info.fieldType, v)|
    ensures ReadPacked(info, Encode(info.fieldType, v)[..k]).None?
  {
    ValuePrefixIsMalformed(info.fieldType, v, k);
  }

  // The first values, if it is known how many.
  function FirstValues(vs: seq<Value>, w: Option<nat>): Option<seq<Value>>
    requires w.Some? ==> w.value <= |vs|
  {
    match w case None => None case Some(j) => Some(vs[..j])
  }

  function Next(w: Option<nat>): Option<nat> { match w case None => None case Some(j) => Some(j + 1) }

  lemma FirstValuesCons(vs: seq<Value>, w: Option<nat>)
    requires vs != [] && (w.Some? ==> w.value < |vs|)
    ensures FirstValues(vs, Next(w)) == Prepend([vs[0]], FirstValues(vs[1..], w))
  {
    if w.Some? { assert vs[..w.value + 1] == [vs[0]] + vs[1..][..w.value]; }
  }

  // Cut anywhere, into p and what is lost, a packed payload is read exactly when the cut does
  // not fall inside a value, and then gives the values before it.
  lemma {:induction false} CutPayload(info: Info, vs: seq<Value>, p: seq<byte>, lost: seq<byte>)
    requires AllAllowed(info, vs) && EncodeAll(info, vs) == p + lost
    ensures ReadPacked(info, p) == FirstValues(vs, WholeValues(info, vs, |p|))
    decreases vs
  {
    if p != [] {
      var e := Encode(info.fieldType, vs[0]);
      CutParts(e, EncodeAll(info, vs[1..]), p, lost);
      if |p| < |e| {
        ReadPackedPrefix(info, vs[0], |p|);
      } else {
        var p' := p[|e|..];
        CutPayload(info, vs[1..], p', lost);
        ReadPackedCons(info, vs[0], p');
        FirstValuesCons(vs, WholeValues(info, vs[1..], |p'|));
      }
    }
  }

  // What a cut field adds to a view.
  function AppendFirst(view: View, n: int, vs: seq<Value>, w: Option<nat>): Option<View>
    requires w.Some? ==> w.value <= |vs|
  {
    match w case None => None case Some(j) => Some(Append(view, n, vs[..j]))
  }

  lemma PackedFieldBytes(n: int, info: Info, vs: seq<Value>)
    requires ValidField(n, info, vs) && info.packed
    ensures FieldBytes(n, info, vs) == PackedHead(n, info, vs) + EncodeAll(info, vs)
  {
    PackedRoundTrip(info, vs);
  }

  // A packed field cut anywhere: it is refused inside its tag, inside its length and inside a
  // value. Cut between two values it parses, and the values after the cut are lost without
  // notice.
  lemma CutPackedField(reg: Registry, n: int, vs: seq<Value>, p: seq<byte>, lost: seq<byte>, view: View)
    requires n in reg && ValidField(n, reg[n], vs) && reg[n].packed
    requires FieldBytes(n, reg[n], vs) == p + lost && p != []
    ensures var k := |p| - |PackedHead(n, reg[n], vs)|;
            ParseAll(reg, p, view) == if k < 0 then None else AppendFirst(view, n, vs, WholeValues(reg[n], vs, k))
  {
    PackedFieldBytes(n, reg[n], vs);
    CutHeadAndBody(reg, n, vs, p, lost, view);
  }

  lemma CutHeadAndBody(reg: Registry, n: int, vs: seq<Value>, p: seq<byte>, lost: seq<byte>, view: View)
    requires n in reg && ValidField(n, reg[n], vs) && reg[n].packed
    requires PackedHead(n, reg[n], vs) + EncodeAll(reg[n], vs) == p + lost && p != []
    ensures var k := |p| - |PackedHead(n, reg[n], vs)|;
            ParseAll(reg, p, view) == if k < 0 then None else AppendFirst(view, n, vs, WholeValues(reg[n], vs, k))
  {
    var head := PackedHead(n, reg[n], vs);
    CutParts(head, EncodeAll(reg[n], vs), p, lost);
    if |p| >= |head| {
      CutBody(reg, n, vs, p[|head|..], lost, view);
    } else {
      CutBeforeBody(reg, n, vs, p, view);
    }
  }

  lemma CutBeforeBody(reg: Registry, n: int, vs: seq<Value>, p: seq<byte>, view: View)
    requires n in reg && ValidField(n, reg[n], vs) && reg[n].packed && [] < p < PackedHead(n, reg[n], vs)
    ensures ParseAll(reg, p, view).None?
  {
    var head := PackedHead(n, reg[n], vs);
    assert head == p + head[|p|..];
    CutHead(reg, n, |EncodeAll(reg[n], vs)|, p, head[|p|..], view);
  }

  lemma CutBody(reg: Registry, n: int, vs: seq<Value>, p: seq<byte>, lost: seq<byte>, view: View)
    requires n in reg && ValidField(n, reg[n], vs) && reg[n].packed && EncodeAll(reg[n], vs) == p + lost
    ensures ParseAll(reg, PackedHead(n, reg[n], vs) + p, view) == AppendFirst(view, n, vs, WholeValues(reg[n], vs, |p|))
  {
    var tag, length := Varint(MakeTag(n, WireLengthDelimited)), |EncodeAll(reg[n], vs)|;
    AppendIsAssociative(tag, Varint(length), p);
    TruncatedPackedExactly(reg, n, p, length, view);
    CutPayload(reg[n], vs, p, lost);
  }

  // The tag and the length of a packed field.
  function PackedHead(n: nat, info: Info, vs: seq<Value>): seq<byte>
    requires AllAllowed(info, vs)
  {
    Varint(MakeTag(n, WireLengthDelimited)) + Varint(|EncodeAll(info, vs)|)
  }

  lemma CutHead(reg: Registry, n: int, length: nat, p: seq<byte>, lost: seq<byte>, view: View)
    requires n in reg && ValidInfo(n, reg[n]) && reg[n].packed
    requires Varint(MakeTag(n, WireLengthDelimited)) + Varint(length) == p + lost && p != [] && lost != []
    ensures ParseAll(reg, p, view).None?
  {
    var tag := MakeTag(n, WireLengthDelimited);
    CutParts(Varint(tag), Varint(length), p, lost);
    if |p| < |Varint(tag)| {
      VarintPrefixIsMalformed(tag, |p|, MAX_VARINT_BYTES);
    } else {
      CutLength(reg, n, length, p[|Varint(tag)|..], lost, view);
    }
  }

  lemma CutLength(reg: Registry, n: int, length: nat, p: seq<byte>, lost: seq<byte>, view: View)
    requires n in reg && ValidInfo(n, reg[n]) && reg[n].packed && Varint(length) == p + lost && lost != []
    ensures ParseAll(reg, Varint(MakeTag(n, WireLengthDelimited)) + p, view).None?
  {
    assert Varint(length)[..|p|] == p;
    VarintPrefixIsMalformed(length, |p|, MAX_VARINT_BYTES);
    ParseTag(reg, n, WireLengthDelimited, p, view);
    assert FindExtensionInfoFromTag(reg, MakeTag(n, WireLengthDelimited)) == Some(reg[n]) by {
      TagRoundTrip(n, WireLengthDelimited, []);
    }
  }

  // ---- Any prefix of a serialized set ----

  // How many whole tagged values the first k bytes hold, if they do not end inside one.
  function WholeTagged(n: nat, info: Info, vs: seq<Value>, k: nat): (j: Option<nat>)
    requires AllAllowed(info, vs)
    ensures j.Some? ==> j.value <= |vs|
    decreases vs
  {
    if k == 0 then Some(0)
    else if vs == [] || k < |TaggedOne(n, info, vs[0])| then None
    else Next(WholeTagged(n, info, vs[1..], k - |TaggedOne(n, info, vs[0])|))
  }

  lemma {:induction false} TagPrefixFails(reg: Registry, n: nat, w: WireType, p: seq<byte>, view: View)
    requires [] < p < Varint(MakeTag(n, w))
    ensures ParseAll(reg, p, view).None?
  {
    VarintPrefixIsMalformed(MakeTag(n, w), |p|, MAX_VARINT_BYTES);
    assert p == Varint(MakeTag(n, w))[..|p|];
  }

  // One tagged value cut short is refused.
  lemma {:induction false} CutTaggedOne(reg: Registry, n: int, v: Value, p: seq<byte>, view: View)
    requires n in reg && ValidInfo(n, reg[n]) && !reg[n].packed && Allowed(reg[n], v)
    requires [] < p < TaggedOne(n, reg[n], v)
    ensures ParseAll(reg, p, view).None?
  {
    var info := reg[n];
    var w, body := WireTypeFor(info.fieldType), Encode(info.fieldType, v);
    var tag := Varint(MakeTag(n, w));
    var lost := (tag + body)[|p|..];
    assert tag + body == p + lost;
    CutParts(tag, body, p, lost);
    if |p| < |tag| {
      TagPrefixFails(reg, n, w, p, view);
    } else {
      CutTaggedValue(reg, n, v, p[|tag|..], lost, view);
    }
  }

  lemma {:induction false} CutTaggedValue(reg: Registry, n: int, v: Value, p: seq<byte>, lost: seq<byte>, view: View)
    requires n in reg && ValidInfo(n, reg[n]) && !reg[n].packed && Allowed(reg[n], v)
    requires Encode(reg[n].fieldType, v) == p + lost && lost != []
    ensures ParseAll(reg, Varint(MakeTag(n, WireTypeFor(reg[n].fieldType))) + p, view).None?
  {
    var w := WireTypeFor(reg[n].fieldType);
    assert p == Encode(reg[n].fieldType, v)[..|p|];
    ValuePrefixIsMalformed(reg[n].fieldType, v, |p|);
    ParseTag(reg, n, w, p, view);
    assert FindExtensionInfoFromTag(reg, MakeTag(n, w)) == Some(reg[n]) by { TagRoundTrip(n, w, []); }
  }

  lemma AppendMoreFirst(view: View, n: int, vs: seq<Value>, w: Option<nat>)
    requires vs != [] && (w.Some? ==> w.value < |vs|)
    ensures AppendFirst(Append(view, n, [vs[0]]), n, vs[1..], w) == AppendFirst(view, n, vs, Next(w))
  {
    if w.Some? {
      var first := vs[..w.value + 1];
      assert first[0] == vs[0] && first[1..] == vs[1..][..w.value];
      AppendTwice(view, n, first);
    }
  }

  // A repeated field that is not packed, cut anywhere.
  lemma {:induction false} CutTagged(reg: Registry, n: int, vs: seq<Value>, p: seq<byte>, lost: seq<byte>, view: View)
    requires n in reg && ValidInfo(n, reg[n]) && !reg[n].packed && reg[n].repeated && AllAllowed(reg[n], vs)
    requires TaggedAll(n, reg[n], vs) == p + lost
    ensures ParseAll(reg, p, view) == AppendFirst(view, n, vs, WholeTagged(n, reg[n], vs, |p|))
    decreases vs
  {
    var info := reg[n];
    if p == [] {
      assert vs[..0] == [];
    } else {
      var one := TaggedOne(n, info, vs[0]);
      CutParts(one, TaggedAll(n, info, vs[1..]), p, lost);
      if |p| < |one| {
        CutTaggedOne(reg, n, vs[0], p, view);
      } else {
        CutTagged(reg, n, vs[1..], p[|one|..], lost, Append(view, n, [vs[0]]));
        CutAfterOne(reg, n, vs, p[|one|..], WholeTagged(n, info, vs[1..], |p[|one|..]|), view);
      }
    }
  }

  lemma {:induction false} CutAfterOne(reg: Registry, n: int, vs: seq<Value>, p: seq<byte>, w: Option<nat>, view: View)
    requires n in reg && ValidInfo(n, reg[n]) && !reg[n].packed && reg[n].repeated
    requires vs != [] && Allowed(reg[n], vs[0]) && (w.Some? ==> w.value < |vs|)
    requires ParseAll(reg, p, Append(view, n, [vs[0]])) == AppendFirst(Append(view, n, [vs[0]]), n, vs[1..], w)
    ensures ParseAll(reg, TaggedOne(n, reg[n], vs[0]) + p, view) == AppendFirst(view, n, vs, Next(w))
  {
    ParseOneTagged(reg, n, vs[0], p, view);
    AppendMoreFirst(view, n, vs, w);
  }

  // What the first k bytes of a field give, with k short of the whole.
  function CutField(n: int, info: Info, vs: seq<Value>, k: nat, view: View): Option<View>
    requires n >= 0 && AllAllowed(info, vs)
  {
    if k == 0 then Some(view)
    else if !info.packed then AppendFirst(view, n, vs, WholeTagged(n, info, vs, k))
    else if k < |PackedHead(n, info, vs)| then None
    else AppendFirst(view, n, vs, WholeValues(info, vs, k - |PackedHead(n, info, vs)|))
  }

  lemma {:induction false} CutFieldExactly(reg: Registry, n: int, vs: seq<Value>, p: seq<byte>, view: View)
    requires n in reg && ValidField(n, reg[n], vs) && p < FieldBytes(n, reg[n], vs)
    ensures ParseAll(reg, p, view) == CutField(n, reg[n], vs, |p|, view)
  {
    var info, lost := reg[n], FieldBytes(n, reg[n], vs)[|p|..];
    assert FieldBytes(n, info, vs) == p + lost;
    if p != [] {
      if info.packed {
        CutPackedField(reg, n, vs, p, lost, view);
      } else if info.repeated {
        CutTagged(reg, n, vs, p, lost, view);
      } else {
        SingularBytes(n, info, vs);
        CutTaggedOne(reg, n, vs[0], p, view);
      }
    }
  }

  lemma SingularBytes(n: int, info: Info, vs: seq<Value>)
    requires ValidField(n, info, vs) && !info.repeated
    ensures FieldBytes(n, info, vs) == TaggedOne(n, info, vs[0])
  {
    var one := TaggedOne(n, info, vs[0]);
    assert vs[1..] == [] && TaggedAll(n, info, vs) == one + [] == one;
  }

  // What the first k bytes of a serialized set give: its first fields whole, and of the next
  // one the values before the cut, unless the cut is inside a tag, a length or a value.
  function CutSet(reg: Registry, b: View, keys: seq<int>, k: nat, view: View): Option<View>
    requires ValidView(reg, b) && AllIn(keys, b)
    decreases keys
  {
    if keys == [] then Some(view)
    else
      var n := keys[0];
      var size := |FieldBytes(n, reg[n], b[n])|;
      if k < size then CutField(n, reg[n], b[n], k, view)
      else CutSet(reg, b, keys[1..], k - size, MergeField(reg[n], view, n, b[n]))
  }

  lemma FirstField(reg: Registry, b: View, keys: seq<int>)
    requires ValidView(reg, b) && AllIn(keys, b) && keys != []
    ensures Serialize(reg, b, keys) == FieldBytes(keys[0], reg[keys[0]], b[keys[0]]) + Serialize(reg, b, keys[1..])
  {}

  lemma {:induction false} PrefixPastFirst(reg: Registry, b: View, keys: seq<int>, p: seq<byte>, view: View)
    requires ValidView(reg, b) && AllIn(keys, b) && keys != [] && keys[0] in b && keys[0] in reg
    requires ParseAll(reg, p, MergeField(reg[keys[0]], view, keys[0], b[keys[0]])) ==
             CutSet(reg, b, keys[1..], |p|, MergeField(reg[keys[0]], view, keys[0], b[keys[0]]))
    ensures var field := FieldBytes(keys[0], reg[keys[0]], b[keys[0]]);
            ParseAll(reg, field + p, view) == CutSet(reg, b, keys, |field + p|, view)
  {
    ParseSerializedField(reg, keys[0], b[keys[0]], p, view);
  }

  // Every prefix of every serialized set is decided: whether it parses, and to what.
  lemma {:induction false} PrefixExactly(reg: Registry, b: View, keys: seq<int>, p: seq<byte>, lost: seq<byte>,
                                         view: View)
    requires ValidView(reg, b) && AllIn(keys, b) && Serialize(reg, b, keys) == p + lost
    ensures ParseAll(reg, p, view) == CutSet(reg, b, keys, |p|, view)
    decreases keys
  {
    if keys != [] {
      var n := keys[0];
      var field := FieldBytes(n, reg[n], b[n]);
      FirstField(reg, b, keys);
      CutParts(field, Serialize(reg, b, keys[1..]), p, lost);
      if |p| < |field| {
        CutFieldExactly(reg, n, b[n], p, view);
      } else {
        PrefixExactly(reg, b, keys[1..], p[|field|..], lost, MergeField(reg[n], view, n, b[n]));
        PrefixPastFirst(reg, b, keys, p[|field|..], view);
      }
    }
  }

  const WITNESS_INFO := Info(Int32, true, true, {})

  lemma SmallPacked(a: nat, b: nat)
    requires a < 128 && b < 128
    ensures AllAllowed(WITNESS_INFO, [Num(a), Num(b)]) && EncodeAll(WITNESS_INFO, [Num(a), Num(b)]) == [a, b]
    ensures AllAllowed(WITNESS_INFO, [Num(a)]) && EncodeAll(WITNESS_INFO, [Num(a)]) == [a]
  {
    var vs := [Num(a), Num(b)];
    assert vs[1..] == [Num(b)] && [Num(b)][1..] == [] && [Num(a)][1..] == [];
    assert EncodeAll(WITNESS_INFO, [Num(b)]) == [b] + [];
    assert EncodeAll(WITNESS_INFO, [Num(a)]) == [a] + [];
  }

  lemma AppendToNothing(n: int, vs: seq<Value>)
    requires vs != []
    ensures Append(map[], n, vs) == map[n := vs]
  {
    assert [] + vs == vs;
  }

  // Field 1 holds 5 and 6 as packed int32; without its last byte it still parses, as 5.
  lemma TruncationGoesUnnoticed()
    ensures AllAllowed(WITNESS_INFO, [Num(5), Num(6)])
    ensures FieldBytes(1, WITNESS_INFO, [Num(5), Num(6)]) == [10, 2, 5, 6]
    ensures ParseAll(map[1 := WITNESS_INFO], [10, 2, 5], map[]) == Some(map[1 := [Num(5)]])
  {
    SmallPacked(5, 6);
    var tag, size := Varint(MakeTag(1, WireLengthDelimited)), Varint(2);
    assert tag == [10] && size == [2];
    assert tag + size + [5, 6] == [10, 2, 5, 6] && tag + (size + [5]) == [10, 2, 5];
    assert ReadPacked(WITNESS_INFO, [5]) == Some([Num(5)]) by { PackedRoundTrip(WITNESS_INFO, [Num(5)]); }
    TruncatedPackedExactly(map[1 := WITNESS_INFO], 1, [5], 2, map[]);
    AppendToNothing(1, [Num(5)]);
  }

  // ---- The set itself ----

  // An entry of the set: a cleared singular extension keeps its entry, and packed ones cache
  // the size of their payload.
  datatype Extension = Extension(fieldType: FieldType, repeated: bool, packed: bool, cleared: bool, cachedSize: nat,
                                 values: seq<Value>)

  predicate Visible(e: Extension) { if e.repeated then e.values != [] else !e.cleared }

  function ViewOf(m: map<int, Extension>): View {
    map n | n in m && Visible(m[n]) :: m[n].values
  }

  ghost predicate Matches(n: int, info: Info, e: Extension) {
    && ValidInfo(n, info) && e.fieldType == info.fieldType && e.repeated == info.repeated && e.packed == info.packed
    && AllAllowed(info, e.values) && (!e.repeated ==> |e.values| == 1)
  }

  ghost predicate Consistent(reg: Registry, m: map<int, Extension>) {
    forall n :: n in m ==> n in reg && Matches(n, reg[n], m[n])
  }

  lemma ViewOfUpdate(m: map<int, Extension>, n: int, e: Extension)
    ensures ViewOf(m[n := e]) == if Visible(e) then ViewOf(m)[n := e.values] else ViewOf(m) - {n}
  {}

  lemma ViewAfterAdd(m: map<int, Extension>, n: int, vs: seq<Value>, e: Extension)
    requires e.repeated && e.values == (if n in m then m[n].values else []) + vs && (n in m ==> m[n].repeated)
    ensures ViewOf(m[n := e]) == Append(ViewOf(m), n, vs)
  {
    ViewOfUpdate(m, n, e);
    assert Get(ViewOf(m), n) == if n in m then m[n].values else [];
    if vs == [] {
      assert n in m ==> e.values == m[n].values;
    }
  }

  function Restrict(view: View, keys: set<int>): View {
    map n | n in view && n in keys :: view[n]
  }

  lemma MergeStep(reg: Registry, a: View, b: View, done: set<int>, n: int)
    requires (forall k :: k in b ==> k in reg) && n !in done && (n in b ==> b[n] != [])
    ensures Merge(reg, a, Restrict(b, done + {n})) ==
            if n in b then MergeField(reg[n], Merge(reg, a, Restrict(b, done)), n, b[n])
            else Merge(reg, a, Restrict(b, done))
  {
    var m, m' := Merge(reg, a, Restrict(b, done)), Merge(reg, a, Restrict(b, done + {n}));
    if n in b {
      assert n in m <==> n in a;
      assert n in a ==> m[n] == a[n];
      var r := MergeField(reg[n], m, n, b[n]);
      assert m'[n] == r[n];
      assert m'.Keys == r.Keys;
      assert m' == r;
    } else {
      assert Restrict(b, done + {n}) == Restrict(b, done);
    }
  }

  // map iteration order.
  ghost predicate Ascending(keys: seq<int>) {
    forall i, j :: 0 <= i < j < |keys| ==> keys[i] < keys[j]
  }

  lemma AscendingCons(n: int, keys: seq<int>)
    requires Ascending(keys) && forall k :: k in keys ==> n < k
    ensures Ascending([n] + keys)
  {
    forall i | 0 <= i < |keys| ensures n < keys[i] {
      assert keys[i] in keys;
    }
  }

  // There is only one ascending list of a set.
  lemma {:induction false} AscendingIsUnique(a: seq<int>, b: seq<int>)
    requires Ascending(a) && Ascending(b) && forall n :: n in a <==> n in b
    ensures a == b
    decreases |a|
  {
    if b != [] { assert b[0] in b && b[0] in a; }
    if a != [] {
      var x := a[|a| - 1];
      assert x in a && x in b;
      var y := b[|b| - 1];
      assert y in b && y in a;
      LastIsGreatest(a);
      LastIsGreatest(b);
      assert x == y;
      var a', b' := a[..|a| - 1], b[..|b| - 1];
      forall n ensures n in a' <==> n in b' {
        assert n in a' <==> n in a && n != x;
        assert n in b' <==> n in b && n != x;
      }
      AscendingIsUnique(a', b');
      assert a == a' + [x] && b == b' + [y];
    }
  }

  lemma LastIsGreatest(a: seq<int>)
    requires Ascending(a)
    ensures a != [] ==> forall n :: n in a[..|a| - 1] <==> n in a && n != a[|a| - 1]
    ensures a != [] ==> forall n :: n in a ==> n <= a[|a| - 1]
  {}

  // The extensions of a view numbered from start up to end, in ascending order.
  ghost predicate ListsRange(keys: seq<int>, view: View, start: int, end: int) {
    AllIn(keys, view) && Ascending(keys) && forall n :: n in keys <==> n in view && start <= n < end
  }

  function InsertKey(keys: seq<int>, n: int): (r: seq<int>)
    requires Ascending(keys)
    ensures Ascending(r) && forall k :: k in r <==> k in keys || k == n
  {
    if keys == [] then [n]
    else if n < keys[0] then [n] + keys
    else if n == keys[0] then keys
    else
      var r := InsertKey(keys[1..], n);
      assert forall i :: 0 <= i < |keys[1..]| ==> keys[0] < keys[1..][i];
      assert forall k :: k in r ==> keys[0] < k;
      AscendingCons(keys[0], r);
      [keys[0]] + r
  }

  method Pick<T>(s: set<T>) returns (x: T)
    requires s != {}
    ensures x in s
  {
    x :| x in s;
  }

  method AscendingKeys(s: set<int>) returns (keys: seq<int>)
    ensures Ascending(keys) && forall n :: n in keys <==> n in s
  {
    keys := [];
    var rest := s;
    while rest != {}
      invariant rest <= s && Ascending(keys) && forall n :: n in keys <==> n in s && n !in rest
      decreases rest
    {
      var n := Pick(rest);
      keys := InsertKey(keys, n);
      rest := rest - {n};
    }
  }

  class ExtensionSet {
    const reg: Registry
    var extensions: map<int, Extension>

    ghost predicate Valid()
      reads this
    {
      ValidRegistry(reg) && Consistent(reg, extensions)
    }

    function View(): View
      reads this
    {
      ViewOf(extensions)
    }

    constructor (reg: Registry)
      requires ValidRegistry(reg)
      ensures Valid() && this.reg == reg && View() == map[]
    {
      this.reg, extensions := reg, map[];
    }

    // SetInt32 and its kin, SetEnum, and writing through MutableString.
    method Set(n: int, v: Value)
      requires Valid() && n in reg && !reg[n].repeated && Allowed(reg[n], v)
      modifies this
      ensures Valid() && View() == old(View())[n := [v]]
    {
      var e := if n in extensions then extensions[n].(cleared := false, values := [v])
               else Extension(reg[n].fieldType, false, false, false, 0, [v]);
      ViewOfUpdate(extensions, n, e);
      extensions := extensions[n := e];
    }

    // AddInt32 and its kin, AddEnum and AddString, for a run of values.
    method Add(n: int, vs: seq<Value>)
      requires Valid() && n in reg && reg[n].repeated && AllAllowed(reg[n], vs)
      modifies this
      ensures Valid() && View() == Append(old(View()), n, vs)
    {
      var e := if n in extensions then extensions[n].(values := extensions[n].values + vs)
               else Extension(reg[n].fieldType, true, reg[n].packed, false, 0, vs);
      ViewAfterAdd(extensions, n, vs, e);
      extensions := extensions[n := e];
    }

    method ClearExtension(n: int)
      requires Valid()
      modifies this
      ensures Valid() && View() == old(View()) - {n}
    {
      if n in extensions {
        var e := extensions[n];
        e := if e.repeated then e.(values := []) else e.(cleared := true);
        ViewOfUpdate(extensions, n, e);
        extensions := extensions[n := e];
      }
    }

    method MergeOne(n: int, e: Extension)
      requires Valid() && n in reg && Matches(n, reg[n], e)
      modifies this
      ensures Valid() && View() == if Visible(e) then MergeField(reg[n], old(View()), n, e.values) else old(View())
    {
      if e.repeated {
        Add(n, e.values);
      } else if !e.cleared {
        assert e.values == [e.values[0]];
        Set(n, e.values[0]);
      }
    }

    // Merges entry by entry; to a reader the result is exactly Merge.
    method MergeFrom(other: ExtensionSet)
      requires Valid() && other.Valid() && other != this && other.reg == reg
      modifies this
      ensures Valid() && View() == Merge(reg, old(View()), other.View())
    {
      ghost var a, b := View(), other.View();
      var keys := AscendingKeys(other.extensions.Keys);
      ghost var done: set<int> := {};
      assert Merge(reg, a, Restrict(b, done)) == a;
      for i := 0 to |keys|
        invariant Valid() && View() == Merge(reg, a, Restrict(b, done))
        invariant done == set k | 0 <= k < i :: keys[k]
      {
        var n := keys[i];
        var e := other.extensions[n];
        MergeStep(reg, a, b, done, n);
        MergeOne(n, e);
        done := done + {n};
      }
      assert forall n :: n in b ==> n in done;
      assert Restrict(b, done) == b;
    }

    // Parses one field the registry knows, in its declared form; on failure the values read
    // before the fault may have been added.
    method ParseFieldWithExtensionInfo(n: int, info: Info, input: seq<byte>) returns (ok: bool, rest: seq<byte>)
      requires Valid() && n in reg && info == reg[n]
      modifies this
      ensures Valid()
      ensures match ParseKnown(n, info, input, old(View()))
              case Malformed => !ok
              case Parsed(view, after) => ok && View() == view && rest == after
    {
      if info.packed {
        match ReadPayload(input) {
          case Malformed => return false, input;
          case Parsed(payload, after) =>
            ok := ParsePackedValues(n, info, payload);
            return ok, after;
        }
      }
      match Read(info.fieldType, input) {
        case Malformed => return false, input;
        case Parsed(v, after) =>
          ReadIsInRange(info.fieldType, input);
          if !Known(info, v) {
          } else if info.repeated {
            Add(n, [v]);
          } else {
            Set(n, v);
          }
          return true, after;
      }
    }

    // The loop over a packed payload.
    method ParsePackedValues(n: int, info: Info, payload: seq<byte>) returns (ok: bool)
      requires Valid() && n in reg && info == reg[n] && info.packed
      modifies this
      ensures Valid() && (ok <==> ReadPacked(info, payload).Some?)
      ensures ok ==> View() == Append(old(View()), n, ReadPacked(info, payload).value)
    {
      var rest := payload;
      ghost var added: seq<Value> := [];
      PrependNothing(ReadPacked(info, payload));
      while rest != []
        invariant Valid() && View() == Append(old(View()), n, added)
        invariant ReadPacked(info, payload) == Prepend(added, ReadPacked(info, rest))
        decreases |rest|
      {
        PackedStep(info, rest, added);
        var r := Read(info.fieldType, rest);
        if r.Malformed? {
          return false;
        }
        ReadIsInRange(info.fieldType, rest);
        if Known(info, r.value) {
          AppendMore(old(View()), n, added, r.value);
          Add(n, [r.value]);
          added := added + [r.value];
        }
        rest := r.rest;
      }
      assert added + [] == added;
      return true;
    }

    method ParseTaggedField(tag: nat, input: seq<byte>) returns (ok: bool, rest: seq<byte>)
      requires Valid()
      modifies this
      ensures Valid()
      ensures match ParseField(reg, tag, input, old(View()))
              case Malformed => !ok
              case Parsed(view, after) => ok && View() == view && rest == after
    {
      match FindExtensionInfoFromTag(reg, tag) {
        case None =>
          var skipped := SkipField(tag, input, 0);
          return skipped.Parsed?, if skipped.Parsed? then skipped.rest else input;
        case Some(info) =>
          ok, rest := ParseFieldWithExtensionInfo(tag / 8, info, input);
      }
    }

    // The message loop: parses tags until the input ends. When it succeeds, what the set then
    // shows is what ParseAll says.
    method MergePartialFromCodedStream(input: seq<byte>) returns (ok: bool)
      requires Valid()
      modifies this
      ensures Valid() && (ok <==> ParseAll(reg, input, old(View())).Some?)
      ensures ok ==> ParseAll(reg, input, old(View())) == Some(View())
    {
      var rest := input;
      while rest != []
        invariant Valid() && ParseAll(reg, input, old(View())) == ParseAll(reg, rest, View())
        decreases |rest|
      {
        match ReadVarint(rest, MAX_VARINT_BYTES) {
          case Malformed => return false;
          case Parsed(u, after) =>
            var tag := u % TWO32;
            if tag == 0 {
              return false;
            }
            ok, rest := ParseTaggedField(tag, after);
            if !ok {
              return false;
            }
        }
      }
      return true;
    }

    ghost predicate CachedSizes()
      reads this
    {
      forall n :: n in extensions && n in reg ==> Cached(reg[n], extensions[n])
    }

    ghost predicate CachedUpTo(keys: seq<int>, i: int)
      reads this
    {
      forall k :: 0 <= k < i && k < |keys| && keys[k] in extensions && keys[k] in reg ==>
        Cached(reg[keys[k]], extensions[keys[k]])
    }

    // The size of the serialized set; caches the payload sizes for the writer.
    method ByteSize() returns (total: nat, ghost keys: seq<int>)
      requires Valid() && ValidView(reg, View())
      modifies this
      ensures Valid() && View() == old(View()) && CachedSizes()
      ensures Lists(keys, View()) && Ascending(keys) && total == |Serialize(reg, View(), keys)|
    {
      total, keys := 0, [];
      ghost var view := View();
      var all := AscendingKeys(extensions.Keys);
      for i := 0 to |all|
        invariant Valid() && View() == view && extensions.Keys == old(extensions.Keys)
        invariant Shown(keys, all, i, view) && total == |Serialize(reg, view, keys)|
        invariant CachedUpTo(all, i)
      {
        var n := all[i];
        assert n in all;
        var size := SizeNext(all, i);
        SizeStep(reg, keys, all, i, view);
        total := total + size;
        if n in view {
          keys := keys + [n];
        }
      }
      assert all[..|all|] == all;
    }

    // One pass of its loop.
    method SizeNext(all: seq<int>, i: nat) returns (size: nat)
      requires Valid() && ValidView(reg, View()) && Ascending(all) && i < |all| && all[i] in extensions
      requires CachedUpTo(all, i)
      modifies this
      ensures Valid() && View() == old(View()) && extensions.Keys == old(extensions.Keys) && CachedUpTo(all, i + 1)
      ensures size == if all[i] in View() then |FieldBytes(all[i], reg[all[i]], View()[all[i]])| else 0
    {
      size := SizeAndCache(all[i]);
      forall k | 0 <= k < i && all[k] in extensions && all[k] in reg ensures Cached(reg[all[k]], extensions[all[k]]) {
        assert all[k] < all[i];
      }
    }

    // One entry of the set.
    method SizeAndCache(n: int) returns (size: nat)
      requires Valid() && ValidView(reg, View()) && n in extensions
      modifies this
      ensures Valid() && View() == old(View()) && extensions.Keys == old(extensions.Keys)
      ensures size == if n in View() then |FieldBytes(n, reg[n], View()[n])| else 0
      ensures Cached(reg[n], extensions[n])
      ensures forall k :: k in extensions && k != n ==> extensions[k] == old(extensions[k])
    {
      var e := extensions[n];
      if e.packed && e.values == [] { assert EncodeAll(reg[n], e.values) == []; }
      var cached;
      size, cached := ExtensionByteSize(n, reg[n], e);
      if e.packed {
        ViewOfUpdate(extensions, n, e.(cachedSize := cached));
        extensions := extensions[n := e.(cachedSize := cached)];
      }
    }

    // map::lower_bound(start) onwards, up to end.
    method KeysInRange(start: int, end: int) returns (keys: seq<int>)
      ensures Ascending(keys) && forall n :: n in keys <==> n in extensions && start <= n < end
    {
      var all := AscendingKeys(extensions.Keys);
      keys := [];
      for i := 0 to |all|
        invariant Ascending(keys) && forall n :: n in keys <==> n in all[..i] && start <= n < end
      {
        assert all[..i + 1] == all[..i] + [all[i]];
        if start <= all[i] < end {
          AscendingSnoc(all, i, keys);
          keys := keys + [all[i]];
        }
      }
      assert all[..|all|] == all;
    }

    // Writes the extensions numbered from start up to end, in ascending order, using the
    // cached sizes.
    method SerializeWithCachedSizes(start: int, end: int) returns (output: seq<byte>, ghost keys: seq<int>)
      requires Valid() && ValidView(reg, View()) && CachedSizes()
      ensures ListsRange(keys, View(), start, end) && output == Serialize(reg, View(), keys)
      ensures forall n :: n in keys <==> n in View() && start <= n < end
      ensures forall i, j :: 0 <= i < j < |keys| ==> keys[i] < keys[j]
      ensures forall ks :: ListsRange(ks, View(), start, end) ==> output == Serialize(reg, View(), ks)
    {
      output, keys := [], [];
      ghost var view := View();
      var all := KeysInRange(start, end);
      for i := 0 to |all|
        invariant Shown(keys, all, i, view) && output == Serialize(reg, view, keys)
      {
        var n := all[i];
        assert n in all;
        var bytes := SerializeFieldWithCachedSizes(n, reg[n], extensions[n]);
        output := output + bytes;
        ShownStep(keys, all, i, view);
        if n in view {
          SerializeSnoc(reg, view, keys, n);
          keys := keys + [n];
        }
      }
      assert all[..|all|] == all;
      forall ks | ListsRange(ks, view, start, end) ensures ks == keys {
        AscendingIsUnique(ks, keys);
      }
    }
  }

  // A packed extension caches the length of its payload.
  ghost predicate Cached(info: Info, e: Extension) {
    e.packed && AllAllowed(info, e.values) ==> e.cachedSize == |EncodeAll(info, e.values)|
  }

  // The members of the view among the first i keys, in order.
  ghost predicate Shown(keys: seq<int>, all: seq<int>, i: nat, view: View)
    requires i <= |all|
  {
    AllIn(keys, view) && Ascending(keys) && forall n :: n in keys <==> n in all[..i] && n in view
  }

  lemma ShownStep(keys: seq<int>, all: seq<int>, i: nat, view: View)
    requires Ascending(all) && i < |all| && Shown(keys, all, i, view)
    ensures Shown(if all[i] in view then keys + [all[i]] else keys, all, i + 1, view)
  {
    assert all[..i + 1] == all[..i] + [all[i]];
    if all[i] in view { AscendingSnoc(all, i, keys); }
  }

  // The next entry adds the length of its field, if it is one of the view.
  lemma SizeStep(reg: Registry, keys: seq<int>, all: seq<int>, i: nat, view: View)
    requires ValidView(reg, view) && Ascending(all) && i < |all| && Shown(keys, all, i, view)
    ensures var n := all[i];
            var keys' := if n in view then keys + [n] else keys;
            Shown(keys', all, i + 1, view) &&
            |Serialize(reg, view, keys')| ==
            |Serialize(reg, view, keys)| + if n in view then |FieldBytes(n, reg[n], view[n])| else 0
  {
    ShownStep(keys, all, i, view);
    if all[i] in view { SerializeSnoc(reg, view, keys, all[i]); }
  }

  lemma AscendingSnoc(all: seq<int>, i: nat, keys: seq<int>)
    requires Ascending(all) && i < |all| && Ascending(keys) && forall n :: n in keys ==> n in all[..i]
    ensures Ascending(keys + [all[i]])
  {
    forall k | 0 <= k < |keys| ensures keys[k] < all[i] {
      assert keys[k] in keys;
      assert keys[k] in all[..i];
    }
  }

  function Prepend(added: seq<Value>, later: Option<seq<Value>>): Option<seq<Value>> {
    match later case None => None case Some(vs) => Some(added + vs)
  }

  lemma PrependNothing(later: Option<seq<Value>>)
    ensures Prepend([], later) == later
  {
    if later.Some? { assert [] + later.value == later.value; }
  }

  // Reading one value off a packed payload.
  lemma {:induction false} PackedStep(info: Info, s: seq<byte>, added: seq<Value>)
    requires s != []
    ensures Prepend(added, ReadPacked(info, s)) ==
            match Read(info.fieldType, s)
            case Malformed => None
            case Parsed(v, rest) => Prepend(if Known(info, v) then added + [v] else added, ReadPacked(info, rest))
    ensures Prepend(added, Some([])) == Some(added)
  {
    assert added + [] == added;
    match Read(info.fieldType, s) {
      case Malformed =>
      case Parsed(v, rest) =>
        var later := ReadPacked(info, rest);
        if later.Some? { assert added + ([v] + later.value) == added + [v] + later.value; }
    }
  }

  lemma AppendMore(view: View, n: int, added: seq<Value>, v: Value)
    ensures Append(Append(view, n, added), n, [v]) == Append(view, n, added + [v])
  {
    var g := Get(view, n);
    assert g + added + [v] == g + (added + [v]);
    assert added == [] ==> added + [v] == [v];
  }

  lemma {:induction false} SerializeSnoc(reg: Registry, view: View, keys: seq<int>, n: int)
    requires ValidView(reg, view) && AllIn(keys, view) && n in view
    ensures Serialize(reg, view, keys + [n]) == Serialize(reg, view, keys) + FieldBytes(n, reg[n], view[n])
    decreases keys
  {
    var field := FieldBytes(n, reg[n], view[n]);
    if keys == [] {
      assert keys + [n] == [n] && [n][1..] == [];
    } else {
      var more, k := keys + [n], keys[0];
      assert more[0] == k && more[1..] == keys[1..] + [n];
      SerializeSnoc(reg, view, keys[1..], n);
      var first, later := FieldBytes(k, reg[k], view[k]), Serialize(reg, view, keys[1..]);
      assert first + (later + field) == first + later + field;
    }
  }

  // ---- Sizes and bytes of one extension ----

  // The types whose values all take the same room.
  function FixedSize(t: FieldType): Option<nat> {
    match t
    case Double | Fixed64 | SFixed64 => Some(8)
    case Float | Fixed32 | SFixed32 => Some(4)
    case Bool => Some(1)
    case _ => None
  }

  lemma {:induction false} FixedPayload(info: Info, vs: seq<Value>)
    requires AllAllowed(info, vs) && FixedSize(info.fieldType).Some?
    ensures |EncodeAll(info, vs)| == FixedSize(info.fieldType).value * |vs|
    decreases vs
  {
    if vs != [] {
      FixedPayload(info, vs[1..]);
      SizeIsLength(info.fieldType, vs[0]);
    }
  }

  lemma {:induction false} TaggedSize(n: nat, info: Info, vs: seq<Value>)
    requires ValidInfo(n, info) && AllAllowed(info, vs)
    ensures |TaggedAll(n, info, vs)| ==
            VarintSize32(MakeTag(n, WireTypeFor(info.fieldType))) * |vs| + |EncodeAll(info, vs)|
    decreases vs
  {
    TagRoundTrip(n, WireTypeFor(info.fieldType), []);
    if vs != [] { TaggedSize(n, info, vs[1..]); }
  }

  // The size of the values alone: a product for types of fixed size, a sum otherwise.
  method PayloadSize(info: Info, vs: seq<Value>) returns (size: nat)
    requires AllAllowed(info, vs)
    ensures size == |EncodeAll(info, vs)|
  {
    match FixedSize(info.fieldType) {
      case Some(k) =>
        FixedPayload(info, vs);
        size := k * |vs|;
      case None =>
        size := 0;
        assert vs[0..] == vs;
        for i := 0 to |vs|
          invariant size + |EncodeAll(info, vs[i..])| == |EncodeAll(info, vs)|
        {
          assert vs[i..][1..] == vs[i + 1..];
          SizeIsLength(info.fieldType, vs[i]);
          size := size + SizeOf(info.fieldType, vs[i]);
        }
    }
  }

  // Extension::ByteSize: exactly what the writer will produce, and the payload size it needs.
  method ExtensionByteSize(n: int, info: Info, e: Extension) returns (size: nat, cached: nat)
    requires Matches(n, info, e) && (e.packed ==> |EncodeAll(info, e.values)| <= INT32_MAX)
    ensures size == if Visible(e) then |FieldBytes(n, info, e.values)| else 0
    ensures e.packed ==> cached == |EncodeAll(info, e.values)|
  {
    cached := e.cachedSize;
    size := 0;
    if e.repeated {
      size := PayloadSize(info, e.values);
      if e.packed {
        cached := size;
        PackedRoundTrip(info, e.values);
        if size > 0 {
          VarintSizeIsLength(size);
          TagRoundTrip(n, WireLengthDelimited, []);
          size := size + VarintSize32(size);
          size := size + VarintSize32(MakeTag(n, WireLengthDelimited));
        }
      } else {
        TaggedSize(n, info, e.values);
        size := VarintSize32(MakeTag(n, WireTypeFor(info.fieldType))) * |e.values| + size;
      }
    } else if !e.cleared {
      var v := e.values[0];
      TaggedSize(n, info, e.values);
      SizeIsLength(info.fieldType, v);
      assert e.values[1..] == [];
      size := VarintSize32(MakeTag(n, WireTypeFor(info.fieldType))) + SizeOf(info.fieldType, v);
    }
  }

  method WriteValues(info: Info, vs: seq<Value>) returns (output: seq<byte>)
    requires AllAllowed(info, vs)
    ensures output == EncodeAll(info, vs)
  {
    output := [];
    assert vs[0..] == vs;
    for i := 0 to |vs|
      invariant output + EncodeAll(info, vs[i..]) == EncodeAll(info, vs)
    {
      var one := Encode(info.fieldType, vs[i]);
      assert vs[i..][1..] == vs[i + 1..];
      AppendIsAssociative(output, one, EncodeAll(info, vs[i + 1..]));
      output := output + one;
    }
  }

  method WriteTagged(n: nat, info: Info, vs: seq<Value>) returns (output: seq<byte>)
    requires AllAllowed(info, vs)
    ensures output == TaggedAll(n, info, vs)
  {
    output := [];
    assert vs[0..] == vs;
    for i := 0 to |vs|
      invariant output + TaggedAll(n, info, vs[i..]) == TaggedAll(n, info, vs)
    {
      var one := TaggedOne(n, info, vs[i]);
      assert vs[i..][1..] == vs[i + 1..];
      AppendIsAssociative(output, one, TaggedAll(n, info, vs[i + 1..]));
      output := output + one;
    }
  }

  // Extension::SerializeFieldWithCachedSizes: writes what a reader can see of the extension,
  // taking the length of a packed payload from the cache.
  method SerializeFieldWithCachedSizes(n: int, info: Info, e: Extension) returns (output: seq<byte>)
    requires Matches(n, info, e) && (e.packed ==> e.cachedSize == |EncodeAll(info, e.values)|)
    ensures output == if Visible(e) then FieldBytes(n, info, e.values) else []
  {
    output := [];
    if e.repeated {
      if e.packed {
        PackedRoundTrip(info, e.values);
        if e.cachedSize == 0 {
          return;
        }
        var payload := WriteValues(info, e.values);
        output := Varint(MakeTag(n, WireLengthDelimited)) + Varint(e.cachedSize) + payload;
      } else {
        output := WriteTagged(n, info, e.values);
      }
    } else if !e.cleared {
      output := WriteTagged(n, info, e.values);
    }
  }

  // ---- The whole pipeline ----

  // Sizes a set and writes all of it.
  method SerializeWhole(a: ExtensionSet) returns (output: seq<byte>, ghost keys: seq<int>)
    requires a.Valid() && ValidView(a.reg, a.View())
    modifies a
    ensures a.Valid() && a.View() == old(a.View()) && Lists(keys, a.View()) &&
            output == Serialize(a.reg, a.View(), keys)
  {
    var total, _ := a.ByteSize();
    output, keys := a.SerializeWithCachedSizes(1, MAX_FIELD_NUMBER + 1);
  }

  // Parsing one set's bytes followed by another's shows exactly what MergeFrom makes the
  // first one show.
  method ConcatenateAndParse(a: ExtensionSet, b: ExtensionSet) returns (c: ExtensionSet, ok: bool)
    requires a.Valid() && b.Valid() && a != b && a.reg == b.reg
    requires ValidView(a.reg, a.View()) && ValidView(b.reg, b.View())
    modifies a, b
    ensures ok && c.Valid() && fresh(c) && c.View() == a.View() == Merge(a.reg, old(a.View()), old(b.View()))
  {
    ghost var va, vb := a.View(), b.View();
    ghost var aKeys, bKeys;
    var first, second;
    first, aKeys := SerializeWhole(a);
    second, bKeys := SerializeWhole(b);
    ConcatenationIsMerge(a.reg, va, aKeys, vb, bKeys);
    c := new ExtensionSet(a.reg);
    ok := c.MergePartialFromCodedStream(first + second);
    a.MergeFrom(b);
  }
}
