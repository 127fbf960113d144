// DynamicMessageFactory: laying out a message type in memory, and building one prototype
// per type over a possibly cyclic graph of types.
module DynamicMessage {
  import opened Common
  import opened Graph

  const SAFE_ALIGNMENT := 8
  const BITS_PER_WORD := 32
  const BYTES_PER_WORD := 4

  function DivideRoundingUp(i: nat, j: nat): nat
    requires j > 0
  {
    (i + (j - 1)) / j
  }

  // The least multiple of the alignment that is not below the offset.
  function AlignTo(offset: nat, alignment: nat): (r: nat)
    requires alignment > 0
    ensures offset <= r < offset + alignment && r % alignment == 0
  {
    var q := DivideRoundingUp(offset, alignment);
    DivisionFacts(offset + (alignment - 1), alignment);
    q * alignment
  }

  lemma DivisionFacts(x: nat, d: nat)
    requires d > 0
    ensures x / d * d <= x < x / d * d + d && (x / d * d) % d == 0
  {
    assert x == x / d * d + x % d;
    MultipleIsDivisible(x / d, d);
  }

  lemma MultipleIsDivisible(q: nat, d: nat)
    requires d > 0
    ensures (q * d) % d == 0
  {
    var x := q * d;
    var k, r := x / d, x % d;
    assert x == k * d + r;
    ZeroRemainder(q - k, d, r);
  }

  lemma ZeroRemainder(n: int, d: nat, r: int)
    requires d > 0 && 0 <= r < d && n * d == r
    ensures r == 0
  {}

  function AlignOffset(offset: nat): nat { AlignTo(offset, SAFE_ALIGNMENT) }

  function Min(a: int, b: int): int { if a <= b then a else b }

  // ---- Layout ----

  // The sizes the compiler fixes: of the object itself, an ExtensionSet and an
  // UnknownFieldSet.
  datatype Sizes = Sizes(self: nat, extensionSet: nat, unknownFieldSet: nat)

  datatype Layout = Layout(size: nat, hasBits: nat, hasBitsWords: nat, extensions: Option<nat>, offsets: seq<nat>,
                           unknownFields: nat)

  datatype Region = Region(lo: nat, len: nat)

  function FirstField(l: Layout): nat { if l.extensions.Some? then 3 else 2 }

  // Everything that lives in the block, in memory order: the object, the has-bits, the
  // extension set if any, the fields and the unknown fields.
  function Regions(l: Layout, fields: seq<nat>, sizes: Sizes): seq<Region>
    requires |l.offsets| == |fields|
  {
    var f := FirstField(l);
    seq(f + |fields| + 1, i requires 0 <= i < f + |fields| + 1 =>
      if i == 0 then Region(0, sizes.self)
      else if i == 1 then Region(l.hasBits, l.hasBitsWords * BYTES_PER_WORD)
      else if i < f then Region(l.extensions.value, sizes.extensionSet)
      else if i < f + |fields| then Region(l.offsets[i - f], fields[i - f])
      else Region(l.unknownFields, sizes.unknownFieldSet))
  }

  // Each region ends before the next begins, and the last within the block.
  ghost predicate Stacked(rs: seq<Region>, size: nat) {
    && (forall i :: 0 <= i < |rs| - 1 ==> rs[i].lo + rs[i].len <= rs[i + 1].lo)
    && (rs != [] ==> rs[|rs| - 1].lo + rs[|rs| - 1].len <= size)
  }

  ghost predicate Apart(a: Region, b: Region) {
    a.lo + a.len <= b.lo || b.lo + b.len <= a.lo
  }

  lemma {:induction false} StackedIsOrdered(rs: seq<Region>, size: nat, i: nat, j: nat)
    requires Stacked(rs, size) && i < j < |rs|
    ensures rs[i].lo + rs[i].len <= rs[j].lo
    decreases j
  {
    if i < j - 1 { StackedIsOrdered(rs, size, i, j - 1); }
  }

  lemma StackedIsDisjoint(rs: seq<Region>, size: nat)
    requires Stacked(rs, size)
    ensures forall i, j :: 0 <= i < |rs| && 0 <= j < |rs| && i != j ==> Apart(rs[i], rs[j])
    ensures forall i :: 0 <= i < |rs| ==> rs[i].lo + rs[i].len <= size
  {
    forall i, j | 0 <= i < j < |rs| ensures rs[i].lo + rs[i].len <= rs[j].lo {
      StackedIsOrdered(rs, size, i, j);
    }
  }

  // Where the fields begin.
  function FieldsStart(l: Layout, sizes: Sizes): nat {
    if l.extensions.Some? then l.extensions.value + sizes.extensionSet else l.hasBits + l.hasBitsWords * BYTES_PER_WORD
  }

  // Where the part before field i ends; i may be one past the last field.
  function EndBefore(offsets: seq<nat>, fields: seq<nat>, start: nat, i: nat): nat
    requires i <= |offsets| == |fields|
  {
    if i == 0 then start else offsets[i - 1] + fields[i - 1]
  }

  ghost predicate InOrder(offsets: seq<nat>, fields: seq<nat>, start: nat)
    requires |offsets| == |fields|
  {
    forall i {:trigger EndBefore(offsets, fields, start, i)} :: 0 <= i < |fields| ==>
      EndBefore(offsets, fields, start, i) <= offsets[i]
  }

  // Each field is aligned to its size, up to 8, with no more padding than that takes.
  ghost predicate Aligned(offsets: seq<nat>, fields: seq<nat>, start: nat)
    requires |offsets| == |fields|
  {
    forall i {:trigger EndBefore(offsets, fields, start, i)} :: 0 <= i < |fields| ==>
      Suits(offsets[i], fields[i], EndBefore(offsets, fields, start, i))
  }

  predicate Suits(offset: nat, size: nat, end: nat) {
    size > 0 && offset % Min(8, size) == 0 && offset < end + Min(8, size)
  }

  // The parts follow one another.
  ghost predicate Ordered(l: Layout, fields: seq<nat>, sizes: Sizes, start: nat) {
    && |l.offsets| == |fields|
    && sizes.self <= l.hasBits
    && (l.extensions.Some? ==> l.hasBits + l.hasBitsWords * BYTES_PER_WORD <= l.extensions.value)
    && FieldsStart(l, sizes) <= start && InOrder(l.offsets, fields, start)
    && EndBefore(l.offsets, fields, start, |fields|) <= l.unknownFields
    && l.unknownFields + sizes.unknownFieldSet <= l.size
  }

  // The parts of a message never overlap and all lie inside the block.
  lemma LayoutIsDisjoint(l: Layout, fields: seq<nat>, sizes: Sizes, start: nat)
    requires Ordered(l, fields, sizes, start)
    ensures var rs := Regions(l, fields, sizes);
            (forall i, j :: 0 <= i < |rs| && 0 <= j < |rs| && i != j ==> Apart(rs[i], rs[j])) &&
            (forall i :: 0 <= i < |rs| ==> rs[i].lo + rs[i].len <= l.size)
  {
    var rs, f := Regions(l, fields, sizes), FirstField(l);
    forall i | 0 <= i < |rs| - 1 ensures rs[i].lo + rs[i].len <= rs[i + 1].lo {
      if i + 1 >= f {
        assert rs[i].lo + rs[i].len <= EndBefore(l.offsets, fields, start, i + 1 - f);
      }
    }
    StackedIsDisjoint(rs, l.size);
  }

  lemma PlaceOneMore(offsets: seq<nat>, fields: seq<nat>, start: nat, o: nat, f: nat)
    requires |offsets| == |fields| && InOrder(offsets, fields, start) && Aligned(offsets, fields, start)
    requires var end := EndBefore(offsets, fields, start, |fields|); end <= o && Suits(o, f, end)
    ensures InOrder(offsets + [o], fields + [f], start) && Aligned(offsets + [o], fields + [f], start)
    ensures EndBefore(offsets + [o], fields + [f], start, |fields| + 1) == o + f
  {
    var offsets', fields', n := offsets + [o], fields + [f], |fields|;
    forall i {:trigger EndBefore(offsets', fields', start, i)} | 0 <= i <= n
      ensures EndBefore(offsets', fields', start, i) <= offsets'[i]
      ensures Suits(offsets'[i], fields'[i], EndBefore(offsets', fields', start, i))
    {
      assert EndBefore(offsets', fields', start, i) == EndBefore(offsets, fields, start, i);
    }
  }

  // The loop that packs the fields in order.
  method PlaceFields(fields: seq<nat>, start: nat) returns (offsets: seq<nat>, end: nat)
    requires forall i :: 0 <= i < |fields| ==> fields[i] > 0
    ensures |offsets| == |fields| && InOrder(offsets, fields, start) && Aligned(offsets, fields, start)
    ensures end == EndBefore(offsets, fields, start, |fields|)
  {
    end := start;
    offsets := [];
    for i := 0 to |fields|
      invariant |offsets| == i && InOrder(offsets, fields[..i], start) && Aligned(offsets, fields[..i], start)
      invariant end == EndBefore(offsets, fields[..i], start, i)
    {
      var o := AlignTo(end, Min(SAFE_ALIGNMENT, fields[i]));
      PlaceOneMore(offsets, fields[..i], start, o, fields[i]);
      assert fields[..i + 1] == fields[..i] + [fields[i]];
      offsets := offsets + [o];
      end := o + fields[i];
    }
    assert fields[..|fields|] == fields;
  }

  // What a layout promises: the parts in order, every field aligned, one has-bit per field
  // with less than a word to spare, and every part that is not a field on a multiple of 8.
  ghost predicate Proper(l: Layout, fields: seq<nat>, hasExtensions: bool, sizes: Sizes) {
    var start := AlignOffset(FieldsStart(l, sizes));
    && Ordered(l, fields, sizes, start) && Aligned(l.offsets, fields, start)
    && (l.extensions.Some? <==> hasExtensions)
    && |fields| <= l.hasBitsWords * 32 < |fields| + 32
    && l.hasBits % 8 == 0 && l.unknownFields % 8 == 0 && l.size % 8 == 0
    && (hasExtensions ==> l.extensions.value % 8 == 0)
  }

  // The size computation of GetPrototypeNoLock.
  method ComputeLayout(fields: seq<nat>, hasExtensions: bool, sizes: Sizes) returns (l: Layout)
    requires forall i :: 0 <= i < |fields| ==> fields[i] > 0
    ensures Proper(l, fields, hasExtensions, sizes)
  {
    var size := AlignOffset(sizes.self);
    var hasBits := size;
    var words := DivideRoundingUp(|fields|, BITS_PER_WORD);
    size := AlignOffset(size + words * BYTES_PER_WORD);
    var extensions := None;
    if hasExtensions {
      extensions := Some(size);
      size := AlignOffset(size + sizes.extensionSet);
    }
    var offsets, end := PlaceFields(fields, size);
    var unknownFields := AlignOffset(end);
    size := AlignOffset(unknownFields + sizes.unknownFieldSet);
    l := Layout(size, hasBits, words, extensions, offsets, unknownFields);
  }

  // ---- Prototypes ----

  type Type = int

  // A field of a message type: its size, and the message type it holds if it is a message.
  datatype Field = Field(size: nat, repeated: bool, message: Option<Type>)

  datatype Descriptor = Descriptor(fields: seq<Field>, hasExtensions: bool)

  // A prototype is one this factory built, by number, or the generated factory's own.
  datatype Prototype = Built(n: nat) | Generated(t: Type)

  predicate LinkedField(f: Field) { f.message.Some? && !f.repeated }

  class Factory {
    const descriptors: map<Type, Descriptor>
    const sizes: Sizes
    // The types left to the generated factory.
    const generated: set<Type>

    var prototypes: map<Type, nat>
    var layouts: map<Type, Layout>
    // What each singular message field of a prototype points at.
    var links: map<(Type, nat), Prototype>
    // The types built, in order.
    var built: seq<Type>

    constructor (descriptors: map<Type, Descriptor>, sizes: Sizes, generated: set<Type>)
      ensures this.descriptors == descriptors && this.sizes == sizes && this.generated == generated
      ensures prototypes == map[] && built == []
    {
      this.descriptors, this.sizes, this.generated := descriptors, sizes, generated;
      prototypes, layouts, links, built := map[], map[], map[], [];
    }

    // Every message type mentioned has a descriptor, and every field takes up space.
    ghost predicate WellFormed() {
      forall t, f :: t in descriptors && f in descriptors[t].fields ==>
        f.size > 0 && (f.message.Some? ==> f.message.value in descriptors)
    }

    // From a type to the types of its singular message fields that this factory builds.
    ghost function TypeEdges(): Edges<Type> {
      map t | t in descriptors ::
        set u | u in descriptors && u !in generated &&
                exists f :: f in descriptors[t].fields && LinkedField(f) && f.message.value == u
    }

    function PrototypeOf(t: Type): Prototype
      requires t in generated || t in prototypes
      reads this
    {
      if t in generated then Generated(t) else Built(prototypes[t])
    }

    // The field points at the one prototype of its type.
    ghost predicate FieldLinked(t: Type, i: nat)
      requires t in descriptors && i < |descriptors[t].fields|
      reads this
    {
      var f := descriptors[t].fields[i];
      LinkedField(f) ==>
        (f.message.value in generated || f.message.value in prototypes) &&
        (t, i) in links && links[(t, i)] == PrototypeOf(f.message.value)
    }

    ghost predicate Linked(t: Type)
      requires t in descriptors
      reads this
    {
      forall i :: 0 <= i < |descriptors[t].fields| ==> FieldLinked(t, i)
    }

    function FieldSizes(t: Type): seq<nat>
      requires t in descriptors
    {
      var fs := descriptors[t].fields;
      seq(|fs|, i requires 0 <= i < |fs| => fs[i].size)
    }

    ghost predicate LaidOut(t: Type)
      requires t in descriptors
      reads this
    {
      t in layouts && Proper(layouts[t], FieldSizes(t), descriptors[t].hasExtensions, sizes)
    }

    // Prototype numbers and built types correspond one to one, and each has its layout.
    ghost predicate Numbered()
      reads this
    {
      && (forall t :: t in prototypes ==>
          t in descriptors && t !in generated && prototypes[t] < |built| && built[prototypes[t]] == t)
      && (forall n :: 0 <= n < |built| ==> built[n] in prototypes && prototypes[built[n]] == n)
      && (forall t :: t in prototypes ==> LaidOut(t))
      && (forall k :: k in links ==>
            k.0 in prototypes && k.1 < |descriptors[k.0].fields| && LinkedField(descriptors[k.0].fields[k.1]))
    }

    // Every registered type whose cross-linking has finished is linked throughout.
    ghost predicate DoneExcept(open: set<Type>)
      reads this
    {
      Numbered() && forall t :: t in prototypes && t !in open ==> Linked(t)
    }

    ghost predicate Valid()
      reads this
    {
      WellFormed() && DoneExcept({})
    }

    // Nothing recorded is ever changed.
    twostate predicate Grows()
      reads this
    {
      && old(built) <= built && old(prototypes).Keys <= prototypes.Keys
      && (forall t :: t in old(prototypes) ==> t in prototypes && prototypes[t] == old(prototypes)[t])
      && (forall k :: k in old(links) ==> k in links && links[k] == old(links)[k])
    }

    // A new TypeInfo: computes the layout and enters the type before anything else is built.
    method Register(t: Type, ghost open: set<Type>)
      requires WellFormed() && t in descriptors && t !in generated && t !in prototypes && DoneExcept(open)
      modifies this`prototypes, this`layouts, this`built
      ensures DoneExcept(open + {t}) && Grows()
      ensures prototypes.Keys == old(prototypes).Keys + {t}
    {
      var l := ComputeLayout(FieldSizes(t), descriptors[t].hasExtensions, sizes);
      prototypes := prototypes[t := |built|];
      layouts := layouts[t := l];
      built := built + [t];
      assert LaidOut(t);
      forall u | u in prototypes && u != t ensures LaidOut(u) {
        assert old(LaidOut(u));
      }
      forall u | u in prototypes && u !in open + {t} ensures Linked(u) {
        assert old(Linked(u));
        forall i | 0 <= i < |descriptors[u].fields| ensures FieldLinked(u, i) {
          assert old(FieldLinked(u, i));
        }
      }
    }

    // Points one field of the type being cross-linked at the prototype of its type.
    method Link(t: Type, i: nat, p: Prototype, ghost open: set<Type>)
      requires t in open && t in prototypes && t in descriptors && DoneExcept(open) && (t, i) !in links
      requires i < |descriptors[t].fields| && LinkedField(descriptors[t].fields[i]) && LinkedUpTo(t, i)
      requires var u := descriptors[t].fields[i].message.value;
               (u in generated || u in prototypes) && p == PrototypeOf(u)
      modifies this`links
      ensures DoneExcept(open) && links == old(links)[(t, i) := p] && LinkedUpTo(t, i + 1)
    {
      links := links[(t, i) := p];
      forall u | u in prototypes && u !in open ensures Linked(u) {
        assert old(Linked(u));
        forall k | 0 <= k < |descriptors[u].fields| ensures FieldLinked(u, k) {
          assert old(FieldLinked(u, k));
        }
      }
      forall k | 0 <= k < i ensures FieldLinked(t, k) {
        assert old(FieldLinked(t, k));
      }
    }

    // Everything registered since then has been reached from the type.
    ghost predicate OnlyReached(before: set<Type>, t: Type)
      reads this
    {
      forall u :: u in prototypes && u !in before ==> Reaches(TypeEdges(), t, u)
    }

    // No link of a type entered before is added.
    twostate predicate LeavesOldLinks()
      reads this
    {
      forall k :: k in links && k.0 in old(prototypes) ==> k in old(links)
    }

    // Returns the type's one prototype, building it and every type it reaches if need be;
    // open are the types whose cross-linking is still running.
    method GetPrototypeNoLock(t: Type, ghost open: set<Type>) returns (p: Prototype)
      requires WellFormed() && t in descriptors && DoneExcept(open)
      modifies this
      ensures DoneExcept(open) && Grows() && OnlyReached(old(prototypes).Keys, t) && LeavesOldLinks()
      ensures (t in generated || t in prototypes) && p == PrototypeOf(t)
      ensures t in generated ==> prototypes == old(prototypes)
      decreases |descriptors.Keys - prototypes.Keys|, 2
    {
      if t in generated {
        return Generated(t);
      }
      if t in prototypes {
        return Built(prototypes[t]);
      }
      SmallerSet(descriptors.Keys - (prototypes.Keys + {t}), descriptors.Keys - prototypes.Keys);
      ReachesSelf(TypeEdges(), t);
      Register(t, open);
      p := Built(prototypes[t]);
      CrossLinkPrototypes(t, open);
    }

    // Links the singular message fields of a type just entered.
    method CrossLinkPrototypes(t: Type, ghost open: set<Type>)
      requires WellFormed() && t in descriptors && t in prototypes && DoneExcept(open + {t})
      requires forall k :: k in links ==> k.0 != t
      modifies this
      ensures DoneExcept(open) && Grows() && OnlyReached(old(prototypes).Keys, t)
      ensures forall k :: k in links && k.0 in old(prototypes) && k.0 != t ==> k in old(links)
      decreases |descriptors.Keys - prototypes.Keys|, 4
    {
      ghost var before := prototypes.Keys;
      for i := 0 to |descriptors[t].fields|
        invariant t in prototypes && before <= prototypes.Keys
        invariant DoneExcept(open + {t}) && Grows() && OnlyReached(before, t)
        invariant LinkedUpTo(t, i)
        invariant forall k :: k in links && k.0 == t ==> k.1 < i
        invariant forall k :: k in links && k.0 in before && k.0 != t ==> k in old(links)
      {
        SmallerSet(descriptors.Keys - prototypes.Keys, descriptors.Keys - before);
        LinkField(t, i, open + {t});
      }
      assert Linked(t);
    }

    ghost predicate LinkedUpTo(t: Type, n: nat)
      requires t in descriptors && n <= |descriptors[t].fields|
      reads this
    {
      forall i :: 0 <= i < n ==> FieldLinked(t, i)
    }

    // One pass of the cross-linking loop.
    method LinkField(t: Type, i: nat, ghost open: set<Type>)
      requires WellFormed() && t in descriptors && t in prototypes && t in open && DoneExcept(open)
      requires i < |descriptors[t].fields| && (t, i) !in links && LinkedUpTo(t, i)
      modifies this
      ensures DoneExcept(open) && Grows() && OnlyReached(old(prototypes).Keys, t)
      ensures LinkedUpTo(t, i + 1)
      ensures forall k :: k in links && k.0 in old(prototypes) ==> k in old(links) || k == (t, i)
      decreases |descriptors.Keys - prototypes.Keys|, 3
    {
      var f := descriptors[t].fields[i];
      if LinkedField(f) {
        var p := GetPrototypeNoLock(f.message.value, open);
        ReachedThroughField(old(prototypes).Keys, t, i);
        forall k | 0 <= k < i ensures FieldLinked(t, k) {
          assert old(FieldLinked(t, k));
        }
        Link(t, i, p, open);
      }
    }

    // What a field's type reaches, the type of the field reaches.
    lemma ReachedThroughField(before: set<Type>, t: Type, i: nat)
      requires WellFormed() && t in descriptors && i < |descriptors[t].fields| && LinkedField(descriptors[t].fields[i])
      requires var u := descriptors[t].fields[i].message.value;
               OnlyReached(before, u) && (u in generated ==> prototypes.Keys <= before)
      ensures OnlyReached(before, t)
    {
      var edges, u := TypeEdges(), descriptors[t].fields[i].message.value;
      assert u !in generated ==> u in edges[t];
      forall v | v in prototypes && v !in before ensures Reaches(edges, t, v) {
        ReachesCons(edges, t, u, v);
      }
    }

    // On return every type reachable through singular message fields is registered, each of
    // its fields points at its type's one prototype, and each type was built once.
    method GetPrototype(t: Type) returns (p: Prototype)
      requires Valid() && t in descriptors
      modifies this
      ensures Valid() && Grows()
      ensures (t in generated || t in prototypes) && p == PrototypeOf(t)
      ensures t !in generated ==> forall u :: Reaches(TypeEdges(), t, u) ==> u in prototypes && Linked(u)
      ensures forall u :: u in prototypes && u !in old(prototypes) ==> Reaches(TypeEdges(), t, u)
      ensures t !in generated ==> forall u :: Reaches(TypeEdges(), t, u) ==> LinkedAsWritten(u)
      ensures forall m, n :: 0 <= m < n < |built| ==> built[m] != built[n]
    {
      p := GetPrototypeNoLock(t, {});
      if t !in generated {
        ghost var edges := TypeEdges();
        forall u | u in prototypes && u in edges ensures edges[u] <= prototypes.Keys {
          RegisteredTypesAreClosed(u);
        }
        forall u | Reaches(edges, t, u) ensures u in prototypes && Linked(u) && LinkedAsWritten(u) {
          ClosedSetHoldsReach(edges, prototypes.Keys, t, u);
          WrittenOut(u);
        }
      }
    }

    // A field of a message type that is not repeated points at the prototype of that type, and
    // any other field has no link.
    ghost predicate FieldAsWritten(u: Type, i: nat)
      requires u in descriptors && i < |descriptors[u].fields|
      reads this
    {
      var f := descriptors[u].fields[i];
      if f.message.Some? && !f.repeated
      then
        var m := f.message.value;
        (u, i) in links && (m in generated || m in prototypes) &&
        links[(u, i)] == if m in generated then Generated(m) else Built(prototypes[m])
      else (u, i) !in links
    }

    ghost predicate LinkedAsWritten(u: Type)
      reads this
    {
      u in descriptors && forall i :: 0 <= i < |descriptors[u].fields| ==> FieldAsWritten(u, i)
    }

    lemma WrittenOut(u: Type)
      requires Valid() && u in prototypes
      ensures LinkedAsWritten(u)
    {
      assert Linked(u);
      forall i | 0 <= i < |descriptors[u].fields| ensures FieldAsWritten(u, i) {
        assert FieldLinked(u, i);
      }
    }

    // The types a type leads to, written out.
    lemma EdgesExactly(t: Type, u: Type)
      requires t in descriptors
      ensures u in TypeEdges()[t] <==>
                u in descriptors && u !in generated &&
                exists i :: 0 <= i < |descriptors[t].fields| &&
                  !descriptors[t].fields[i].repeated && descriptors[t].fields[i].message == Some(u)
    {
      var fs := descriptors[t].fields;
      if u in TypeEdges()[t] {
        var f :| f in fs && LinkedField(f) && f.message.value == u;
        var i :| 0 <= i < |fs| && fs[i] == f;
      }
    }

    lemma RegisteredTypesAreClosed(t: Type)
      requires Valid() && t in prototypes
      ensures t in TypeEdges() && TypeEdges()[t] <= prototypes.Keys
    {
      forall u | u in TypeEdges()[t] ensures u in prototypes {
        var f :| f in descriptors[t].fields && LinkedField(f) && f.message.value == u;
        var i :| 0 <= i < |descriptors[t].fields| && descriptors[t].fields[i] == f;
        assert FieldLinked(t, i);
      }
    }
  }
}
