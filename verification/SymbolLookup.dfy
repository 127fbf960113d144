// DescriptorBuilder::LookupSymbolNoPlaceholder: resolving a relative name by trying the
// enclosing scopes from the innermost outwards.
module SymbolLookup {

  datatype Kind = NullSymbol | MessageType | Field | Enum | EnumValue | Service | Method | Package
  datatype Symbol = Symbol(kind: Kind, id: int)

  predicate IsType(s: Symbol) { s.kind.MessageType? || s.kind.Enum? }

  predicate IsAggregate(s: Symbol) { s.kind.MessageType? || s.kind.Package? || s.kind.Enum? || s.kind.Service? }

  // find_last_of and find_first_of; -1 is npos.
  function LastDot(s: string): (d: int)
    ensures -1 <= d < |s| && (d >= 0 ==> s[d] == '.') && forall i :: d < i < |s| ==> s[i] != '.'
  {
    if s == [] then -1
    else if s[|s| - 1] == '.' then |s| - 1
    else LastDot(s[..|s| - 1])
  }

  function FirstDot(s: string): (d: int)
    ensures -1 <= d < |s| && (d >= 0 ==> s[d] == '.' && '.' !in s[..d]) && (d == -1 ==> '.' !in s)
  {
    if s == [] then -1
    else if s[0] == '.' then 0
    else
      var d := FirstDot(s[1..]);
      assert d >= 0 ==> s[..d + 1] == [s[0]] + s[1..][..d];
      if d == -1 then -1 else d + 1
  }

  // The dot-separated components of a full name, and back.
  function Split(s: string): (cs: seq<string>)
    ensures cs != [] && forall i :: 0 <= i < |cs| ==> '.' !in cs[i]
  {
    var d := LastDot(s);
    if d == -1 then [s]
    else
      var outer, last := Split(s[..d]), s[d + 1..];
      assert '.' !in last;
      outer + [last]
  }

  function Join(cs: seq<string>): string
    requires cs != []
  {
    if |cs| == 1 then cs[0] else Join(cs[..|cs| - 1]) + "." + cs[|cs| - 1]
  }

  lemma {:induction false} JoinSnoc(cs: seq<string>, c: string)
    requires cs != []
    ensures Join(cs + [c]) == Join(cs) + "." + c
  {
    assert (cs + [c])[..|cs|] == cs;
  }

  lemma CutAtDot(s: string, d: nat)
    requires d < |s| && s[d] == '.'
    ensures s == s[..d] + "." + s[d + 1..]
  {}

  lemma {:induction false} JoinSplit(s: string)
    ensures Join(Split(s)) == s
    decreases |s|
  {
    var d := LastDot(s);
    if d != -1 {
      CutAtDot(s, d);
      JoinSplit(s[..d]);
      JoinSnoc(Split(s[..d]), s[d + 1..]);
    }
  }

  // Chopping at the last dot drops the last component, and only a single one has no dot.
  lemma ChopDropsComponent(cs: seq<string>)
    requires cs != [] && forall i :: 0 <= i < |cs| ==> '.' !in cs[i]
    ensures LastDot(Join(cs)) == -1 <==> |cs| == 1
    ensures |cs| > 1 ==> Join(cs)[..LastDot(Join(cs))] == Join(cs[..|cs| - 1])
  {
    var s, c := Join(cs), cs[|cs| - 1];
    if |cs| > 1 {
      var n := |Join(cs[..|cs| - 1])|;
      assert s[n] == '.' && s[n + 1..] == c;
      assert forall i :: n < i < |s| ==> s[i] == c[i - n - 1];
      assert LastDot(s) == n;
    }
  }

  function FirstPart(name: string): string {
    var d := FirstDot(name);
    if d == -1 then name else name[..d]
  }

  // A scope settles the name when the name's first component is found in it and is usable:
  // an aggregate if more components follow, a type if only types are wanted.
  predicate Settles(find: string -> Symbol, name: string, types: bool, scope: string) {
    var found := find(scope + "." + FirstPart(name));
    !found.kind.NullSymbol? &&
    if |FirstPart(name)| < |name| then IsAggregate(found) else types ==> IsType(found)
  }

  // The scope made of the first k components.
  function Scope(cs: seq<string>, k: nat): string
    requires 1 <= k <= |cs|
  {
    Join(cs[..k])
  }

  // The reference: the scopes of k, k - 1, ..., 1 components, then the global scope.
  function Resolve(find: string -> Symbol, name: string, types: bool, cs: seq<string>, k: nat): Symbol
    requires k <= |cs|
  {
    if k == 0 then find(name)
    else if Settles(find, name, types, Scope(cs, k)) then find(Scope(cs, k) + "." + name)
    else Resolve(find, name, types, cs, k - 1)
  }

  // The innermost scope that settles the name decides, even if the rest of the name is
  // missing there.
  lemma {:induction false} InnermostScopeDecides(find: string -> Symbol, name: string, types: bool, cs: seq<string>,
                                                 k: nat, j: nat)
    requires 1 <= j <= k <= |cs| && Settles(find, name, types, Scope(cs, j))
    requires forall i :: j < i <= k ==> !Settles(find, name, types, Scope(cs, i))
    ensures Resolve(find, name, types, cs, k) == find(Scope(cs, j) + "." + name)
    decreases k
  {
    if j < k {
      InnermostScopeDecides(find, name, types, cs, k - 1, j);
    }
  }

  // With none, the name is looked up as it stands, whatever it turns out to be.
  lemma {:induction false} NoScopeDecides(find: string -> Symbol, name: string, types: bool, cs: seq<string>, k: nat)
    requires k <= |cs| && forall i :: 1 <= i <= k ==> !Settles(find, name, types, Scope(cs, i))
    ensures Resolve(find, name, types, cs, k) == find(name)
    decreases k
  {
    if k > 0 {
      NoScopeDecides(find, name, types, cs, k - 1);
    }
  }

  // One pass of the loop after the chop: appends the first component, and the rest if that
  // settles it.
  method TryScope(find: string -> Symbol, name: string, types: bool, first: string, enclosing: string)
    returns (settled: bool, r: Symbol)
    requires first == FirstPart(name)
    ensures settled <==> Settles(find, name, types, enclosing)
    ensures settled ==> r == find(enclosing + "." + name)
  {
    var scope := enclosing + "." + first;
    r := find(scope);
    if r.kind.NullSymbol? {
      return false, r;
    }
    if |first| < |name| {
      if IsAggregate(r) {
        scope := scope + name[|first|..];
        assert first + name[|first|..] == name;
        assert scope == enclosing + "." + name;
        return true, find(scope);
      }
      return false, r;
    }
    assert first == name;
    return !types || IsType(r), r;
  }

  lemma ChopScope(cs: seq<string>, k: nat)
    requires 1 <= k <= |cs| && forall i :: 0 <= i < |cs| ==> '.' !in cs[i]
    ensures LastDot(Scope(cs, k)) == -1 <==> k == 1
    ensures k > 1 ==> Scope(cs, k)[..LastDot(Scope(cs, k))] == Scope(cs, k - 1)
  {
    ChopDropsComponent(cs[..k]);
    assert k > 1 ==> cs[..k][..k - 1] == cs[..k - 1];
  }

  lemma {:induction false} WholeScope(s: string)
    ensures Scope(Split(s), |Split(s)|) == s
  {
    JoinSplit(s);
    var cs := Split(s);
    assert cs[..|cs|] == cs;
  }

  // The loop: chops the scope and tries again until nothing is left to chop.
  method TryScopes(find: string -> Symbol, name: string, types: bool, relativeTo: string, ghost cs: seq<string>)
    returns (r: Symbol)
    requires cs != [] && (forall i :: 0 <= i < |cs| ==> '.' !in cs[i]) && relativeTo == Scope(cs, |cs|)
    ensures r == Resolve(find, name, types, cs, |cs| - 1)
  {
    var scope := relativeTo;
    ghost var k := |cs|;
    while true
      invariant 1 <= k <= |cs| && scope == Scope(cs, k)
      invariant Resolve(find, name, types, cs, |cs| - 1) == Resolve(find, name, types, cs, k - 1)
      decreases k
    {
      ChopScope(cs, k);
      var dot := LastDot(scope);
      if dot == -1 {
        return find(name);
      }
      scope := scope[..dot];
      k := k - 1;
      var settled, found := TryScope(find, name, types, FirstPart(name), scope);
      if settled {
        return found;
      }
    }
  }

  // The whole lookup agrees with the reference, for every name and scope.
  method LookupSymbolNoPlaceholder(find: string -> Symbol, name: string, relativeTo: string, types: bool)
    returns (r: Symbol)
    ensures r == if |name| > 0 && name[0] == '.' then find(name[1..])
                 else Resolve(find, name, types, Split(relativeTo), |Split(relativeTo)| - 1)
  {
    if |name| > 0 && name[0] == '.' {
      return find(name[1..]);
    }
    WholeScope(relativeTo);
    r := TryScopes(find, name, types, relativeTo, Split(relativeTo));
  }

  // The first component found in an inner scope hides an outer one: with Foo.Bar a message
  // and no Foo.Bar.Baz, the name Bar.Baz used inside Foo is not found, though the outer
  // Bar.Baz exists.
  lemma InnerScopeHidesOuter(find: string -> Symbol)
    requires find("Foo.Bar").kind.MessageType? && find("Foo.Bar.Baz").kind.NullSymbol?
    ensures Resolve(find, "Bar.Baz", true, ["Foo", "baz"], 1).kind.NullSymbol?
  {
    var name := "Bar.Baz";
    assert name[..3] == "Bar" && name[3] == '.';
    assert FirstDot(name) == 3;
    assert ["Foo", "baz"][..1] == ["Foo"];
    assert "Foo" + "." + "Bar" == "Foo.Bar" && "Foo" + "." + name == "Foo.Bar.Baz";
  }

  // Which kinds settle a name: a message, a package, an enum or a service if more components
  // follow; otherwise anything, or in type mode a message or an enum.
  lemma SettlesExactly(find: string -> Symbol, name: string, types: bool, scope: string)
    ensures var kind := find(scope + "." + FirstPart(name)).kind;
            Settles(find, name, types, scope) <==>
            if '.' in name then kind in {MessageType, Package, Enum, Service}
            else if types then kind in {MessageType, Enum}
            else kind != NullSymbol
  {
    var d := FirstDot(name);
    if d >= 0 { assert name[d] == '.'; }
  }

  lemma BarBaz()
    ensures FirstPart("Bar.Baz") == "Bar" && FirstPart("Bar") == "Bar"
    ensures "Foo" + "." + "Bar" == "Foo.Bar" && "Foo" + "." + "Bar.Baz" == "Foo.Bar.Baz"
    ensures Scope(["Foo", "baz"], 1) == "Foo"
  {
    var name := "Bar.Baz";
    assert name[..3] == "Bar" && name[3] == '.';
    assert FirstDot(name) == 3;
    assert '.' !in "Bar";
    assert ["Foo", "baz"][..1] == ["Foo"];
  }

  // Bar.Baz used inside Foo: through a message, a package, an enum or a service Foo.Bar the
  // lookup stays inside, whatever it finds there; a Foo.Bar of any other kind is passed over.
  lemma LookupThroughScope(find: string -> Symbol, types: bool)
    ensures Resolve(find, "Bar.Baz", types, ["Foo", "baz"], 1) ==
            if find("Foo.Bar").kind in {MessageType, Package, Enum, Service} then find("Foo.Bar.Baz")
            else find("Bar.Baz")
  {
    BarBaz();
    SettlesExactly(find, "Bar.Baz", types, "Foo");
    assert "Bar.Baz"[3] == '.';
  }

  // Bar used inside Foo: in type mode a field Foo.Bar is passed over, and otherwise it is found.
  lemma TypeModeSkipsFields(find: string -> Symbol)
    requires find("Foo.Bar").kind.Field?
    ensures Resolve(find, "Bar", true, ["Foo", "baz"], 1) == find("Bar")
    ensures Resolve(find, "Bar", false, ["Foo", "baz"], 1) == find("Foo.Bar")
  {
    BarBaz();
  }
}
