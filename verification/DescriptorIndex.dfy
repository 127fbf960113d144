// SimpleDescriptorDatabase::DescriptorIndex: an ordered map from symbol names to
// values, searched for the one key that equals a query or is a dotted prefix of it.
module DescriptorIndex {
  import opened Common

  // An entry of by_symbol_. The ordered map is the sequence of its entries in key
  // order; an iterator is a position, and end() is the length.
  datatype Entry<V> = Entry(key: string, value: V)

  // std::string's operator<.
  predicate Less(a: string, b: string) {
    if b == [] then false
    else if a == [] then true
    else a[0] < b[0] || (a[0] == b[0] && Less(a[1..], b[1..]))
  }

  predicate IsSubSymbol(sub: string, super: string) {
    sub == super || (sub <= super && |super| > |sub| && super[|sub|] == '.')
  }

  lemma IsSubSymbolExactly(sub: string, super: string)
    ensures IsSubSymbol(sub, super) <==> sub == super || sub + "." <= super
  {
    if sub + "." <= super { assert super[|sub|] == (sub + ".")[|sub|]; }
  }

  predicate ValidChar(c: char) {
    c == '.' || c == '_' || '0' <= c <= '9' || 'A' <= c <= 'Z' || 'a' <= c <= 'z'
  }

  predicate ValidName(name: string) {
    forall i :: 0 <= i < |name| ==> ValidChar(name[i])
  }

  ghost predicate Sorted<V>(es: seq<Entry<V>>) {
    forall i, j :: 0 <= i < j < |es| ==> Less(es[i].key, es[j].key)
  }

  ghost predicate ValidKeys<V>(es: seq<Entry<V>>) {
    forall i :: 0 <= i < |es| ==> ValidName(es[i].key)
  }

  // The invariant the header states: no key is a dotted prefix of another.
  ghost predicate PrefixFree<V>(es: seq<Entry<V>>) {
    forall i, j :: 0 <= i < |es| && 0 <= j < |es| && i != j ==> !IsSubSymbol(es[i].key, es[j].key)
  }

  // map::upper_bound: the first position whose key is greater than name.
  function UpperBound<V>(es: seq<Entry<V>>, name: string): (u: nat)
    ensures u <= |es|
    ensures forall i :: 0 <= i < u ==> !Less(name, es[i].key)
    ensures u < |es| ==> Less(name, es[u].key)
  {
    if es == [] || Less(name, es[0].key) then 0 else 1 + UpperBound(es[1..], name)
  }

  function FindLastLessOrEqual<V>(es: seq<Entry<V>>, name: string): (i: nat)
    ensures i < |es| || es == []
  {
    var u := UpperBound(es, name);
    if u != 0 then u - 1 else u
  }

  function FindSymbol<V>(es: seq<Entry<V>>, name: string): Option<V> {
    var i := FindLastLessOrEqual(es, name);
    if i < |es| && IsSubSymbol(es[i].key, name) then Some(es[i].value) else None
  }

  // The reference: scan every key for one that equals the query or is a dotted prefix of it.
  function LinearFind<V>(es: seq<Entry<V>>, name: string): Option<V> {
    if es == [] then None
    else if IsSubSymbol(es[0].key, name) then Some(es[0].value)
    else LinearFind(es[1..], name)
  }

  // ---- The order ----

  lemma {:induction false} LessIsIrreflexive(a: string)
    ensures !Less(a, a)
  {
    if a != [] { LessIsIrreflexive(a[1..]); }
  }

  lemma {:induction false} LessIsTransitive(a: string, b: string, c: string)
    requires Less(a, b) && Less(b, c)
    ensures Less(a, c)
  {
    if a != [] && a[0] == b[0] && b[0] == c[0] { LessIsTransitive(a[1..], b[1..], c[1..]); }
  }

  lemma {:induction false} LessIsTotal(a: string, b: string)
    ensures Less(a, b) || a == b || Less(b, a)
  {
    if a != [] && b != [] && a[0] == b[0] {
      LessIsTotal(a[1..], b[1..]);
      if a[1..] == b[1..] { assert a == [a[0]] + a[1..] == [b[0]] + b[1..] == b; }
    }
  }

  lemma {:induction false} PrefixIsLess(a: string, b: string)
    requires a < b
    ensures Less(a, b)
  {
    if a != [] { PrefixIsLess(a[1..], b[1..]); }
  }

  // Anything sorted between a string and one of its extensions extends it too, and its
  // next character is no greater (steps 5 to 7 of the proof in the header).
  lemma {:induction false} Sandwich(k: string, f: string, q: string)
    requires k <= q && !Less(f, k) && !Less(q, f)
    ensures k <= f
    ensures |f| > |k| ==> |q| > |k| && f[|k|] <= q[|k|]
  {
    if k == [] {
      assert q == [] ==> f == [];
    } else {
      assert f != [] && f[0] == q[0] == k[0];
      Sandwich(k[1..], f[1..], q[1..]);
      assert k == [k[0]] + k[1..] && f == [f[0]] + f[1..];
    }
  }

  // A valid key between a symbol and one of its sub-symbols is itself a sub-symbol,
  // because '.' sorts before every other character of a valid name.
  lemma {:induction false} SandwichSymbol(k: string, f: string, q: string)
    requires IsSubSymbol(k, q) && !Less(f, k) && !Less(q, f) && ValidName(f)
    ensures IsSubSymbol(k, f)
  {
    Sandwich(k, f, q);
    if |f| > |k| { assert ValidChar(f[|k|]); }
  }

  lemma {:induction false} SubSymbolOrder(k: string, q: string)
    requires IsSubSymbol(k, q)
    ensures !Less(q, k) && (k != q ==> Less(k, q))
  {
    if k == q { LessIsIrreflexive(k); } else {
      PrefixIsLess(k, q);
      if Less(q, k) { LessIsTransitive(k, q, k); LessIsIrreflexive(k); }
    }
  }

  // ---- Lookup ----

  lemma {:induction false} UpperBoundSplits<V>(es: seq<Entry<V>>, name: string, i: nat)
    requires Sorted(es) && i < |es|
    ensures Less(name, es[i].key) <==> UpperBound(es, name) <= i
  {
    var u := UpperBound(es, name);
    if u < i { LessIsTransitive(name, es[u].key, es[i].key); }
  }

  // Step (1) of the lookup finds the match key whenever there is one.
  lemma {:induction false} MatchIsFound<V>(es: seq<Entry<V>>, q: string, m: nat)
    requires Sorted(es) && ValidKeys(es) && PrefixFree(es)
    requires m < |es| && IsSubSymbol(es[m].key, q)
    ensures FindLastLessOrEqual(es, q) == m
  {
    SubSymbolOrder(es[m].key, q);
    UpperBoundSplits(es, q, m);
    var u := UpperBound(es, q);
    if m < u - 1 {
      var f := es[u - 1].key;
      if Less(f, es[m].key) { LessIsTransitive(es[m].key, f, es[m].key); LessIsIrreflexive(es[m].key); }
      SandwichSymbol(es[m].key, f, q);
    }
  }

  lemma {:induction false} LinearFindFinds<V>(es: seq<Entry<V>>, q: string)
    ensures LinearFind(es, q).None? ==> forall i :: 0 <= i < |es| ==> !IsSubSymbol(es[i].key, q)
    ensures LinearFind(es, q).Some? ==>
              exists i :: 0 <= i < |es| && IsSubSymbol(es[i].key, q) && LinearFind(es, q) == Some(es[i].value)
  {
    if es != [] && !IsSubSymbol(es[0].key, q) {
      LinearFindFinds(es[1..], q);
      if LinearFind(es[1..], q).Some? {
        var i :| 0 <= i < |es| - 1 && IsSubSymbol(es[1..][i].key, q) && LinearFind(es, q) == Some(es[1..][i].value);
        assert es[i + 1] == es[1..][i];
      } else {
        forall i | 0 <= i < |es| ensures !IsSubSymbol(es[i].key, q) {
          if i > 0 { assert es[i] == es[1..][i - 1]; }
        }
      }
    }
  }

  // One ordered lookup and one comparison agree with the scan, for every query string,
  // and at most one key matches.
  lemma {:induction false} FindSymbolIsLinearFind<V>(es: seq<Entry<V>>, q: string)
    requires Sorted(es) && ValidKeys(es) && PrefixFree(es)
    ensures FindSymbol(es, q) == LinearFind(es, q)
    ensures forall i, j :: 0 <= i < j < |es| ==> !(IsSubSymbol(es[i].key, q) && IsSubSymbol(es[j].key, q))
  {
    LinearFindFinds(es, q);
    forall i | 0 <= i < |es| && IsSubSymbol(es[i].key, q)
      ensures FindLastLessOrEqual(es, q) == i
    {
      MatchIsFound(es, q, i);
    }
  }

  // A query that goes astray when a key k is a dotted prefix of another: '/' sorts after '.'
  // and before everything else a name may hold, so the search ends at or under the longer
  // key, and misses k.
  lemma {:induction false} ConflictMisleadsLookup<V>(es: seq<Entry<V>>, i: nat, j: nat)
    requires Sorted(es) && ValidKeys(es)
    requires i < |es| && j < |es| && i != j && IsSubSymbol(es[i].key, es[j].key)
    ensures var q := es[j].key + "/"; FindSymbol(es, q).None? && LinearFind(es, q).Some?
  {
    var k, k' := es[i].key, es[j].key;
    var q := k' + "/";
    LessIsIrreflexive(k);
    assert k != k';
    assert IsSubSymbol(k, q);
    LinearFindFinds(es, q);
    PrefixIsLess(k', q);
    if Less(q, k') { LessIsTransitive(k', q, k'); LessIsIrreflexive(k'); }
    UpperBoundSplits(es, q, j);
    var u := UpperBound(es, q);
    var f := es[u - 1].key;
    assert !Less(f, k') by {
      LessIsIrreflexive(k');
      if Less(f, k') { LessIsTransitive(k', f, k'); }
    }
    NotUnderSlash(f, k');
  }

  lemma {:induction false} NotUnderSlash(f: string, k: string)
    requires ValidName(f) && !Less(f, k)
    ensures !IsSubSymbol(f, k + "/")
  {
    var q := k + "/";
    assert !ValidName(q) by { assert q[|k|] == '/'; }
    if f <= q && |f| < |q| {
      assert f == q[..|f|] == k[..|f|];
      if f != k { PrefixIsLess(f, k); }
    }
  }

  // The invariant is not only enough for the lookup but needed: the lookup agrees with the
  // scan on every query exactly when no key is a dotted prefix of another.
  lemma {:induction false} LookupNeedsPrefixFree<V>(es: seq<Entry<V>>)
    requires Sorted(es) && ValidKeys(es)
    ensures (forall q :: FindSymbol(es, q) == LinearFind(es, q)) <==> PrefixFree(es)
  {
    if PrefixFree(es) {
      forall q ensures FindSymbol(es, q) == LinearFind(es, q) { FindSymbolIsLinearFind(es, q); }
    } else {
      var i, j :| 0 <= i < |es| && 0 <= j < |es| && i != j && IsSubSymbol(es[i].key, es[j].key);
      ConflictMisleadsLookup(es, i, j);
      assert FindSymbol(es, es[j].key + "/") != LinearFind(es, es[j].key + "/");
    }
  }

  // The value of a matching key, and every other match is shorter.
  ghost predicate LongestMatch<V>(es: seq<Entry<V>>, q: string, value: V) {
    exists i :: 0 <= i < |es| && IsSubSymbol(es[i].key, q) && es[i].value == value &&
                forall j :: 0 <= j < |es| && j != i && IsSubSymbol(es[j].key, q) ==> |es[j].key| < |es[i].key|
  }

  // Even without the invariant, what is found is the longest match.
  lemma {:induction false} FoundIsLongest<V>(es: seq<Entry<V>>, q: string)
    requires Sorted(es) && FindSymbol(es, q).Some?
    ensures LongestMatch(es, q, FindSymbol(es, q).value)
  {
    var i := FindLastLessOrEqual(es, q);
    forall j | 0 <= j < |es| && j != i && IsSubSymbol(es[j].key, q) ensures |es[j].key| < |es[i].key| {
      SubSymbolOrder(es[j].key, q);
      UpperBoundSplits(es, q, j);
      assert j < i;
      ShorterMatchIsLess(es[j].key, es[i].key, q);
    }
  }

  lemma {:induction false} ShorterMatchIsLess(a: string, b: string, q: string)
    requires a <= q && b <= q && Less(a, b)
    ensures |a| < |b|
  {
    LessIsIrreflexive(a);
    assert a == q[..|a|] && b == q[..|b|];
    if |b| < |a| {
      PrefixIsLess(b, a);
      LessIsTransitive(a, b, a);
    }
  }

  // ---- Insertion ----

  ghost predicate Conflict<V>(es: seq<Entry<V>>, name: string) {
    exists i :: 0 <= i < |es| && (IsSubSymbol(es[i].key, name) || IsSubSymbol(name, es[i].key))
  }

  // The one case AddSymbol misses: every key is greater than the new name, so the search
  // returns the least key rather than a smaller one, and stepping past it skips the only
  // sub-symbol of the new name.
  predicate Blind<V>(es: seq<Entry<V>>, name: string) {
    |es| > 0 && Less(name, es[0].key) && IsSubSymbol(name, es[0].key) &&
    (|es| == 1 || !IsSubSymbol(name, es[1].key))
  }

  function Insert<V>(es: seq<Entry<V>>, name: string, value: V): seq<Entry<V>> {
    var u := UpperBound(es, name);
    es[..u] + [Entry(name, value)] + es[u..]
  }

  // If any key lies under the new name, the first key greater than the name does.
  lemma {:induction false} SubSymbolIsNext<V>(es: seq<Entry<V>>, name: string, j: nat)
    requires Sorted(es) && ValidKeys(es)
    requires j < |es| && IsSubSymbol(name, es[j].key) && name != es[j].key
    ensures UpperBound(es, name) <= j && IsSubSymbol(name, es[UpperBound(es, name)].key)
  {
    SubSymbolOrder(name, es[j].key);
    UpperBoundSplits(es, name, j);
    var u := UpperBound(es, name);
    if u < j {
      var f := es[u].key;
      if Less(f, name) { LessIsTransitive(name, f, name); LessIsIrreflexive(name); }
      if Less(es[j].key, f) { LessIsTransitive(f, es[j].key, f); LessIsIrreflexive(f); }
      SandwichSymbol(name, f, es[j].key);
    }
  }

  // What the two comparisons of AddSymbol decide.
  predicate Refused<V>(es: seq<Entry<V>>, name: string) {
    var i := FindLastLessOrEqual(es, name);
    i < |es| && (IsSubSymbol(es[i].key, name) || (i + 1 < |es| && IsSubSymbol(name, es[i + 1].key)))
  }

  lemma {:induction false} RefusedExactly<V>(es: seq<Entry<V>>, name: string)
    requires Sorted(es) && ValidKeys(es) && PrefixFree(es)
    ensures Refused(es, name) <==> Conflict(es, name) && !Blind(es, name)
  {
    var u, i := UpperBound(es, name), FindLastLessOrEqual(es, name);
    if Blind(es, name) {
      SubSymbolOrder(name, es[0].key);
      if IsSubSymbol(es[0].key, name) { SubSymbolOrder(es[0].key, name); }
    } else if Conflict(es, name) {
      var j :| 0 <= j < |es| && (IsSubSymbol(es[j].key, name) || IsSubSymbol(name, es[j].key));
      if IsSubSymbol(es[j].key, name) {
        MatchIsFound(es, name, j);
      } else {
        SubSymbolIsNext(es, name, j);
        if u == 0 { assert !Blind(es, name); }
      }
    }
  }

  lemma {:induction false} InsertKeepsOrder<V>(es: seq<Entry<V>>, name: string, value: V)
    requires Sorted(es) && forall i :: 0 <= i < |es| ==> es[i].key != name
    ensures Sorted(Insert(es, name, value))
  {
    var u, r := UpperBound(es, name), Insert(es, name, value);
    forall i, j | 0 <= i < j < |r| ensures Less(r[i].key, r[j].key) {
      if i == u { UpperBoundSplits(es, name, j - 1); }
      if j == u { UpperBoundSplits(es, name, i); LessIsTotal(es[i].key, name); }
    }
  }

  // Where the entries are after an insertion.
  lemma {:induction false} InsertShifts<V>(es: seq<Entry<V>>, name: string, value: V, i: nat)
    requires i <= |es|
    ensures var u, r := UpperBound(es, name), Insert(es, name, value);
            |r| == |es| + 1 &&
            r[i] == if i < u then es[i] else if i == u then Entry(name, value) else es[i - 1]
  {}

  lemma {:induction false} InsertWithoutConflict<V>(es: seq<Entry<V>>, name: string, value: V)
    requires PrefixFree(es) && !Conflict(es, name)
    ensures PrefixFree(Insert(es, name, value))
  {
    var u, r := UpperBound(es, name), Insert(es, name, value);
    forall i, j | 0 <= i < |r| && 0 <= j < |r| && i != j ensures !IsSubSymbol(r[i].key, r[j].key) {
      InsertShifts(es, name, value, i);
      InsertShifts(es, name, value, j);
      var i', j' := if i < u then i else i - 1, if j < u then j else j - 1;
      if i != u && j != u { assert !IsSubSymbol(es[i'].key, es[j'].key); }
    }
  }

  // An accepted insertion keeps the index prefix-free exactly when it is not the blind case.
  lemma {:induction false} InsertKeepsPrefixFree<V>(es: seq<Entry<V>>, name: string, value: V)
    requires Sorted(es) && ValidKeys(es) && PrefixFree(es) && !Refused(es, name)
    ensures PrefixFree(Insert(es, name, value)) <==> !Blind(es, name)
    ensures !Blind(es, name) <==> !Conflict(es, name)
  {
    RefusedExactly(es, name);
    if Blind(es, name) {
      InsertShifts(es, name, value, 0);
      InsertShifts(es, name, value, 1);
      assert Conflict(es, name);
    } else {
      InsertWithoutConflict(es, name, value);
    }
  }

  lemma {:induction false} InsertAddsOneEntry<V>(es: seq<Entry<V>>, name: string, value: V)
    requires ValidKeys(es) && ValidName(name)
    ensures ValidKeys(Insert(es, name, value))
    ensures multiset(Insert(es, name, value)) == multiset(es) + multiset{Entry(name, value)}
  {
    var u := UpperBound(es, name);
    assert es == es[..u] + es[u..];
  }

  // A key that is already there is always found, so it is refused.
  lemma {:induction false} PresentKeyIsRefused<V>(es: seq<Entry<V>>, k: nat)
    requires Sorted(es) && k < |es|
    ensures FindLastLessOrEqual(es, es[k].key) == k && Refused(es, es[k].key)
  {
    var name := es[k].key;
    LessIsIrreflexive(name);
    UpperBoundSplits(es, name, k);
    if k + 1 < |es| { UpperBoundSplits(es, name, k + 1); }
  }

  // An entry already there keeps its conflicts.
  lemma {:induction false} InsertKeepsConflicts<V>(es: seq<Entry<V>>, name: string, value: V)
    requires !PrefixFree(es)
    ensures !PrefixFree(Insert(es, name, value))
  {
    var u, r := UpperBound(es, name), Insert(es, name, value);
    var i, j :| 0 <= i < |es| && 0 <= j < |es| && i != j && IsSubSymbol(es[i].key, es[j].key);
    var i', j' := if i < u then i else i + 1, if j < u then j else j + 1;
    assert r[i'] == es[i] && r[j'] == es[j] && i' != j';
  }

  // What an accepted insertion does to the map, prefix-free or not.
  lemma {:induction false} InsertionIsSound<V>(es: seq<Entry<V>>, name: string, value: V)
    requires Sorted(es) && ValidKeys(es) && !Refused(es, name) && ValidName(name)
    ensures Sorted(Insert(es, name, value)) && ValidKeys(Insert(es, name, value))
    ensures multiset(Insert(es, name, value)) == multiset(es) + multiset{Entry(name, value)}
    ensures PrefixFree(Insert(es, name, value)) <==> PrefixFree(es) && !Blind(es, name)
  {
    if PrefixFree(es) { InsertKeepsPrefixFree(es, name, value); } else { InsertKeepsConflicts(es, name, value); }
    forall k | 0 <= k < |es| ensures es[k].key != name {
      if es[k].key == name { PresentKeyIsRefused(es, k); }
    }
    InsertKeepsOrder(es, name, value);
    InsertAddsOneEntry(es, name, value);
  }

  // ---- Whole runs ----

  // The map after one symbol has been offered, and after a sequence of them.
  function AddOne<V>(es: seq<Entry<V>>, name: string, value: V): seq<Entry<V>> {
    if ValidName(name) && !Refused(es, name) then Insert(es, name, value) else es
  }

  function AddedAll<V>(es: seq<Entry<V>>, adds: seq<Entry<V>>): seq<Entry<V>>
    decreases adds
  {
    if adds == [] then es else AddedAll(AddOne(es, adds[0].key, adds[0].value), adds[1..])
  }

  // No symbol offered is valid and blind on arrival.
  predicate NeverBlind<V>(es: seq<Entry<V>>, adds: seq<Entry<V>>)
    decreases adds
  {
    adds == [] ||
    (!(ValidName(adds[0].key) && Blind(es, adds[0].key)) &&
        NeverBlind(AddOne(es, adds[0].key, adds[0].value), adds[1..]))
  }

  lemma {:induction false} AddOneExactly<V>(es: seq<Entry<V>>, name: string, value: V)
    requires Sorted(es) && ValidKeys(es)
    ensures Sorted(AddOne(es, name, value)) && ValidKeys(AddOne(es, name, value))
    ensures PrefixFree(AddOne(es, name, value)) <==>
            PrefixFree(es) && !(ValidName(name) && Blind(es, name) && !Refused(es, name))
    ensures PrefixFree(es) && Blind(es, name) ==> !Refused(es, name)
  {
    if PrefixFree(es) { RefusedExactly(es, name); }
    if ValidName(name) && !Refused(es, name) { InsertionIsSound(es, name, value); }
  }

  lemma {:induction false} ConflictsStay<V>(es: seq<Entry<V>>, adds: seq<Entry<V>>)
    requires Sorted(es) && ValidKeys(es) && !PrefixFree(es)
    ensures !PrefixFree(AddedAll(es, adds))
    decreases adds
  {
    if adds != [] {
      AddOneExactly(es, adds[0].key, adds[0].value);
      ConflictsStay(AddOne(es, adds[0].key, adds[0].value), adds[1..]);
    }
  }

  // Over every run, the invariant the header states holds at the end exactly when no symbol
  // was blind on arrival: one that slips through is never made good.
  lemma {:induction false} PrefixFreeExactly<V>(es: seq<Entry<V>>, adds: seq<Entry<V>>)
    requires Sorted(es) && ValidKeys(es) && PrefixFree(es)
    ensures PrefixFree(AddedAll(es, adds)) <==> NeverBlind(es, adds)
    decreases adds
  {
    if adds != [] {
      var after := AddOne(es, adds[0].key, adds[0].value);
      AddOneExactly(es, adds[0].key, adds[0].value);
      if PrefixFree(after) { PrefixFreeExactly(after, adds[1..]); } else { ConflictsStay(after, adds[1..]); }
    }
  }

  // The blind case happens: with only "a.b" present, "a" is accepted, and "a.c", which
  // lies under "a", is then not found.
  lemma {:induction false} BlindCaseBreaksLookup()
    ensures var es := [Entry("a.b", 1)];
            var r := Insert(es, "a", 2);
            Sorted(es) && ValidKeys(es) && PrefixFree(es) && !Refused(es, "a") &&
            !PrefixFree(r) && FindSymbol(r, "a.c").None? && LinearFind(r, "a.c") == Some(2)
  {
    var es := [Entry("a.b", 1)];
    assert "a.b"[1..] == ".b" && "a"[1..] == "" && "a.c"[1..] == ".c";
    assert ".b"[1..] == "b" && ".c"[1..] == "c";
    assert Less("a", "a.b") && Less("a.b", "a.c") && Less("a", "a.c");
    assert !Less("a.c", "a.b") && !Less("a.c", "a");
    assert UpperBound(es, "a") == 0;
    var r := Insert(es, "a", 2);
    assert r == [Entry("a", 2), Entry("a.b", 1)];
    assert r[1..] == [Entry("a.b", 1)] && r[1..][1..] == [];
    assert UpperBound(r, "a.c") == 2;
    assert IsSubSymbol("a", "a.c") && IsSubSymbol("a", "a.b") && !IsSubSymbol("a.b", "a.c");
    assert IsSubSymbol(r[0].key, r[1].key);
  }

  class Index<V(==)> {
    var bySymbol: seq<Entry<V>>

    ghost predicate Valid()
      reads this
    {
      Sorted(bySymbol) && ValidKeys(bySymbol)
    }

    constructor ()
      ensures Valid() && PrefixFree(bySymbol) && bySymbol == []
    {
      bySymbol := [];
    }

    method ValidateSymbolName(name: string) returns (ok: bool)
      ensures ok <==> ValidName(name)
      ensures ok <==> forall i :: 0 <= i < |name| ==>
                        name[i] == '.' || name[i] == '_' || '0' <= name[i] <= '9' ||
                        'A' <= name[i] <= 'Z' || 'a' <= name[i] <= 'z'
    {
      for i := 0 to |name|
        invariant forall k :: 0 <= k < i ==> ValidChar(name[k])
      {
        if !ValidChar(name[i]) {
          return false;
        }
      }
      return true;
    }

    // Accepts the valid names its two comparisons do not refuse: in a prefix-free index,
    // exactly those that conflict with no key, and the blind ones. An index is prefix-free
    // afterwards exactly when it was before and the accepted name was not blind.
    method AddSymbol(name: string, value: V) returns (ok: bool)
      requires Valid()
      modifies this
      ensures Valid()
      ensures ok <==> ValidName(name) && !Refused(old(bySymbol), name)
      ensures PrefixFree(old(bySymbol)) ==>
                (ok <==> ValidName(name) && (!Conflict(old(bySymbol), name) || Blind(old(bySymbol), name)))
      ensures bySymbol == AddOne(old(bySymbol), name, value)
      ensures ok ==> multiset(bySymbol) == multiset(old(bySymbol)) + multiset{Entry(name, value)}
      ensures PrefixFree(bySymbol) <==> PrefixFree(old(bySymbol)) && !(ok && Blind(old(bySymbol), name))
    {
      ok := ValidateSymbolName(name);
      if !ok {
        return false;
      }
      if PrefixFree(bySymbol) { RefusedExactly(bySymbol, name); }
      var i := FindLastLessOrEqual(bySymbol, name);
      if i == |bySymbol| {
        bySymbol := [Entry(name, value)];
        return true;
      }
      if IsSubSymbol(bySymbol[i].key, name) {
        return false;
      }
      i := i + 1;
      if i != |bySymbol| && IsSubSymbol(name, bySymbol[i].key) {
        return false;
      }
      InsertionIsSound(bySymbol, name, value);
      bySymbol := Insert(bySymbol, name, value);
      return true;
    }

    // Returns the value of the longest key that matches, or nothing; in a prefix-free index
    // that is the one matching key, and nothing means there is none.
    method Find(name: string) returns (r: Option<V>)
      requires Valid()
      ensures PrefixFree(bySymbol) ==> r == LinearFind(bySymbol, name)
      ensures r.Some? ==> LongestMatch(bySymbol, name, r.value)
    {
      if PrefixFree(bySymbol) { FindSymbolIsLinearFind(bySymbol, name); }
      r := FindSymbol(bySymbol, name);
      if r.Some? { FoundIsLongest(bySymbol, name); }
    }

    // However many symbols are offered, and whichever of them are refused, the index is
    // prefix-free in the end exactly when none of them was blind on arrival.
    method AddAll(adds: seq<Entry<V>>)
      requires Valid() && bySymbol == []
      modifies this
      ensures Valid() && bySymbol == AddedAll([], adds)
      ensures PrefixFree(bySymbol) <==> NeverBlind([], adds)
    {
      for i := 0 to |adds|
        invariant Valid() && AddedAll(bySymbol, adds[i..]) == AddedAll([], adds)
      {
        assert adds[i..][1..] == adds[i + 1..];
        var _ := AddSymbol(adds[i].key, adds[i].value);
      }
      PrefixFreeExactly([], adds);
    }
  }
}
