// DescriptorPool::Tables: the pool's symbol, file and extension tables and its allocation
// lists, with nested checkpoints and rollback.
module Tables {

  // Descriptors and allocations are known by identity only.
  type Id = int

  // ---- One table and the list of keys added to it since the oldest checkpoint ----

  datatype Journal<K, V> = Journal(table: map<K, V>, pending: seq<K>)

  // InsertIfNotPresent, noting the key.
  function Add<K, V>(j: Journal<K, V>, k: K, v: V): Journal<K, V> {
    if k in j.table then j else Journal(j.table[k := v], j.pending + [k])
  }

  function Keys<K>(ks: seq<K>): set<K> { set k | k in ks }

  function Undo<K, V>(j: Journal<K, V>, n: int): Journal<K, V>
    requires 0 <= n <= |j.pending|
  {
    Journal(j.table - Keys(j.pending[n..]), j.pending[..n])
  }

  ghost predicate Submap<K, V>(a: map<K, V>, b: map<K, V>) {
    forall k :: k in a ==> k in b && b[k] == a[k]
  }

  // j is base plus the entries its longer list names, each new and named once.
  ghost predicate Extends<K(!new), V>(base: Journal<K, V>, j: Journal<K, V>) {
    && base.pending <= j.pending && Submap(base.table, j.table)
    && (forall k :: k in j.table <==> k in base.table || k in j.pending[|base.pending|..])
    && (forall k :: k in j.pending[|base.pending|..] ==> k !in base.table)
    && (forall i, l :: |base.pending| <= i < l < |j.pending| ==> j.pending[i] != j.pending[l])
  }

  lemma ExtendsSelf<K(!new), V>(j: Journal<K, V>)
    ensures Extends(j, j)
  {}

  lemma ExtendsAdd<K(!new), V>(base: Journal<K, V>, j: Journal<K, V>, k: K, v: V)
    requires Extends(base, j)
    ensures Extends(base, Add(j, k, v)) && |j.pending| <= |Add(j, k, v).pending|
  {
    if k !in j.table {
      var r, n := Add(j, k, v), |base.pending|;
      assert r.pending[n..] == j.pending[n..] + [k];
      forall i | n <= i < |j.pending| ensures r.pending[i] != k {
        assert r.pending[i] == j.pending[n..][i - n];
      }
    }
  }

  lemma ExtendsUndo<K(!new), V>(base: Journal<K, V>, j: Journal<K, V>, n: int)
    requires Extends(base, j) && |base.pending| <= n <= |j.pending|
    ensures Extends(base, Undo(j, n))
  {
    var r, m := Undo(j, n), |base.pending|;
    assert j.pending[m..] == j.pending[m..n] + j.pending[n..];
    assert r.pending[m..] == j.pending[m..n];
    forall k | k in j.pending[m..n] ensures k !in j.pending[n..] {
      var i :| m <= i < n && j.pending[i] == k;
      assert forall l :: n <= l < |j.pending| ==> j.pending[l] != k;
    }
    forall k | k in j.pending[n..] ensures k !in base.table {
      assert k in j.pending[m..];
    }
  }

  // Undoing to the base list gives the base back, table and list.
  lemma UndoGivesBaseBack<K(!new), V>(base: Journal<K, V>, j: Journal<K, V>)
    requires Extends(base, j)
    ensures Undo(j, |base.pending|) == base
  {
    var r := Undo(j, |base.pending|);
    assert r.table.Keys == base.table.Keys;
    assert r.pending == base.pending;
  }

  // ---- The whole of the tables ----

  datatype CheckPoint = CheckPoint(strings: nat, messages: nat, fileTables: nat, allocations: nat,
                                   symbols: nat, files: nat, extensions: nat)

  datatype State = State(strings: seq<Id>, messages: seq<Id>, fileTables: seq<Id>, allocations: seq<Id>,
                         symbols: Journal<string, Id>, files: Journal<string, Id>, extensions: Journal<(Id, int), Id>,
                         checkpoints: seq<CheckPoint>)

  datatype Op = AddSymbol(name: string, symbol: Id) | AddFile(name: string, file: Id)
              | AddExtension(extendee: Id, number: int, field: Id)
              | AllocateString(id: Id) | AllocateMessage(id: Id) | AllocateFileTables(id: Id) | AllocateBytes(id: Id)
              | AddCheckpoint | ClearLastCheckpoint | RollbackToLastCheckpoint

  function Mark(s: State): CheckPoint {
    CheckPoint(|s.strings|, |s.messages|, |s.fileTables|, |s.allocations|,
               |s.symbols.pending|, |s.files.pending|, |s.extensions.pending|)
  }

  predicate AtMost(a: CheckPoint, b: CheckPoint) {
    a.strings <= b.strings && a.messages <= b.messages &&
    a.fileTables <= b.fileTables && a.allocations <= b.allocations &&
    a.symbols <= b.symbols && a.files <= b.files && a.extensions <= b.extensions
  }

  function Cut(s: State, c: CheckPoint): State
    requires AtMost(c, Mark(s))
  {
    s.(strings := s.strings[..c.strings], messages := s.messages[..c.messages],
       fileTables := s.fileTables[..c.fileTables], allocations := s.allocations[..c.allocations],
       symbols := Undo(s.symbols, c.symbols), files := Undo(s.files, c.files),
       extensions := Undo(s.extensions, c.extensions))
  }

  // Checkpoints are only cleared and rolled back to when there is one, and a rollback finds
  // its lists at least as long as they were.
  predicate Enabled(s: State, op: Op) {
    match op
    case ClearLastCheckpoint => s.checkpoints != []
    case RollbackToLastCheckpoint => s.checkpoints != [] && AtMost(s.checkpoints[|s.checkpoints| - 1], Mark(s))
    case _ => true
  }

  function Apply(s: State, op: Op): State
    requires Enabled(s, op)
  {
    match op
    case AddSymbol(name, symbol) => s.(symbols := Add(s.symbols, name, symbol))
    case AddFile(name, file) => s.(files := Add(s.files, name, file))
    case AddExtension(extendee, number, field) => s.(extensions := Add(s.extensions, (extendee, number), field))
    case AllocateString(id) => s.(strings := s.strings + [id])
    case AllocateMessage(id) => s.(messages := s.messages + [id])
    case AllocateFileTables(id) => s.(fileTables := s.fileTables + [id])
    case AllocateBytes(id) => s.(allocations := s.allocations + [id])
    case AddCheckpoint => s.(checkpoints := s.checkpoints + [Mark(s)])
    case ClearLastCheckpoint =>
      var rest := s.checkpoints[..|s.checkpoints| - 1];
      if rest != [] then s.(checkpoints := rest)
      else s.(checkpoints := [], symbols := s.symbols.(pending := []), files := s.files.(pending := []),
              extensions := s.extensions.(pending := []))
    case RollbackToLastCheckpoint =>
      var n := |s.checkpoints| - 1;
      Cut(s, s.checkpoints[n]).(checkpoints := s.checkpoints[..n])
  }

  predicate Legal(s: State, ops: seq<Op>)
    decreases ops
  {
    ops == [] || (Enabled(s, ops[0]) && Legal(Apply(s, ops[0]), ops[1..]))
  }

  function Run(s: State, ops: seq<Op>): State
    requires Legal(s, ops)
    decreases ops
  {
    if ops == [] then s else Run(Apply(s, ops[0]), ops[1..])
  }

  // Every checkpoint taken during the run is cleared or rolled back within it, and no other.
  predicate WellNested(ops: seq<Op>, depth: nat)
    decreases ops
  {
    if ops == [] then depth == 0
    else match ops[0]
      case AddCheckpoint => WellNested(ops[1..], depth + 1)
      case ClearLastCheckpoint => depth > 0 && WellNested(ops[1..], depth - 1)
      case RollbackToLastCheckpoint => depth > 0 && WellNested(ops[1..], depth - 1)
      case _ => WellNested(ops[1..], depth)
  }

  // ---- A rollback restores everything ----

  ghost predicate Prefixes(base: State, s: State) {
    base.strings <= s.strings && base.messages <= s.messages &&
    base.fileTables <= s.fileTables && base.allocations <= s.allocations
  }

  ghost predicate Grown(base: State, s: State) {
    Prefixes(base, s) && Extends(base.symbols, s.symbols) && Extends(base.files, s.files) &&
    Extends(base.extensions, s.extensions)
  }

  // The marks rise from that of the base to the present lengths.
  ghost predicate Rising(first: CheckPoint, extra: seq<CheckPoint>, last: CheckPoint)
    decreases extra
  {
    if extra == [] then AtMost(first, last)
    else Rising(first, extra[..|extra| - 1], extra[|extra| - 1]) && AtMost(extra[|extra| - 1], last)
  }

  lemma {:induction false} RisingBounds(first: CheckPoint, extra: seq<CheckPoint>, last: CheckPoint)
    requires Rising(first, extra, last)
    ensures AtMost(first, last)
    decreases extra
  {
    if extra != [] { RisingBounds(first, extra[..|extra| - 1], extra[|extra| - 1]); }
  }

  lemma RisingWeaken(first: CheckPoint, extra: seq<CheckPoint>, last: CheckPoint, later: CheckPoint)
    requires Rising(first, extra, last) && AtMost(last, later)
    ensures Rising(first, extra, later)
  {}

  // How an operation changes the number of checkpoints.
  function Rise(op: Op): int {
    if op.AddCheckpoint? then 1 else if op.ClearLastCheckpoint? || op.RollbackToLastCheckpoint? then -1 else 0
  }

  // A state above a checkpoint of base, with further checkpoints extra.
  ghost predicate Above(base: State, s: State, extra: seq<CheckPoint>) {
    Grown(base, s) && s.checkpoints == base.checkpoints + [Mark(base)] + extra && Rising(Mark(base), extra, Mark(s))
  }

  lemma GrownStep(base: State, s: State, op: Op)
    requires Grown(base, s) && !op.AddCheckpoint? && !op.ClearLastCheckpoint? && !op.RollbackToLastCheckpoint?
    ensures Grown(base, Apply(s, op)) && AtMost(Mark(s), Mark(Apply(s, op)))
  {
    match op
    case AddSymbol(name, symbol) => ExtendsAdd(base.symbols, s.symbols, name, symbol);
    case AddFile(name, file) => ExtendsAdd(base.files, s.files, name, file);
    case AddExtension(extendee, number, field) => ExtendsAdd(base.extensions, s.extensions, (extendee, number), field);
    case _ =>
  }

  lemma GrownCut(base: State, s: State, c: CheckPoint)
    requires Grown(base, s) && AtMost(Mark(base), c) && AtMost(c, Mark(s))
    ensures Grown(base, Cut(s, c)) && Mark(Cut(s, c)) == c
  {
    ExtendsUndo(base.symbols, s.symbols, c.symbols);
    ExtendsUndo(base.files, s.files, c.files);
    ExtendsUndo(base.extensions, s.extensions, c.extensions);
  }

  lemma AboveClear(base: State, s: State, extra: seq<CheckPoint>)
    requires Above(base, s, extra) && extra != []
    ensures Above(base, Apply(s, ClearLastCheckpoint), extra[..|extra| - 1])
  {
    var rest := extra[..|extra| - 1];
    RisingWeaken(Mark(base), rest, extra[|extra| - 1], Mark(s));
    assert s.checkpoints[..|s.checkpoints| - 1] == base.checkpoints + [Mark(base)] + rest;
  }

  lemma AboveRollback(base: State, s: State, extra: seq<CheckPoint>)
    requires Above(base, s, extra) && extra != []
    ensures Enabled(s, RollbackToLastCheckpoint)
    ensures Above(base, Apply(s, RollbackToLastCheckpoint), extra[..|extra| - 1])
  {
    var rest, c := extra[..|extra| - 1], extra[|extra| - 1];
    assert s.checkpoints[|s.checkpoints| - 1] == c;
    assert s.checkpoints[..|s.checkpoints| - 1] == base.checkpoints + [Mark(base)] + rest;
    RisingBounds(Mark(base), rest, c);
    GrownCut(base, s, c);
  }

  lemma AboveStep(base: State, s: State, extra: seq<CheckPoint>, op: Op) returns (extra': seq<CheckPoint>)
    requires Above(base, s, extra) && (op.ClearLastCheckpoint? || op.RollbackToLastCheckpoint? ==> extra != [])
    ensures Enabled(s, op) && Above(base, Apply(s, op), extra')
    ensures |extra'| == |extra| + Rise(op)
  {
    match op
    case AddCheckpoint =>
      extra' := extra + [Mark(s)];
      assert extra'[..|extra'| - 1] == extra;
    case ClearLastCheckpoint =>
      extra' := extra[..|extra| - 1];
      AboveClear(base, s, extra);
    case RollbackToLastCheckpoint =>
      extra' := extra[..|extra| - 1];
      AboveRollback(base, s, extra);
    case _ =>
      extra' := extra;
      GrownStep(base, s, op);
      RisingWeaken(Mark(base), extra, Mark(s), Mark(Apply(s, op)));
  }

  lemma {:induction false} AboveRun(base: State, s: State, extra: seq<CheckPoint>, ops: seq<Op>)
    requires Above(base, s, extra) && WellNested(ops, |extra|)
    ensures Legal(s, ops) && Above(base, Run(s, ops), [])
    decreases ops
  {
    if ops != [] {
      var extra' := AboveStep(base, s, extra, ops[0]);
      AboveRun(base, Apply(s, ops[0]), extra', ops[1..]);
    }
  }

  lemma AboveItself(base: State)
    ensures Above(base, Apply(base, AddCheckpoint), [])
  {
    ExtendsSelf(base.symbols);
    ExtendsSelf(base.files);
    ExtendsSelf(base.extensions);
    assert base.checkpoints + [Mark(base)] == base.checkpoints + [Mark(base)] + [];
  }

  // Cutting back to the mark of the base leaves the base, but for the checkpoints.
  lemma CutGivesBaseBack(base: State, s: State)
    requires Grown(base, s) && AtMost(Mark(base), Mark(s))
    ensures Cut(s, Mark(base)) == base.(checkpoints := s.checkpoints)
  {
    UndoGivesBaseBack(base.symbols, s.symbols);
    UndoGivesBaseBack(base.files, s.files);
    UndoGivesBaseBack(base.extensions, s.extensions);
  }

  // Over every well-nested run, rolling back to a checkpoint restores the tables, the pending
  // lists, the allocation lists and the outer checkpoints exactly as they were.
  lemma RollbackRestores(base: State, ops: seq<Op>)
    requires WellNested(ops, 0)
    ensures var s := Apply(base, AddCheckpoint);
            Legal(s, ops) && Enabled(Run(s, ops), RollbackToLastCheckpoint) &&
            Apply(Run(s, ops), RollbackToLastCheckpoint) == base
  {
    var s := Apply(base, AddCheckpoint);
    AboveItself(base);
    AboveRun(base, s, [], ops);
    var e := Run(s, ops);
    assert e.checkpoints == base.checkpoints + [Mark(base)];
    CutGivesBaseBack(base, e);
  }

  // ---- What is committed stays ----

  // Nothing the base holds can be undone from position n on.
  ghost predicate Safe<K, V>(base: map<K, V>, j: Journal<K, V>, n: int) {
    Submap(base, j.table) && forall i :: 0 <= n <= i < |j.pending| ==> j.pending[i] !in base
  }

  lemma SafeUndo<K, V>(base: map<K, V>, j: Journal<K, V>, n: int, m: int)
    requires Safe(base, j, n) && 0 <= n <= m <= |j.pending|
    ensures Safe(base, Undo(j, m), n)
  {
    forall k | k in j.pending[m..] ensures k !in base {
      var i :| m <= i < |j.pending| && j.pending[i] == k;
    }
  }

  // No allocation of the base is at or behind the mark.
  predicate Behind(base: State, c: CheckPoint) {
    |base.strings| <= c.strings && |base.messages| <= c.messages &&
    |base.fileTables| <= c.fileTables && |base.allocations| <= c.allocations
  }

  // From the oldest checkpoint taken since, or the end, on.
  ghost predicate Guarded(base: State, s: State, extra: seq<CheckPoint>) {
    var c := if extra == [] then Mark(s) else extra[0];
    && Prefixes(base, s) && Behind(base, c)
    && Safe(base.symbols.table, s.symbols, c.symbols)
    && Safe(base.files.table, s.files, c.files)
    && Safe(base.extensions.table, s.extensions, c.extensions)
    && |s.checkpoints| >= |extra| && s.checkpoints[|s.checkpoints| - |extra|..] == extra
    && (extra != [] ==> Rising(extra[0], extra[1..], Mark(s)))
  }

  lemma GuardedAdd(base: State, s: State, extra: seq<CheckPoint>, op: Op)
    requires Guarded(base, s, extra) && !op.AddCheckpoint? && !op.ClearLastCheckpoint? && !op.RollbackToLastCheckpoint?
    ensures Guarded(base, Apply(s, op), extra)
  {
    if extra != [] {
      RisingBounds(extra[0], extra[1..], Mark(s));
      RisingWeaken(extra[0], extra[1..], Mark(s), Mark(Apply(s, op)));
    }
  }

  lemma GuardedMark(base: State, s: State, extra: seq<CheckPoint>)
    requires Guarded(base, s, extra)
    ensures Guarded(base, Apply(s, AddCheckpoint), extra + [Mark(s)])
  {
    var extra' := extra + [Mark(s)];
    if extra != [] {
      assert extra'[1..] == extra[1..] + [Mark(s)] && extra'[1..][..|extra| - 1] == extra[1..];
    }
  }

  lemma GuardedClear(base: State, s: State, extra: seq<CheckPoint>)
    requires Guarded(base, s, extra) && extra != []
    ensures Guarded(base, Apply(s, ClearLastCheckpoint), extra[..|extra| - 1])
  {
    var n := |extra| - 1;
    if n > 0 {
      assert extra[1..][..n - 1] == extra[..n][1..];
      RisingWeaken(extra[0], extra[..n][1..], extra[n], Mark(s));
    }
  }

  lemma GuardedRollback(base: State, s: State, extra: seq<CheckPoint>)
    requires Guarded(base, s, extra) && extra != [] && Enabled(s, RollbackToLastCheckpoint)
    ensures Guarded(base, Apply(s, RollbackToLastCheckpoint), extra[..|extra| - 1])
  {
    var n := |extra| - 1;
    var c := extra[n];
    assert s.checkpoints[|s.checkpoints| - 1] == c;
    if n > 0 {
      assert extra[1..][..n - 1] == extra[..n][1..];
      RisingBounds(extra[0], extra[..n][1..], c);
    }
    SafeUndo(base.symbols.table, s.symbols, extra[0].symbols, c.symbols);
    SafeUndo(base.files.table, s.files, extra[0].files, c.files);
    SafeUndo(base.extensions.table, s.extensions, extra[0].extensions, c.extensions);
  }

  lemma GuardedStep(base: State, s: State, extra: seq<CheckPoint>, op: Op) returns (extra': seq<CheckPoint>)
    requires Guarded(base, s, extra) && Enabled(s, op) &&
             (op.ClearLastCheckpoint? || op.RollbackToLastCheckpoint? ==> extra != [])
    ensures Guarded(base, Apply(s, op), extra')
    ensures |extra'| == |extra| + Rise(op)
  {
    match op
    case AddCheckpoint =>
      extra' := extra + [Mark(s)];
      GuardedMark(base, s, extra);
    case ClearLastCheckpoint =>
      extra' := extra[..|extra| - 1];
      GuardedClear(base, s, extra);
    case RollbackToLastCheckpoint =>
      extra' := extra[..|extra| - 1];
      GuardedRollback(base, s, extra);
    case _ =>
      extra' := extra;
      GuardedAdd(base, s, extra, op);
  }

  // The run never drops below the checkpoints it started with.
  predicate StaysAbove(ops: seq<Op>, depth: nat)
    decreases ops
  {
    ops == [] ||
    match ops[0]
    case AddCheckpoint => StaysAbove(ops[1..], depth + 1)
    case ClearLastCheckpoint => depth > 0 && StaysAbove(ops[1..], depth - 1)
    case RollbackToLastCheckpoint => depth > 0 && StaysAbove(ops[1..], depth - 1)
    case _ => StaysAbove(ops[1..], depth)
  }

  // Every table entry and every allocation is still there, in its place.
  ghost predicate Keeps(base: State, s: State) {
    Prefixes(base, s) && Submap(base.symbols.table, s.symbols.table) && Submap(base.files.table, s.files.table) &&
    Submap(base.extensions.table, s.extensions.table)
  }

  lemma {:induction false} GuardedRun(base: State, s: State, extra: seq<CheckPoint>, ops: seq<Op>)
    requires Guarded(base, s, extra) && Legal(s, ops) && StaysAbove(ops, |extra|)
    ensures Keeps(base, Run(s, ops))
    decreases ops
  {
    if ops != [] {
      var extra' := GuardedStep(base, s, extra, ops[0]);
      GuardedRun(base, Apply(s, ops[0]), extra', ops[1..]);
    }
  }

  // Nothing is removed by any run that leaves the starting checkpoints alone.
  lemma TablesOnlyGrow(base: State, ops: seq<Op>)
    requires Legal(base, ops) && StaysAbove(ops, 0)
    ensures Keeps(base, Run(base, ops))
  {
    GuardedRun(base, base, [], ops);
  }

  lemma {:induction false} LegalStaysAbove(s: State, ops: seq<Op>)
    requires Legal(s, ops)
    ensures StaysAbove(ops, |s.checkpoints|)
    decreases ops
  {
    if ops != [] { LegalStaysAbove(Apply(s, ops[0]), ops[1..]); }
  }

  // Once the last checkpoint has been cleared, what is in the tables stays for every
  // possible continuation.
  lemma CommittedStays(base: State, ops: seq<Op>)
    requires base.checkpoints == [] && Legal(base, ops)
    ensures Keeps(base, Run(base, ops))
  {
    LegalStaysAbove(base, ops);
    TablesOnlyGrow(base, ops);
  }

  // ---- The class ----

  // The erasing loop of a rollback, and the resize after it.
  method UndoFrom<K(==), V>(j: Journal<K, V>, n: nat) returns (r: Journal<K, V>)
    requires n <= |j.pending|
    ensures r == Undo(j, n)
  {
    var table, keys := j.table, j.pending;
    for i := n to |keys|
      invariant table == j.table - Keys(keys[n..i])
    {
      assert keys[n..i + 1] == keys[n..i] + [keys[i]];
      assert Keys(keys[n..i + 1]) == Keys(keys[n..i]) + {keys[i]};
      table := table - {keys[i]};
    }
    assert keys[n..|keys|] == keys[n..];
    r := Journal(table, keys[..n]);
  }

  // Each table is kept with the list of its keys added since the oldest checkpoint.
  class Tables {
    var strings: seq<Id>
    var messages: seq<Id>
    var fileTables: seq<Id>
    var allocations: seq<Id>
    var symbols: Journal<string, Id>
    var files: Journal<string, Id>
    var extensions: Journal<(Id, int), Id>
    var checkpoints: seq<CheckPoint>

    function Value(): State
      reads this
    {
      State(strings, messages, fileTables, allocations, symbols, files, extensions, checkpoints)
    }

    method TryAddSymbol(name: string, symbol: Id) returns (ok: bool)
      modifies this`symbols
      ensures Value() == Apply(old(Value()), AddSymbol(name, symbol))
      ensures ok <==> name !in old(symbols).table
      ensures symbols.table == if ok then old(symbols).table[name := symbol] else old(symbols).table
      ensures symbols.pending == old(symbols).pending + if ok then [name] else []
    {
      if name in symbols.table {
        return false;
      }
      symbols := Journal(symbols.table[name := symbol], symbols.pending + [name]);
      return true;
    }

    method TryAddFile(name: string, file: Id) returns (ok: bool)
      modifies this`files
      ensures Value() == Apply(old(Value()), AddFile(name, file))
      ensures ok <==> name !in old(files).table
      ensures files.table == if ok then old(files).table[name := file] else old(files).table
      ensures files.pending == old(files).pending + if ok then [name] else []
    {
      if name in files.table {
        return false;
      }
      files := Journal(files.table[name := file], files.pending + [name]);
      return true;
    }

    method TryAddExtension(extendee: Id, number: int, field: Id) returns (ok: bool)
      modifies this`extensions
      ensures Value() == Apply(old(Value()), AddExtension(extendee, number, field))
      ensures ok <==> (extendee, number) !in old(extensions).table
      ensures extensions.table ==
              if ok then old(extensions).table[(extendee, number) := field] else old(extensions).table
      ensures extensions.pending == old(extensions).pending + if ok then [(extendee, number)] else []
    {
      var key := (extendee, number);
      if key in extensions.table {
        return false;
      }
      extensions := Journal(extensions.table[key := field], extensions.pending + [key]);
      return true;
    }

    method PushCheckpoint()
      modifies this`checkpoints
      ensures Value() == Apply(old(Value()), AddCheckpoint)
    {
      checkpoints := checkpoints + [Mark(Value())];
    }

    method ClearCheckpoint()
      requires Enabled(Value(), ClearLastCheckpoint)
      modifies this
      ensures Value() == Apply(old(Value()), ClearLastCheckpoint)
      ensures checkpoints == old(checkpoints)[..|old(checkpoints)| - 1]
      ensures symbols.table == old(symbols).table && files.table == old(files).table
      ensures extensions.table == old(extensions).table
      ensures checkpoints == [] ==> symbols.pending == [] && files.pending == [] && extensions.pending == []
      ensures checkpoints != [] ==> symbols == old(symbols) && files == old(files) && extensions == old(extensions)
    {
      checkpoints := checkpoints[..|checkpoints| - 1];
      if checkpoints == [] {
        symbols := symbols.(pending := []);
        files := files.(pending := []);
        extensions := extensions.(pending := []);
      }
    }

    method Rollback()
      requires Enabled(Value(), RollbackToLastCheckpoint)
      modifies this
      ensures Value() == Apply(old(Value()), RollbackToLastCheckpoint)
    {
      var n := |checkpoints| - 1;
      var c := checkpoints[n];
      symbols := UndoFrom(symbols, c.symbols);
      files := UndoFrom(files, c.files);
      extensions := UndoFrom(extensions, c.extensions);
      strings := strings[..c.strings];
      messages := messages[..c.messages];
      fileTables := fileTables[..c.fileTables];
      allocations := allocations[..c.allocations];
      checkpoints := checkpoints[..n];
    }

    // One operation of the state machine; the allocating ones note what they allocate.
    method Do(op: Op)
      requires Enabled(Value(), op)
      modifies this
      ensures Value() == Apply(old(Value()), op)
    {
      match op {
        case AddSymbol(name, symbol) => var _ := TryAddSymbol(name, symbol);
        case AddFile(name, file) => var _ := TryAddFile(name, file);
        case AddExtension(extendee, number, field) => var _ := TryAddExtension(extendee, number, field);
        case AllocateString(id) => strings := strings + [id];
        case AllocateMessage(id) => messages := messages + [id];
        case AllocateFileTables(id) => fileTables := fileTables + [id];
        case AllocateBytes(id) => allocations := allocations + [id];
        case AddCheckpoint => PushCheckpoint();
        case ClearLastCheckpoint => ClearCheckpoint();
        case RollbackToLastCheckpoint => Rollback();
      }
    }

    method DoAll(ops: seq<Op>)
      requires Legal(Value(), ops)
      modifies this
      ensures Value() == Run(old(Value()), ops)
    {
      assert ops[0..] == ops;
      for i := 0 to |ops|
        invariant Legal(Value(), ops[i..]) && Run(Value(), ops[i..]) == Run(old(Value()), ops)
      {
        assert ops[i..][1..] == ops[i + 1..];
        Do(ops[i]);
      }
    }

    // A checkpoint, any well-nested run and a rollback leave the object as it was.
    method TryAndRollBack(ops: seq<Op>)
      requires WellNested(ops, 0)
      modifies this
      ensures Value() == old(Value())
    {
      RollbackRestores(Value(), ops);
      PushCheckpoint();
      DoAll(ops);
      Rollback();
    }

    // With no checkpoint left, whatever is done next keeps every entry and allocation.
    method DoAfterCommit(ops: seq<Op>)
      requires checkpoints == [] && Legal(Value(), ops)
      modifies this
      ensures Keeps(old(Value()), Value())
    {
      CommittedStays(Value(), ops);
      DoAll(ops);
    }
  }
}
