// What a room does, on values: its state with the redundant counters and flags, its handlers,
// and the laws they keep. A send that breaks a connection removes its player from inside the
// loop that is sending, so broadcasts, departures and the start of the game call one another.
module RoomSpec {
  import opened Common

  const MAX_PLAYER_CNT := 8
  const MAX_LOADING_TIME_SECOND := 180

  datatype Status = Waiting | Loading | InGame
  datatype AddResult = NoWaiting | Full | Succeed

  // What the room tells its players and its synchroniser.
  datatype Kind = GameLoading | GameStart | PlayerExit(player: int) | RoomDetail | Frame
  datatype Action = Sent(user: int, kind: Kind) | SynInit | SynExit(player: int) | SynRun

  // fails says of each send to come whether it breaks the connection; past its end none does.
  // Two marks record history: early, that a start has begun while someone online had not
  // loaded; and mixed, that a send to a player who had not loaded has failed while the
  // departure of a loaded one was being told.
  datatype State = State(players: seq<int>, teams: seq<int>, online: seq<bool>, loaded: seq<bool>, cnt: int,
                         onlineCnt: int, loadedCnt: int, since: int, teamMode: int, status: Status,
                         fails: seq<bool>, log: seq<Action>, early: bool, mixed: bool)

  // ---- Counting flags ----

  function Count(b: seq<bool>): nat {
    if b == [] then 0 else Count(b[1..]) + if b[0] then 1 else 0
  }

  // How many flags of a are set that are not set in b.
  function CountDiff(a: seq<bool>, b: seq<bool>): nat
    requires |a| == |b|
  {
    if a == [] then 0 else CountDiff(a[1..], b[1..]) + if a[0] && !b[0] then 1 else 0
  }

  lemma {:induction false} CountUpdate(b: seq<bool>, i: int, v: bool)
    requires 0 <= i < |b|
    ensures Count(b[i := v]) == Count(b) - (if b[i] then 1 else 0) + (if v then 1 else 0)
  {
    if i > 0 {
      CountUpdate(b[1..], i - 1, v);
      assert b[i := v][1..] == b[1..][i - 1 := v];
    } else {
      assert b[i := v][1..] == b[1..];
    }
  }

  lemma {:induction false} CountNone(b: seq<bool>)
    requires forall i :: 0 <= i < |b| ==> !b[i]
    ensures Count(b) == 0
  {
    if b != [] { CountNone(b[1..]); }
  }

  lemma {:induction false} CountSome(b: seq<bool>, i: int)
    requires 0 <= i < |b| && b[i]
    ensures Count(b) > 0
  {
    if i > 0 { CountSome(b[1..], i - 1); }
  }

  // The two counts compare as the two differences do.
  lemma {:induction false} CountsCompare(a: seq<bool>, b: seq<bool>)
    requires |a| == |b|
    ensures Count(a) + CountDiff(b, a) == Count(b) + CountDiff(a, b)
  {
    if a != [] { CountsCompare(a[1..], b[1..]); }
  }

  lemma {:induction false} DiffFrom(a: seq<bool>, b: seq<bool>, i: int)
    requires |a| == |b| && 0 <= i < |a| && a[i] && !b[i]
    ensures CountDiff(a, b) > 0
  {
    if i > 0 { DiffFrom(a[1..], b[1..], i - 1); }
  }

  lemma {:induction false} DiffAt(a: seq<bool>, b: seq<bool>) returns (i: int)
    requires |a| == |b| && CountDiff(a, b) > 0
    ensures 0 <= i < |a| && a[i] && !b[i]
  {
    if a[0] && !b[0] {
      i := 0;
    } else {
      i := DiffAt(a[1..], b[1..]);
      i := i + 1;
    }
  }

  lemma {:induction false} SameDiff(a: seq<bool>, b: seq<bool>, c: seq<bool>, d: seq<bool>)
    requires |a| == |b| == |c| == |d|
    requires forall i :: 0 <= i < |a| ==> ((a[i] && !b[i]) <==> (c[i] && !d[i]))
    ensures CountDiff(a, b) == CountDiff(c, d)
  {
    if a != [] {
      assert forall i :: 0 <= i < |a| - 1 ==> a[1..][i] == a[i + 1] && b[1..][i] == b[i + 1];
      assert forall i :: 0 <= i < |a| - 1 ==> c[1..][i] == c[i + 1] && d[1..][i] == d[i + 1];
      SameDiff(a[1..], b[1..], c[1..], d[1..]);
    }
  }

  function Starts(log: seq<Action>): nat {
    if log == [] then 0 else Starts(log[..|log| - 1]) + if log[|log| - 1].SynInit? then 1 else 0
  }

  lemma StartsAppend(log: seq<Action>, a: Action)
    ensures Starts(log + [a]) == Starts(log) + if a.SynInit? then 1 else 0
  {
    assert (log + [a])[..|log|] == log;
  }

  // ---- The state ----

  // Slots 1 to cnt are in use, and in a waiting room everyone in them is online.
  predicate Shaped(s: State) {
    && |s.players| == |s.teams| == |s.online| == |s.loaded| == MAX_PLAYER_CNT + 1
    && 0 <= s.cnt <= MAX_PLAYER_CNT
    && (s.status.Waiting? ==> forall k :: 1 <= k <= s.cnt ==> s.online[k])
  }

  // Online players who have not loaded, and loaded players who are gone while their departure
  // is still being told.
  function Unloaded(s: State): nat
    requires Shaped(s)
  {
    CountDiff(s.online, s.loaded)
  }

  function Leaving(s: State): nat
    requires Shaped(s)
  {
    CountDiff(s.loaded, s.online)
  }

  predicate Waits(s: State)
    requires Shaped(s)
  {
    Unloaded(s) > 0
  }

  // GetPlayerID from slot i on: the first online slot of a user, or 0.
  function Find(s: State, user: int, i: int): (pos: int)
    requires Shaped(s) && 1 <= i
    ensures pos == 0 ==> forall k :: i <= k <= s.cnt ==> !(s.online[k] && s.players[k] == user)
    ensures pos != 0 ==> i <= pos <= s.cnt && s.online[pos] && s.players[pos] == user
    decreases s.cnt - i
  {
    if i > s.cnt then 0
    else if s.online[i] && s.players[i] == user then i
    else Find(s, user, i + 1)
  }

  // A row whose slots after pos, up to n, move down by one.
  function Shifted<T>(row: seq<T>, pos: int, n: int): (r: seq<T>)
    requires 1 <= pos <= n < |row|
    ensures |r| == |row|
    ensures forall k :: 0 <= k < |row| ==> r[k] == row[if pos <= k < n then k + 1 else k]
  {
    row[..pos] + row[pos + 1..n + 1] + row[n..]
  }

  function Off(s: State, pos: int): (r: State)
    requires Shaped(s) && !s.status.Waiting? && 1 <= pos <= s.cnt && s.online[pos]
    ensures Shaped(r) && Count(r.online) == Count(s.online) - 1
  {
    CountUpdate(s.online, pos, false);
    s.(online := s.online[pos := false], onlineCnt := s.onlineCnt - 1)
  }

  // A waiting room closes the gap; only team mode 2 moves the teams along.
  function Removed(s: State, pos: int): (r: State)
    requires Shaped(s) && s.status.Waiting? && 1 <= pos <= s.cnt
    ensures Shaped(r) && Count(r.online) == Count(s.online) - 1
  {
    CountUpdate(s.online, s.cnt, false);
    s.(players := Shifted(s.players, pos, s.cnt),
       teams := if s.teamMode == 2 then Shifted(s.teams, pos, s.cnt) else s.teams,
       online := s.online[s.cnt := false], cnt := s.cnt - 1, onlineCnt := s.onlineCnt - 1)
  }

  // One send: what it leaves of fails, and the note of it.
  function Attempt(s: State, i: int, kind: Kind): State
    requires Shaped(s) && 1 <= i <= s.cnt
  {
    s.(log := s.log + [Sent(s.players[i], kind)], fails := if s.fails == [] then [] else s.fails[1..],
       mixed := s.mixed || (Fails(s) && s.status.Loading? && !s.loaded[i] && Leaving(s) > 0))
  }

  predicate Fails(s: State) { s.fails != [] && s.fails[0] }

  // ---- Broadcast, departure and start ----

  // SendMessageToEveryone from slot i on. A broken connection removes its player at once.
  function Everyone(s: State, kind: Kind, i: int): (r: State)
    requires Shaped(s) && 1 <= i
    ensures Shaped(r) && Count(r.online) <= Count(s.online)
    decreases Count(s.online), 2, MAX_PLAYER_CNT + 1 - i
  {
    if i > s.cnt then s else Everyone(AfterSlot(s, kind, i), kind, i + 1)
  }

  // One pass of its loop.
  function AfterSlot(s: State, kind: Kind, i: int): (r: State)
    requires Shaped(s) && 1 <= i <= s.cnt
    ensures Shaped(r) && Count(r.online) <= Count(s.online)
    decreases Count(s.online), 1, 0
  {
    if !s.online[i] then s
    else if Fails(s) then Delete(Attempt(s, i, kind), s.players[i])
    else Attempt(s, i, kind)
  }

  // DeletePlayer.
  function Delete(s: State, user: int): (r: State)
    requires Shaped(s)
    ensures Shaped(r) && Count(r.online) <= Count(s.online)
    ensures Find(s, user, 1) != 0 ==> Count(r.online) < Count(s.online)
    decreases Count(s.online), 0, 0
  {
    var pos := Find(s, user, 1);
    if pos == 0 then s
    else
      match s.status
      case Waiting => Everyone(Removed(s, pos), RoomDetail, 1)
      case Loading => Departed(Everyone(Off(s, pos), PlayerExit(pos), 1), pos)
      case InGame => var r := Off(s, pos); r.(log := s.log + [SynExit(pos)])
  }

  // The rest of a departure from a loading room, once everyone has been told.
  function Departed(s: State, pos: int): (r: State)
    requires Shaped(s) && 1 <= pos <= MAX_PLAYER_CNT
    ensures Shaped(r) && Count(r.online) <= Count(s.online)
    decreases Count(s.online), 4, 0
  {
    if s.loaded[pos] then s.(loaded := s.loaded[pos := false], loadedCnt := s.loadedCnt - 1)
    else if s.loadedCnt >= s.onlineCnt then Start(s)
    else s
  }

  // SendGameStart.
  function Start(s: State): (r: State)
    requires Shaped(s)
    ensures Shaped(r) && Count(r.online) <= Count(s.online)
    decreases Count(s.online), 3, 0
  {
    if !s.status.Loading? then s
    else
      var r := Everyone(s.(early := s.early || Waits(s)), GameStart, 1);
      r.(log := r.log + [SynInit], status := InGame)
  }

  // ---- What every step keeps ----

  // The counters equal the counts of their flags, no user is in two slots, the game has started
  // exactly if the room is in game, and more than once only if a start was early.
  ghost predicate Core(s: State) {
    && Shaped(s)
    && !s.online[0] && (forall k :: s.cnt < k <= MAX_PLAYER_CNT ==> !s.online[k])
    && s.onlineCnt == Count(s.online)
    && (!s.status.Waiting? ==> s.loadedCnt == Count(s.loaded))
    && (forall i, j :: 1 <= i < j <= s.cnt ==> s.players[i] != s.players[j])
    && (s.status.InGame? <==> Starts(s.log) > 0) && (Starts(s.log) > 1 ==> s.early)
  }

  function Rank(s: Status): int {
    match s case Waiting => 1 case Loading => 2 case InGame => 3
  }

  function Users(s: State): set<int>
    requires Shaped(s)
  {
    set k | 1 <= k <= s.cnt :: s.players[k]
  }

  // No one comes back online, and a flag changes only as its player leaves.
  ghost predicate Shrinks(s: State, r: State)
    requires Shaped(s) && Shaped(r)
  {
    && r.players == s.players && r.teams == s.teams && r.cnt == s.cnt
    && (forall k :: 0 <= k <= MAX_PLAYER_CNT && r.online[k] ==> s.online[k])
    && (forall k :: 0 <= k <= MAX_PLAYER_CNT && (r.online[k] || !s.online[k]) ==> r.loaded[k] == s.loaded[k])
    && (r.status.Loading? ==> forall k :: 0 <= k <= MAX_PLAYER_CNT && s.online[k] && !r.online[k] ==> !r.loaded[k])
  }

  // What a broadcast, a departure or a start may do to a room: the status never goes back, and
  // a waiting room keeps waiting.
  ghost predicate Advances(s: State, r: State)
    requires Core(s)
  {
    && Core(r) && Rank(s.status) <= Rank(r.status) && (s.status.Waiting? ==> r.status.Waiting?)
    && r.teamMode == s.teamMode && r.since == s.since && s.log <= r.log && Users(r) <= Users(s)
    && (s.early ==> r.early) && (s.mixed ==> r.mixed)
    && (!s.status.Waiting? ==> Shrinks(s, r))
  }

  // And between these steps no start is missed: a loading room that waits on someone either
  // still does or has started.
  ghost predicate Evolves(s: State, r: State)
    requires Core(s)
  {
    Advances(s, r) && (s.status.Loading? && Waits(s) && r.status.Loading? ==> Waits(r))
  }

  // Where no one online is unloaded, a departure neither starts the game nor changes that.
  ghost predicate Calm(s: State, r: State)
    requires Shaped(s) && Shaped(r)
  {
    s.status.Loading? && !Waits(s) ==>
      r.status.Loading? && !Waits(r) && r.early == s.early && Starts(r.log) == Starts(s.log)
  }

  lemma AdvancesTrans(a: State, b: State, c: State)
    requires Core(a) && Advances(a, b) && Advances(b, c)
    ensures Advances(a, c)
  {}

  lemma EvolvesTrans(a: State, b: State, c: State)
    requires Core(a) && Evolves(a, b) && Evolves(b, c)
    ensures Evolves(a, c)
  {
    AdvancesTrans(a, b, c);
  }

  ghost predicate Steps(s: State, r: State)
    requires Core(s)
  {
    Evolves(s, r) && Calm(s, r)
  }

  lemma StepsTrans(a: State, b: State, c: State)
    requires Core(a) && Steps(a, b) && Steps(b, c)
    ensures Steps(a, c)
  {
    EvolvesTrans(a, b, c);
  }

  lemma AttemptEvolves(s: State, i: int, kind: Kind)
    requires Core(s) && 1 <= i <= s.cnt
    ensures Steps(s, Attempt(s, i, kind))
  {
    StartsAppend(s.log, Sent(s.players[i], kind));
  }

  lemma {:induction false} EveryoneEvolves(s: State, kind: Kind, i: int)
    requires Core(s) && 1 <= i
    ensures Steps(s, Everyone(s, kind, i))
    decreases Count(s.online), 2, MAX_PLAYER_CNT + 1 - i
  {
    if i <= s.cnt {
      var n := AfterSlot(s, kind, i);
      SlotEvolves(s, kind, i);
      EveryoneEvolves(n, kind, i + 1);
      StepsTrans(s, n, Everyone(n, kind, i + 1));
    }
  }

  lemma {:induction false} SlotEvolves(s: State, kind: Kind, i: int)
    requires Core(s) && 1 <= i <= s.cnt
    ensures Steps(s, AfterSlot(s, kind, i))
    decreases Count(s.online), 1, 0
  {
    if s.online[i] {
      var a := Attempt(s, i, kind);
      AttemptEvolves(s, i, kind);
      if Fails(s) {
        DeleteEvolves(a, s.players[i]);
        StepsTrans(s, a, Delete(a, s.players[i]));
      }
    }
  }

  lemma {:induction false} DeleteEvolves(s: State, user: int)
    requires Core(s)
    ensures Steps(s, Delete(s, user))
    decreases Count(s.online), 0, 0
  {
    var pos := Find(s, user, 1);
    if pos != 0 {
      match s.status
      case Waiting =>
        var r := Removed(s, pos);
        RemovedEvolves(s, pos);
        EveryoneEvolves(r, RoomDetail, 1);
        StepsTrans(s, r, Everyone(r, RoomDetail, 1));
      case Loading =>
        OffIsCore(s, pos);
        EveryoneEvolves(Off(s, pos), PlayerExit(pos), 1);
        DepartedEvolves(s, pos, Everyone(Off(s, pos), PlayerExit(pos), 1));
      case InGame => LeftInGame(s, pos);
    }
  }

  lemma OffIsCore(s: State, pos: int)
    requires Core(s) && !s.status.Waiting? && 1 <= pos <= s.cnt && s.online[pos]
    ensures Core(Off(s, pos))
  {
    CountUpdate(s.online, pos, false);
  }

  lemma RemovedEvolves(s: State, pos: int)
    requires Core(s) && s.status.Waiting? && 1 <= pos <= s.cnt
    ensures Steps(s, Removed(s, pos))
  {
    CountUpdate(s.online, s.cnt, false);
  }

  lemma LeftInGame(s: State, pos: int)
    requires Core(s) && s.status.InGame? && 1 <= pos <= s.cnt && s.online[pos]
    ensures var r := Off(s, pos); Steps(s, r.(log := s.log + [SynExit(pos)]))
  {
    OffIsCore(s, pos);
    StartsAppend(s.log, SynExit(pos));
  }

  // The state in the middle of the departure of a player, everyone told.
  ghost predicate Told(s: State, pos: int, e: State) {
    && Core(s) && s.status.Loading? && 1 <= pos <= s.cnt && s.online[pos]
    && Core(Off(s, pos)) && Steps(Off(s, pos), e) && Count(e.online) < Count(s.online)
  }

  lemma {:induction false} DepartedEvolves(s: State, pos: int, e: State)
    requires Told(s, pos, e)
    ensures Steps(s, Departed(e, pos))
    decreases Count(e.online), 4, 0
  {
    assert e.loaded[pos] == s.loaded[pos];
    if e.loaded[pos] {
      LoadedLeaves(s, pos, e);
    } else {
      UnloadedLeaves(s, pos, e);
      if e.loadedCnt >= e.onlineCnt && e.status.Loading? {
        StartAdvances(e);
        AdvancesTrans(s, e, Start(e));
      }
    }
  }

  lemma LoadedLeaves(s: State, pos: int, e: State)
    requires Told(s, pos, e) && s.loaded[pos] && e.loaded[pos]
    ensures Steps(s, Departed(e, pos))
  {
    var o, r := Off(s, pos), Departed(e, pos);
    CountUpdate(e.loaded, pos, false);
    SameDiff(s.online, s.loaded, o.online, o.loaded);
    SameDiff(e.online, e.loaded, r.online, r.loaded);
  }

  lemma UnloadedLeaves(s: State, pos: int, e: State)
    requires Told(s, pos, e) && !s.loaded[pos] && !e.loaded[pos]
    ensures Advances(s, e) && Waits(s) && (e.status.Loading? && e.loadedCnt < e.onlineCnt ==> Waits(e))
  {
    DiffFrom(s.online, s.loaded, pos);
    CountsCompare(e.online, e.loaded);
  }

  // A start leaves the room in game. If everyone online had loaded it is the only one; if not,
  // it is marked early.
  lemma {:induction false} StartAdvances(s: State)
    requires Core(s) && s.status.Loading?
    ensures Advances(s, Start(s)) && Start(s).status.InGame?
    ensures if Waits(s) then Start(s).early else Start(s).early == s.early && Starts(Start(s).log) == 1
    decreases Count(s.online), 3, 0
  {
    var b := s.(early := s.early || Waits(s));
    EveryoneEvolves(b, GameStart, 1);
    StartEnds(s, Everyone(b, GameStart, 1));
  }

  lemma StartEnds(s: State, e: State)
    requires Core(s) && s.status.Loading?
    requires var b := s.(early := s.early || Waits(s)); Core(b) && Steps(b, e)
    ensures var r := e.(log := e.log + [SynInit], status := InGame);
            Advances(s, r) && Starts(r.log) == Starts(e.log) + 1
  {
    StartsAppend(e.log, SynInit);
  }

  // ---- When a start is early ----

  // The counters compare as the players still loading and the loaded ones still leaving do.
  lemma CountersExactly(s: State)
    requires Core(s) && s.status.Loading?
    ensures s.loadedCnt >= s.onlineCnt <==> Unloaded(s) <= Leaving(s)
  {
    CountsCompare(s.online, s.loaded);
  }

  lemma LeavingStays(s: State, e: State)
    requires Shaped(s) && Shaped(e) && Shrinks(s, e) && e.status.Loading?
    ensures Leaving(e) == Leaving(s)
  {
    SameDiff(s.loaded, s.online, e.loaded, e.online);
  }

  // The departure of a player who has not loaded starts the game exactly when those online who
  // have not loaded, once everyone has been told, are no more than the loaded players whose own
  // departure is still being told. The start is early exactly when they are some.
  lemma DepartureExactly(s: State, user: int)
    requires Core(s) && s.status.Loading? && Find(s, user, 1) != 0 && !s.loaded[Find(s, user, 1)]
    ensures var pos := Find(s, user, 1);
            var e, r := Everyone(Off(s, pos), PlayerExit(pos), 1), Delete(s, user);
            if e.status.Loading? then
              && r == (if Unloaded(e) <= Leaving(s) then Start(e) else e)
              && (r.status.InGame? <==> Unloaded(e) <= Leaving(s))
              && (!e.early ==> (r.early <==> 0 < Unloaded(e) <= Leaving(s)))
            else r == e
  {
    var pos := Find(s, user, 1);
    var o := Off(s, pos);
    var e := Everyone(o, PlayerExit(pos), 1);
    OffIsCore(s, pos);
    EveryoneEvolves(o, PlayerExit(pos), 1);
    assert !e.loaded[pos] && Rank(e.status) >= 2;
    if e.status.Loading? {
      LeavingStays(o, e);
      SameDiff(s.loaded, s.online, o.loaded, o.online);
      CountersExactly(e);
      StartAdvances(e);
    }
  }

  // An early start is excused: some send to a player who had not loaded failed while the
  // departure of a loaded one was being told.
  predicate Excused(s: State) { s.early ==> s.mixed }

  lemma {:induction false} EveryoneExcused(s: State, kind: Kind, i: int)
    requires Core(s) && 1 <= i && Excused(s)
    ensures Excused(Everyone(s, kind, i))
    decreases Count(s.online), 2, MAX_PLAYER_CNT + 1 - i
  {
    if i <= s.cnt {
      SlotEvolves(s, kind, i);
      SlotExcused(s, kind, i);
      EveryoneExcused(AfterSlot(s, kind, i), kind, i + 1);
    }
  }

  lemma {:induction false} SlotExcused(s: State, kind: Kind, i: int)
    requires Core(s) && 1 <= i <= s.cnt && Excused(s)
    ensures Excused(AfterSlot(s, kind, i))
    decreases Count(s.online), 1, 0
  {
    if s.online[i] && Fails(s) {
      var a := Attempt(s, i, kind);
      AttemptEvolves(s, i, kind);
      assert Find(a, s.players[i], 1) == i;
      DeleteExcused(a, s.players[i]);
    }
  }

  // The player in slot pos may depart without an unexcused start.
  predicate MayLeave(s: State, pos: int)
    requires Shaped(s) && 0 <= pos <= MAX_PLAYER_CNT
  {
    s.status.Loading? && !s.loaded[pos] && Leaving(s) > 0 ==> s.mixed
  }

  lemma {:induction false} DeleteExcused(s: State, user: int)
    requires Core(s) && Excused(s) && MayLeave(s, Find(s, user, 1))
    ensures Excused(Delete(s, user))
    decreases Count(s.online), 0, 0
  {
    var pos := Find(s, user, 1);
    if pos != 0 {
      match s.status
      case Waiting =>
        RemovedEvolves(s, pos);
        EveryoneExcused(Removed(s, pos), RoomDetail, 1);
      case Loading =>
        var o := Off(s, pos);
        OffIsCore(s, pos);
        EveryoneEvolves(o, PlayerExit(pos), 1);
        EveryoneExcused(o, PlayerExit(pos), 1);
        MayStillLeave(s, pos, Everyone(o, PlayerExit(pos), 1));
        DepartedExcused(Everyone(o, PlayerExit(pos), 1), pos);
      case InGame =>
    }
  }

  lemma MayStillLeave(s: State, pos: int, e: State)
    requires Told(s, pos, e) && MayLeave(s, pos)
    ensures MayLeave(e, pos)
  {
    if e.status.Loading? && !e.loaded[pos] {
      var o := Off(s, pos);
      LeavingStays(o, e);
      SameDiff(s.loaded, s.online, o.loaded, o.online);
    }
  }

  lemma {:induction false} DepartedExcused(s: State, pos: int)
    requires Core(s) && Excused(s) && 1 <= pos <= MAX_PLAYER_CNT && MayLeave(s, pos)
    ensures Excused(Departed(s, pos))
    decreases Count(s.online), 4, 0
  {
    if !s.loaded[pos] && s.loadedCnt >= s.onlineCnt && s.status.Loading? {
      CountersExactly(s);
      StartExcused(s);
    }
  }

  lemma {:induction false} StartExcused(s: State)
    requires Core(s) && Excused(s) && (s.status.Loading? && Waits(s) ==> s.mixed)
    ensures Excused(Start(s))
    decreases Count(s.online), 3, 0
  {
    if s.status.Loading? {
      EveryoneExcused(s.(early := s.early || Waits(s)), GameStart, 1);
    }
  }

  // ---- When no send fails ----

  // The sends of a broadcast from slot i on.
  function SendsFrom(s: State, kind: Kind, i: int): seq<Action>
    requires Shaped(s) && 1 <= i
    decreases s.cnt - i
  {
    if i > s.cnt then []
    else (if s.online[i] then [Sent(s.players[i], kind)] else []) + SendsFrom(s, kind, i + 1)
  }

  function Telling(s: State, kind: Kind): State
    requires Shaped(s)
  {
    s.(log := s.log + SendsFrom(s, kind, 1))
  }

  // A broadcast that goes well reaches everyone online once, in slot order, and does no more.
  lemma {:induction false} QuietEveryone(s: State, kind: Kind, i: int)
    requires Shaped(s) && 1 <= i && s.fails == []
    ensures Everyone(s, kind, i) == s.(log := s.log + SendsFrom(s, kind, i))
    decreases MAX_PLAYER_CNT + 1 - i
  {
    if i > s.cnt {
      assert s.log + [] == s.log;
    } else {
      var a := AfterSlot(s, kind, i);
      QuietSlot(s, kind, i);
      QuietEveryone(a, kind, i + 1);
      SendsDependOnSlots(s, a, kind, i + 1);
      AppendIsAssociative(s.log, if s.online[i] then [Sent(s.players[i], kind)] else [], SendsFrom(s, kind, i + 1));
    }
  }

  lemma QuietSlot(s: State, kind: Kind, i: int)
    requires Shaped(s) && 1 <= i <= s.cnt && s.fails == []
    ensures AfterSlot(s, kind, i) == s.(log := s.log + if s.online[i] then [Sent(s.players[i], kind)] else [])
  {
    assert s.log + [] == s.log;
  }

  lemma {:induction false} SendsDependOnSlots(s: State, t: State, kind: Kind, i: int)
    requires Shaped(s) && Shaped(t) && 1 <= i && s.players == t.players && s.online == t.online && s.cnt == t.cnt
    ensures SendsFrom(s, kind, i) == SendsFrom(t, kind, i)
    decreases s.cnt - i
  {
    if i <= s.cnt { SendsDependOnSlots(s, t, kind, i + 1); }
  }

  // Then a departure takes its player offline and clears the flag, and the rule for starting is
  // as above. With no other departure under way, that is when it leaves only loaded players.
  lemma QuietDeparture(s: State, user: int)
    requires Core(s) && s.status.Loading? && s.fails == [] && Find(s, user, 1) != 0
    ensures var pos, r := Find(s, user, 1), Delete(s, user);
            var e := Telling(Off(s, pos), PlayerExit(pos));
            var starts := !s.loaded[pos] && Unloaded(e) <= Leaving(s);
            && r.online == s.online[pos := false] && r.loaded == s.loaded[pos := false] && r.fails == []
            && r.status == (if starts then InGame else Loading) && r.early == (s.early || (starts && Waits(e)))
            && r.log == e.log + if starts then SendsFrom(e, GameStart, 1) + [SynInit] else []
  {
    var pos := Find(s, user, 1);
    var o := Off(s, pos);
    QuietEveryone(o, PlayerExit(pos), 1);
    if s.loaded[pos] {
      var e := Telling(o, PlayerExit(pos));
      assert e.log + [] == e.log;
    } else {
      OffIsCore(s, pos);
      EveryoneEvolves(o, PlayerExit(pos), 1);
      SameDiff(s.loaded, s.online, o.loaded, o.online);
      assert s.loaded == s.loaded[pos := false];
      QuietDeparted(Telling(o, PlayerExit(pos)), pos);
    }
  }

  lemma QuietDeparted(e: State, pos: int)
    requires Core(e) && e.status.Loading? && e.fails == []
    requires 1 <= pos <= MAX_PLAYER_CNT && !e.loaded[pos]
    ensures var r, starts := Departed(e, pos), Unloaded(e) <= Leaving(e);
            && r.online == e.online && r.loaded == e.loaded && r.fails == []
            && r.status == (if starts then InGame else Loading) && r.early == (e.early || (starts && Waits(e)))
            && r.log == e.log + if starts then SendsFrom(e, GameStart, 1) + [SynInit] else []
  {
    CountersExactly(e);
    if Unloaded(e) <= Leaving(e) {
      var b := e.(early := e.early || Waits(e));
      QuietEveryone(b, GameStart, 1);
      SendsDependOnSlots(e, b, GameStart, 1);
      AppendIsAssociative(e.log, SendsFrom(e, GameStart, 1), [SynInit]);
    } else {
      assert e.log + [] == e.log;
    }
  }

  // With everyone in the room online, the sends go to slots 1, 2, 3 and so on.
  lemma {:induction false} SendsToAll(s: State, kind: Kind, i: int)
    requires Shaped(s) && 1 <= i <= s.cnt + 1 && forall k :: i <= k <= s.cnt ==> s.online[k]
    ensures |SendsFrom(s, kind, i)| == s.cnt + 1 - i
    ensures forall k :: i <= k <= s.cnt ==> SendsFrom(s, kind, i)[k - i] == Sent(s.players[k], kind)
    decreases s.cnt - i
  {
    if i <= s.cnt {
      SendsToAll(s, kind, i + 1);
      var rest := SendsFrom(s, kind, i + 1);
      assert SendsFrom(s, kind, i) == [Sent(s.players[i], kind)] + rest;
      forall k | i <= k <= s.cnt ensures SendsFrom(s, kind, i)[k - i] == Sent(s.players[k], kind) {
        if k > i { assert SendsFrom(s, kind, i)[k - i] == rest[k - i - 1]; }
      }
    }
  }

  // Everyone online is sent to, and no one else.
  lemma {:induction false} SendsExactly(s: State, kind: Kind, i: int, a: Action)
    requires Shaped(s) && 1 <= i
    ensures a in SendsFrom(s, kind, i) <==>
            exists k :: i <= k <= s.cnt && s.online[k] && a == Sent(s.players[k], kind)
    decreases s.cnt - i
  {
    if i <= s.cnt {
      SendsExactly(s, kind, i + 1, a);
      var one := if s.online[i] then [Sent(s.players[i], kind)] else [];
      assert SendsFrom(s, kind, i) == one + SendsFrom(s, kind, i + 1);
      assert a in one <==> s.online[i] && a == Sent(s.players[i], kind);
    }
  }

  // A departure from a waiting room when no send fails: the later players and, in team mode 2,
  // their teams move down by one, and everyone left is sent the new room.
  lemma QuietWaitingDeparture(s: State, user: int)
    requires Shaped(s) && s.status.Waiting? && s.fails == [] && Find(s, user, 1) != 0
    ensures var pos, r := Find(s, user, 1), Delete(s, user);
            && r.status.Waiting? && r.cnt == s.cnt - 1 && r.onlineCnt == s.onlineCnt - 1
            && r.online == s.online[s.cnt := false]
            && (forall k :: 1 <= k <= r.cnt ==> r.players[k] == s.players[if k < pos then k else k + 1])
            && (forall k :: 1 <= k <= r.cnt ==>
                  r.teams[k] == s.teams[if s.teamMode != 2 || k < pos then k else k + 1])
            && |r.log| == |s.log| + r.cnt && s.log <= r.log
            && (forall k :: 1 <= k <= r.cnt ==> r.log[|s.log| + k - 1] == Sent(r.players[k], RoomDetail))
  {
    var r := Removed(s, Find(s, user, 1));
    QuietEveryone(r, RoomDetail, 1);
    SendsToAll(r, RoomDetail, 1);
  }

  // A departure from a running game only takes the player offline and puts the exit in the
  // frame stream.
  lemma InGameDeparture(s: State, user: int)
    requires Shaped(s) && s.status.InGame? && Find(s, user, 1) != 0
    ensures var pos := Find(s, user, 1);
            Delete(s, user) ==
            s.(online := s.online[pos := false], onlineCnt := s.onlineCnt - 1, log := s.log + [SynExit(pos)])
  {}

  // A start when no send fails.
  lemma QuietStartExactly(s: State)
    requires Shaped(s) && s.status.Loading? && s.fails == []
    ensures Start(s) == s.(status := InGame, log := s.log + SendsFrom(s, GameStart, 1) + [SynInit],
                           early := s.early || Waits(s))
  {
    var b := s.(early := s.early || Waits(s));
    QuietEveryone(b, GameStart, 1);
    SendsDependOnSlots(s, b, GameStart, 1);
  }
}
