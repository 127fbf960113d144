// The handlers of a room, what holds between them, and the laws of every run.
module RoomRuns {
  import opened Common
  import opened RoomSpec

  // ---- The handlers ----

  // AddPlayer.
  function Join(s: State, user: int): (r: State)
    requires Shaped(s)
    ensures Shaped(r)
  {
    if !s.status.Waiting? || s.cnt >= MAX_PLAYER_CNT then s
    else
      var n := s.cnt + 1;
      s.(players := s.players[n := user], teams := s.teams[n := if s.teamMode == 1 then n else 1],
         online := s.online[n := true], cnt := n, onlineCnt := s.onlineCnt + 1)
  }

  ghost predicate Listed(s: State, user: int)
    requires Shaped(s)
  {
    exists i :: 1 <= i <= s.cnt && s.players[i] == user
  }

  // SendGameLoading.
  function BeginLoading(s: State, now: int): (r: State)
    requires Shaped(s)
    ensures Shaped(r)
  {
    if !s.status.Waiting? then s
    else
      var r := Everyone(s, GameLoading, 1);
      r.(status := Loading, loadedCnt := 0, since := now, loaded := seq(MAX_PLAYER_CNT + 1, i => false))
  }

  // CSReadyToStart: only the owner, in slot 1, can begin the loading.
  function OwnerReady(s: State, user: int, now: int): (r: State)
    requires Shaped(s)
    ensures Shaped(r)
  {
    if Find(s, user, 1) != 1 then s else BeginLoading(s, now)
  }

  // What AddLoadingSucceed does to a loading room, and when it says that was the last one.
  function Mark(s: State, user: int): (r: State)
    requires Shaped(s)
    ensures Shaped(r)
  {
    var pos := Find(s, user, 1);
    if pos == 0 || s.loaded[pos] then s else s.(loaded := s.loaded[pos := true], loadedCnt := s.loadedCnt + 1)
  }

  predicate Completes(s: State, user: int)
    requires Shaped(s)
  {
    var pos := Find(s, user, 1);
    pos != 0 && !s.loaded[pos] && s.loadedCnt + 1 >= s.onlineCnt
  }

  // CSLoadSucceed.
  function Report(s: State, user: int): (r: State)
    requires Shaped(s)
    ensures Shaped(r)
  {
    if !s.status.Loading? then s
    else if Completes(s, user) then Start(Mark(s, user))
    else Mark(s, user)
  }

  // GameEnd.
  function End(s: State, user: int): (r: State)
    requires Shaped(s)
    ensures Shaped(r)
  {
    var pos := Find(s, user, 1);
    if !s.status.InGame? || pos == 0 then s else Off(s, pos)
  }

  // The kicks of a room that has loaded for too long, from slot i on.
  function Kick(s: State, i: int): (r: State)
    requires Shaped(s) && 1 <= i
    ensures Shaped(r)
    decreases MAX_PLAYER_CNT + 1 - i
  {
    if i > s.cnt then s
    else if s.online[i] && !s.loaded[i] then Kick(Delete(s, s.players[i]), i + 1)
    else Kick(s, i + 1)
  }

  // What the synchroniser broadcasts when it runs.
  function Frames(s: State, n: nat): (r: State)
    requires Shaped(s)
    ensures Shaped(r)
  {
    if n == 0 then s else Everyone(Frames(s, n - 1), Frame, 1)
  }

  function Tick(s: State, now: int, frames: nat): (r: State)
    requires Shaped(s)
    ensures Shaped(r)
  {
    match s.status
    case Waiting => s
    case Loading => if now - s.since >= MAX_LOADING_TIME_SECOND then Start(Kick(s, 1)) else s
    case InGame => Frames(s.(log := s.log + [SynRun]), frames)
  }

  datatype Event = Joined(user: int) | Left(user: int) | OwnerStarts(user: int, now: int) | Loaded(user: int)
                 | Ended(user: int) | Ticked(now: int, frames: nat)

  // No user joins twice.
  function Apply(s: State, e: Event): (r: State)
    requires Shaped(s)
    ensures Shaped(r)
  {
    match e
    case Joined(u) => if u in s.players[1..s.cnt + 1] then s else Join(s, u)
    case Left(u) => Delete(s, u)
    case OwnerStarts(u, now) => OwnerReady(s, u, now)
    case Loaded(u) => Report(s, u)
    case Ended(u) => End(s, u)
    case Ticked(now, frames) => Tick(s, now, frames)
  }

  function Run(s: State, es: seq<Event>): (r: State)
    requires Shaped(s)
    ensures Shaped(r)
    decreases es
  {
    if es == [] then s else Run(Apply(s, es[0]), es[1..])
  }

  // ---- What holds between handlers ----

  // In a loading room no departure is under way and, unless everyone has gone, someone online
  // is still loading: no start has been missed.
  ghost predicate Valid(s: State) {
    Core(s) && Excused(s) && (s.status.Loading? ==> Leaving(s) == 0 && (Waits(s) || s.onlineCnt == 0))
  }

  // Every handler goes on from a valid room to a valid one.
  ghost predicate Handled(s: State, r: State) {
    Valid(r) && Rank(s.status) <= Rank(r.status) && (s.mixed ==> r.mixed) && (s.early ==> r.early) && s.log <= r.log
  }

  lemma HandledTrans(a: State, b: State, c: State)
    requires Handled(a, b) && Handled(b, c)
    ensures Handled(a, c)
  {}

  // A user who is already in the room breaks it by joining again; no one else does.
  lemma JoinExactly(s: State, user: int)
    requires Core(s)
    ensures Core(Join(s, user)) <==> !(Join(s, user) != s && Listed(s, user))
    ensures !(s.status.Waiting? && s.cnt < 8) ==> Join(s, user) == s
    ensures s.status.Waiting? && s.cnt < 8 ==>
              Join(s, user) != s && Join(s, user).cnt == s.cnt + 1 && Join(s, user).online[s.cnt + 1] &&
              Join(s, user).players[1..s.cnt + 2] == s.players[1..s.cnt + 1] + [user] &&
              Join(s, user).teams[1..s.cnt + 2] ==
              s.teams[1..s.cnt + 1] + [if s.teamMode == 1 then s.cnt + 1 else 1]
  {
    if s.status.Waiting? && s.cnt < MAX_PLAYER_CNT {
      var r, n := Join(s, user), s.cnt + 1;
      CountUpdate(s.online, n, true);
      if Listed(s, user) {
        var i :| 1 <= i <= s.cnt && s.players[i] == user;
        assert r.players[i] == r.players[n];
      }
    }
  }

  lemma JoinKeepsValid(s: State, user: int)
    requires Valid(s)
    ensures Valid(Join(s, user)) <==> !(s.status.Waiting? && s.cnt < MAX_PLAYER_CNT && Listed(s, user))
  {
    JoinExactly(s, user);
  }

  // A tick leaves a waiting room alone, and a loading room until 180 seconds have passed.
  lemma TickTooEarly(s: State, now: int, frames: nat)
    requires Shaped(s) && (s.status.Waiting? || (s.status.Loading? && now - s.since < 180))
    ensures Tick(s, now, frames) == s
  {}

  lemma NobodyThere(s: State)
    requires Core(s) && s.onlineCnt == 0
    ensures forall k :: 0 <= k <= MAX_PLAYER_CNT ==> !s.online[k]
  {
    forall k | 0 <= k <= MAX_PLAYER_CNT ensures !s.online[k] {
      if s.online[k] { CountSome(s.online, k); }
    }
  }

  // A departure or a broadcast from a valid room.
  lemma StepIsHandled(s: State, r: State)
    requires Valid(s) && Steps(s, r) && Excused(r)
    ensures Handled(s, r)
  {
    if r.status.Loading? && s.status.Loading? {
      LeavingStays(s, r);
      if !Waits(s) {
        NobodyThere(s);
        CountNone(r.online);
      }
    }
  }

  lemma LeftIsHandled(s: State, user: int)
    requires Valid(s)
    ensures Handled(s, Delete(s, user))
  {
    DeleteEvolves(s, user);
    DeleteExcused(s, user);
    StepIsHandled(s, Delete(s, user));
  }

  // The loading phase begins with someone to wait on exactly when someone is still online once
  // it has been told.
  lemma BeginLoadingExactly(s: State, now: int)
    requires Valid(s) && s.status.Waiting?
    ensures var r := BeginLoading(s, now);
            Handled(s, r) && r.status.Loading? && r.since == now && (Waits(r) <==> r.onlineCnt > 0)
  {
    var e, r := Everyone(s, GameLoading, 1), BeginLoading(s, now);
    EveryoneEvolves(s, GameLoading, 1);
    EveryoneExcused(s, GameLoading, 1);
    CountNone(r.loaded);
    CountsCompare(r.online, r.loaded);
    if Leaving(r) > 0 { var k := DiffAt(r.loaded, r.online); }
  }

  // Only the user in slot 1, online, begins the loading, and only in a waiting room; with no
  // send failing everyone is told of it and nothing else changes but the phase.
  lemma OwnerReadyExactly(s: State, user: int, now: int)
    requires Core(s)
    ensures var owns := s.cnt >= 1 && s.online[1] && s.players[1] == user;
            var r := OwnerReady(s, user, now);
            && (!(owns && s.status.Waiting?) ==> r == s)
            && (owns && s.status.Waiting? && s.fails == [] ==>
                  r == s.(status := Loading, loadedCnt := 0, since := now, log := s.log + SendsFrom(s, GameLoading, 1),
                          loaded := seq(9, i => false)))
  {
    if s.fails == [] { QuietEveryone(s, GameLoading, 1); }
  }

  // A game that ends for a player takes that player offline and tells no one.
  lemma EndExactly(s: State, user: int)
    requires Shaped(s)
    ensures var pos := Find(s, user, 1);
            End(s, user) == if !s.status.InGame? || pos == 0 then s
                            else s.(online := s.online[pos := false], onlineCnt := s.onlineCnt - 1)
  {}

  // A report starts the game exactly when it makes everyone online loaded, and never early.
  lemma ReportExactly(s: State, user: int)
    requires Valid(s) && s.status.Loading?
    ensures var m, r := Mark(s, user), Report(s, user);
            && Handled(s, r) && Core(m) && m.online == s.online
            && (r.status.InGame? <==> Find(s, user, 1) != 0 && !Waits(m))
            && r.early == s.early
            && (forall k :: 0 <= k <= MAX_PLAYER_CNT ==>
                  m.loaded[k] == (s.loaded[k] || (k != 0 && k == Find(s, user, 1))))
  {
    var pos, m := Find(s, user, 1), Mark(s, user);
    if pos != 0 && !s.loaded[pos] {
      CountUpdate(s.loaded, pos, true);
      MarkKeepsLeaving(s, pos);
      CountersExactly(m);
      if !Waits(m) {
        StartAdvances(m);
        StartExcused(m);
      }
    } else if pos != 0 {
      assert Waits(s) by { if !Waits(s) { NobodyThere(s); } }
    }
  }

  lemma MarkKeepsLeaving(s: State, pos: int)
    requires Shaped(s) && 1 <= pos <= s.cnt && s.online[pos]
    ensures CountDiff(s.loaded[pos := true], s.online) == CountDiff(s.loaded, s.online)
  {
    SameDiff(s.loaded, s.online, s.loaded[pos := true], s.online);
  }

  // Whatever else it brings about, a departure leaves the user gone.
  lemma DeleteRemoves(s: State, user: int)
    requires Core(s)
    ensures Find(Delete(s, user), user, 1) == 0
  {
    var pos := Find(s, user, 1);
    if pos != 0 {
      match s.status
      case Waiting =>
        var r := Removed(s, pos);
        RemovedEvolves(s, pos);
        EveryoneEvolves(r, RoomDetail, 1);
        assert user !in Users(r);
        assert user !in Users(Delete(s, user));
      case Loading =>
        DeleteTakesOff(s, user);
        assert forall k :: 1 <= k <= s.cnt && k != pos ==> s.players[k] != user;
        DeleteEvolves(s, user);
      case InGame =>
        assert forall k :: 1 <= k <= s.cnt && k != pos ==> s.players[k] != user;
    }
  }

  lemma DeleteTakesOff(s: State, user: int)
    requires Core(s) && !s.status.Waiting? && Find(s, user, 1) != 0
    ensures !Delete(s, user).online[Find(s, user, 1)]
  {
    if s.status.Loading? {
      var pos := Find(s, user, 1);
      OffIsCore(s, pos);
      EveryoneEvolves(Off(s, pos), PlayerExit(pos), 1);
      StaysOff(Off(s, pos), Everyone(Off(s, pos), PlayerExit(pos), 1), pos);
    }
  }

  lemma StaysOff(o: State, e: State, pos: int)
    requires Core(o) && o.status.Loading? && Advances(o, e) && 1 <= pos <= o.cnt && !o.online[pos]
    ensures !Departed(e, pos).online[pos]
  {
    assert !e.online[pos];
    if e.status.Loading? {
      StartAdvances(e);
      assert Shrinks(e, Start(e));
    }
  }

  lemma {:induction false} KickSteps(s: State, i: int)
    requires Valid(s) && !s.status.Waiting? && 1 <= i
    ensures Handled(s, Kick(s, i)) && Evolves(s, Kick(s, i))
    decreases MAX_PLAYER_CNT + 1 - i
  {
    if i <= s.cnt {
      if s.online[i] && !s.loaded[i] {
        var d := Delete(s, s.players[i]);
        KickOne(s, i);
        KickSteps(d, i + 1);
        KickTrans(s, d, Kick(d, i + 1));
      } else {
        KickSteps(s, i + 1);
      }
    }
  }

  lemma KickTrans(a: State, b: State, c: State)
    requires Core(a) && Handled(a, b) && Evolves(a, b) && Handled(b, c) && Evolves(b, c)
    ensures Handled(a, c) && Evolves(a, c)
  {
    HandledTrans(a, b, c);
    EvolvesTrans(a, b, c);
  }

  // Up to slot i everyone online has loaded.
  ghost predicate LoadedUpTo(s: State, i: int)
    requires Shaped(s)
  {
    forall k :: 1 <= k < i && k <= s.cnt && s.online[k] ==> s.loaded[k]
  }

  lemma {:induction false} KickClears(s: State, i: int)
    requires Valid(s) && !s.status.Waiting? && 1 <= i && LoadedUpTo(s, i)
    ensures LoadedUpTo(Kick(s, i), MAX_PLAYER_CNT + 1)
    decreases MAX_PLAYER_CNT + 1 - i
  {
    if i <= s.cnt {
      if s.online[i] && !s.loaded[i] {
        KickOne(s, i);
        KickClears(Delete(s, s.players[i]), i + 1);
      } else {
        KickClears(s, i + 1);
      }
    }
  }

  // The kicks leave nobody online who has not loaded, and if there was someone to wait on they
  // have started the game.
  lemma KickExactly(s: State)
    requires Valid(s) && !s.status.Waiting?
    ensures var r := Kick(s, 1);
            && Handled(s, r) && Evolves(s, r) && !Waits(r)
            && (s.status.Loading? && Waits(s) ==> r.status.InGame?)
  {
    KickSteps(s, 1);
    KickClears(s, 1);
    AllLoaded(Kick(s, 1));
  }

  lemma AllLoaded(s: State)
    requires Core(s) && LoadedUpTo(s, MAX_PLAYER_CNT + 1)
    ensures !Waits(s)
  {
    if Waits(s) { var k := DiffAt(s.online, s.loaded); }
  }

  lemma KickOne(s: State, i: int)
    requires Valid(s) && !s.status.Waiting? && 1 <= i <= s.cnt && s.online[i] && !s.loaded[i]
    ensures var d := Delete(s, s.players[i]);
            && Handled(s, d) && Evolves(s, d) && !d.status.Waiting? && d.cnt == s.cnt && !d.online[i]
            && (LoadedUpTo(s, i) ==> LoadedUpTo(d, i + 1))
  {
    var user := s.players[i];
    assert Find(s, user, 1) == i;
    LeftIsHandled(s, user);
    DeleteEvolves(s, user);
    DeleteTakesOff(s, user);
    Kicked(s, Delete(s, user), i);
  }

  lemma Kicked(s: State, d: State, i: int)
    requires Core(s) && !s.status.Waiting? && Advances(s, d) && 1 <= i <= s.cnt && !d.online[i]
    ensures !d.status.Waiting? && d.cnt == s.cnt && (LoadedUpTo(s, i) ==> LoadedUpTo(d, i + 1))
  {}

  // A tick past the limit starts the game. If there was someone to wait on, the kicks have done
  // so already and the closing SendGameStart is refused; it counts only in an empty room.
  lemma TimeoutExactly(s: State, now: int, frames: nat)
    requires Valid(s) && s.status.Loading? && now - s.since >= 180
    ensures var r := Tick(s, now, frames);
            && Handled(s, r) && r.status.InGame? && !Waits(r) && (Starts(r.log) > 1 ==> r.mixed)
            && (Waits(s) ==> Kick(s, 1).status.InGame? && r == Kick(s, 1))
            && (!Waits(s) ==> Kick(s, 1) == s && s.onlineCnt == 0)
  {
    KickExactly(s);
    if !Waits(s) { EmptyStart(s); }
  }

  lemma EmptyStart(s: State)
    requires Valid(s) && s.status.Loading? && !Waits(s)
    ensures var r := Start(s); Handled(s, r) && r.status.InGame? && !Waits(r) && Starts(r.log) == 1 && Kick(s, 1) == s
  {
    NobodyThere(s);
    NoKick(s, 1);
    StartAdvances(s);
    StartExcused(s);
    if Waits(Start(s)) { var k := DiffAt(Start(s).online, Start(s).loaded); }
  }

  lemma {:induction false} NoKick(s: State, i: int)
    requires Shaped(s) && 1 <= i && forall k :: 0 <= k <= MAX_PLAYER_CNT ==> !s.online[k]
    ensures Kick(s, i) == s
    decreases MAX_PLAYER_CNT + 1 - i
  {
    if i <= s.cnt { NoKick(s, i + 1); }
  }

  lemma {:induction false} FramesAreHandled(s: State, n: nat)
    requires Valid(s) && s.status.InGame?
    ensures Handled(s, Frames(s, n)) && Frames(s, n).status.InGame?
  {
    if n > 0 {
      var f := Frames(s, n - 1);
      FramesAreHandled(s, n - 1);
      EveryoneEvolves(f, Frame, 1);
      EveryoneExcused(f, Frame, 1);
      StepIsHandled(f, Everyone(f, Frame, 1));
      HandledTrans(s, f, Everyone(f, Frame, 1));
    }
  }

  // A failed send takes its player out of the room, whatever the status.
  lemma FailedSendRemoves(s: State, kind: Kind, i: int)
    requires Core(s) && 1 <= i <= s.cnt && s.online[i] && s.fails != [] && s.fails[0]
    ensures Find(AfterSlot(s, kind, i), s.players[i], 1) == 0
  {
    AttemptEvolves(s, i, kind);
    DeleteRemoves(Attempt(s, i, kind), s.players[i]);
  }

  predicate FailsAt(fails: seq<bool>, k: int) { 0 <= k < |fails| && fails[k] }

  // The slot whose send in a broadcast from slot i on fails: how many online players come before
  // it is the number of its send.
  predicate LosesSlot(s: State, i: int, j: int)
    requires Shaped(s) && 1 <= i
  {
    i <= j <= s.cnt && s.online[j] && FailsAt(s.fails, Count(s.online[i..j]))
  }

  // What a broadcast in a running game adds to the log: a send to everyone online, and an exit
  // for each of them whose send fails.
  ghost predicate Noted(s: State, kind: Kind, i: int, a: Action)
    requires Shaped(s) && 1 <= i
  {
    exists j :: i <= j <= s.cnt && s.online[j] &&
      (a == Sent(s.players[j], kind) || (LosesSlot(s, i, j) && a == SynExit(j)))
  }

  // In a running game every player online at the start of a broadcast is sent to, exactly those
  // whose own send fails go offline, and each of these leaves an exit in the frame stream.
  ghost predicate TellsInGame(s: State, kind: Kind, i: int, r: State)
    requires Shaped(s) && Shaped(r) && 1 <= i
  {
    && r.status.InGame? && r.players == s.players && s.log <= r.log
    && (forall j :: 0 <= j <= 8 ==> (r.online[j] <==> s.online[j] && !LosesSlot(s, i, j)))
    && (forall a :: a in r.log[|s.log|..] <==> Noted(s, kind, i, a))
  }

  lemma {:induction false} InGameBroadcast(s: State, kind: Kind, i: int)
    requires Core(s) && s.status.InGame? && 1 <= i
    ensures TellsInGame(s, kind, i, Everyone(s, kind, i))
    decreases MAX_PLAYER_CNT + 1 - i
  {
    if i <= s.cnt {
      var n := AfterSlot(s, kind, i);
      SlotEvolves(s, kind, i);
      InGameSlot(s, kind, i);
      InGameBroadcast(n, kind, i + 1);
      TellsOneMore(s, n, kind, i, Everyone(s, kind, i));
    }
  }

  lemma TellsOneMore(s: State, n: State, kind: Kind, i: int, r: State)
    requires Shaped(s) && 1 <= i <= s.cnt && PassedSlot(s, n, kind, i) && Shaped(r) && TellsInGame(n, kind, i + 1, r)
    ensures TellsInGame(s, kind, i, r)
  {
    forall j | 0 <= j <= 8 ensures r.online[j] <==> s.online[j] && !LosesSlot(s, i, j) {
      SlotsAhead(s, n, i, j);
    }
    assert r.log[|s.log|..] == n.log[|s.log|..] + r.log[|n.log|..];
    forall a ensures a in r.log[|s.log|..] <==> Noted(s, kind, i, a) {
      NotedAhead(s, n, kind, i, a);
    }
  }

  // One pass of its loop.
  ghost predicate PassedSlot(s: State, n: State, kind: Kind, i: int)
    requires Shaped(s) && 1 <= i <= s.cnt
  {
    && Shaped(n) && n.status.InGame? && n.players == s.players && n.cnt == s.cnt && s.log <= n.log
    && n.online == s.online[i := s.online[i] && !Fails(s)]
    && n.fails == (if s.online[i] && s.fails != [] then s.fails[1..] else s.fails)
    && n.log[|s.log|..] == (if s.online[i] then [Sent(s.players[i], kind)] else []) +
                           (if s.online[i] && Fails(s) then [SynExit(i)] else [])
  }

  lemma InGameSlot(s: State, kind: Kind, i: int)
    requires Core(s) && s.status.InGame? && 1 <= i <= s.cnt
    ensures PassedSlot(s, AfterSlot(s, kind, i), kind, i)
  {
    if s.online[i] && Fails(s) {
      var a := Attempt(s, i, kind);
      AttemptEvolves(s, i, kind);
      InGameLoss(a, i);
      LostSlot(s, a.online[i := false], kind, i);
    } else if s.online[i] {
      assert (s.log + [Sent(s.players[i], kind)])[|s.log|..] == [Sent(s.players[i], kind)] + [];
    }
  }

  lemma LostSlot(s: State, online: seq<bool>, kind: Kind, i: int)
    requires Shaped(s) && s.status.InGame? && 1 <= i <= s.cnt && s.online[i] && Fails(s)
    requires online == s.online[i := false]
    ensures var a := Attempt(s, i, kind);
            PassedSlot(s, a.(online := online, onlineCnt := a.onlineCnt - 1, log := a.log + [SynExit(i)]), kind, i)
  {
    var sent := [Sent(s.players[i], kind)];
    assert (s.log + sent + [SynExit(i)])[|s.log|..] == sent + [SynExit(i)];
  }

  lemma InGameLoss(a: State, i: int)
    requires Core(a) && a.status.InGame? && 1 <= i <= a.cnt && a.online[i]
    ensures Delete(a, a.players[i]) ==
            a.(online := a.online[i := false], onlineCnt := a.onlineCnt - 1, log := a.log + [SynExit(i)])
  {
    assert Find(a, a.players[i], 1) == i;
  }

  lemma NotedAhead(s: State, n: State, kind: Kind, i: int, a: Action)
    requires Shaped(s) && 1 <= i <= s.cnt && PassedSlot(s, n, kind, i)
    ensures Noted(s, kind, i, a) <==> a in n.log[|s.log|..] || Noted(n, kind, i + 1, a)
  {
    forall j | 0 <= j <= 8
      ensures LosesSlot(s, i, j) <==> LosesSlot(n, i + 1, j) || (j == i && s.online[i] && Fails(s))
    {
      SlotsAhead(s, n, i, j);
    }
  }

  lemma SlotsAhead(s: State, n: State, i: int, j: int)
    requires Shaped(s) && Shaped(n) && 1 <= i <= s.cnt == n.cnt && 0 <= j <= 8
    requires n.online == s.online[i := s.online[i] && !Fails(s)]
    requires n.fails == if s.online[i] && s.fails != [] then s.fails[1..] else s.fails
    ensures LosesSlot(s, i, j) <==> LosesSlot(n, i + 1, j) || (j == i && s.online[i] && Fails(s))
  {
    if i < j <= s.cnt {
      assert s.online[i..j][1..] == s.online[i + 1..j] == n.online[i + 1..j];
    } else if j == i {
      assert s.online[i..j] == [];
    }
  }

  // Each broadcast of a run in which no send fails.
  lemma {:induction false} QuietFrame(s: State, n: nat)
    requires Shaped(s) && s.fails == []
    ensures Frames(s, n) == s.(log := Frames(s, n).log)
    ensures Frames(s, n + 1) == s.(log := Frames(s, n).log + SendsFrom(s, Frame, 1)) && Frames(s, 0) == s
  {
    if n > 0 { QuietFrame(s, n - 1); }
    QuietEveryone(Frames(s, n), Frame, 1);
    SendsDependOnSlots(s, Frames(s, n), Frame, 1);
  }

  // A tick of a running game runs the synchroniser first.
  lemma TickRuns(s: State, now: int, frames: nat)
    requires Valid(s) && s.status.InGame?
    ensures s.log + [SynRun] <= Tick(s, now, frames).log && Tick(s, now, frames).status.InGame?
  {
    var t := s.(log := s.log + [SynRun]);
    StartsAppend(s.log, SynRun);
    FramesAreHandled(t, frames);
  }

  lemma TickIsHandled(s: State, now: int, frames: nat)
    requires Valid(s)
    ensures Handled(s, Tick(s, now, frames))
  {
    match s.status
    case Waiting =>
    case Loading => if now - s.since >= MAX_LOADING_TIME_SECOND { TimeoutExactly(s, now, frames); }
    case InGame =>
      var t := s.(log := s.log + [SynRun]);
      StartsAppend(s.log, SynRun);
      FramesAreHandled(t, frames);
      HandledTrans(s, t, Frames(t, frames));
  }

  lemma JoinIsHandled(s: State, user: int)
    requires Valid(s) && user !in s.players[1..s.cnt + 1]
    ensures Handled(s, Join(s, user))
  {
    assert forall i :: 1 <= i <= s.cnt ==> s.players[i] == s.players[1..s.cnt + 1][i - 1];
    JoinExactly(s, user);
  }

  // Any handler keeps a valid room valid, whichever of its sends fail.
  lemma ApplyIsHandled(s: State, e: Event)
    requires Valid(s)
    ensures Handled(s, Apply(s, e))
  {
    match e
    case Joined(u) => if u !in s.players[1..s.cnt + 1] { JoinIsHandled(s, u); }
    case Left(u) => LeftIsHandled(s, u);
    case OwnerStarts(u, now) =>
      if Find(s, u, 1) == 1 && s.status.Waiting? { BeginLoadingExactly(s, now); }
    case Loaded(u) => if s.status.Loading? { ReportExactly(s, u); }
    case Ended(u) => if s.status.InGame? && Find(s, u, 1) != 0 { OffIsCore(s, Find(s, u, 1)); }
    case Ticked(now, frames) => TickIsHandled(s, now, frames);
  }

  // Over every run: counters equal to flags, the status never back, no start missed. And the
  // game starts early, or more than once, only if a send to a player who had not loaded failed
  // while the departure of a loaded one was being told.
  lemma {:induction false} RunIsHandled(s: State, es: seq<Event>)
    requires Valid(s)
    ensures Handled(s, Run(s, es))
    ensures !Run(s, es).mixed ==> !Run(s, es).early && Starts(Run(s, es).log) <= 1
    decreases es
  {
    if es != [] {
      ApplyIsHandled(s, es[0]);
      RunIsHandled(Apply(s, es[0]), es[1..]);
      HandledTrans(s, Apply(s, es[0]), Run(s, es));
    }
  }
}
