// Inputs on which the loading barrier fails.
module RoomInputs {
  import opened Common
  import opened RoomSpec
  import opened RoomRuns

  // A loading room of n players, users 1 to n, the first m of them loaded.
  function LoadingRoom(n: nat, m: nat, fails: seq<bool>): State
    requires m <= n <= MAX_PLAYER_CNT
  {
    State(seq(MAX_PLAYER_CNT + 1, i => i), seq(MAX_PLAYER_CNT + 1, i => 1),
          seq(MAX_PLAYER_CNT + 1, i => 1 <= i <= n), seq(MAX_PLAYER_CNT + 1, i => 1 <= i <= m),
          n, n, m, 0, 1, Loading, fails, [], false, false)
  }

  lemma {:induction false} CountRange(b: seq<bool>, lo: int, n: nat)
    requires forall i :: 0 <= i < |b| ==> (b[i] <==> lo <= i <= n)
    requires 0 <= lo && n < |b|
    ensures Count(b) == if lo <= n then n - lo + 1 else 0
  {
    if b != [] {
      if lo == 0 {
        if n == 0 {
          CountNone(b[1..]);
        } else {
          CountRange(b[1..], 0, n - 1);
        }
      } else if n == 0 {
        CountNone(b);
      } else {
        CountRange(b[1..], lo - 1, n - 1);
      }
    }
  }

  lemma LoadingRoomIsValid(n: nat, m: nat, fails: seq<bool>)
    requires m < n <= MAX_PLAYER_CNT
    ensures Valid(LoadingRoom(n, m, fails)) && Waits(LoadingRoom(n, m, fails))
  {
    var s := LoadingRoom(n, m, fails);
    CountRange(s.online, 1, n);
    CountRange(s.loaded, 1, m);
    DiffFrom(s.online, s.loaded, n);
    if Leaving(s) > 0 { var k := DiffAt(s.loaded, s.online); }
  }

  lemma {:induction false} SkipOffline(s: State, kind: Kind, i: int, j: int)
    requires Shaped(s) && 1 <= i <= j <= s.cnt + 1 && forall k :: i <= k < j ==> !s.online[k]
    ensures Everyone(s, kind, i) == Everyone(s, kind, j)
    decreases j - i
  {
    if i < j { SkipOffline(s, kind, i + 1, j); }
  }

  // Player 1 has loaded and leaves, and the send that tells player 2 fails. The departure of
  // player 2 counts player 1 as loaded still, and starts the game though player 3 has not loaded.
  lemma EarlyStart()
    ensures var s := LoadingRoom(3, 1, [true]);
            var r := Delete(s, 1);
            Valid(s) && Waits(s) && r.status.InGame? && r.early && r.online[3] && !r.loaded[3]
  {
    var s := LoadingRoom(3, 1, [true]);
    LoadingRoomIsValid(3, 1, [true]);
    assert Find(s, 1, 1) == 1;
    var o := Off(s, 1);
    OffIsCore(s, 1);
    SkipOffline(o, PlayerExit(1), 1, 2);
    EarlyDeparture(o);
    EarlyStays(AfterSlot(o, PlayerExit(1), 2), PlayerExit(1), 3, 1);
  }

  // What is left of a departure when the game has started meanwhile.
  lemma EarlyStays(d: State, kind: Kind, i: int, pos: int)
    requires Core(d) && d.status.InGame? && d.early && d.fails == [] && d.online[3] && !d.loaded[3]
    requires 1 <= i && 1 <= pos <= MAX_PLAYER_CNT && pos != 3
    ensures var r := Departed(Everyone(d, kind, i), pos); r.status.InGame? && r.early && r.online[3] && !r.loaded[3]
  {
    QuietEveryone(d, kind, i);
  }

  lemma EarlyDeparture(o: State)
    requires o == Off(LoadingRoom(3, 1, [true]), 1) && Core(o)
    ensures var d := AfterSlot(o, PlayerExit(1), 2);
            Core(d) && d.status.InGame? && d.early && d.online[3] && !d.loaded[3] && d.fails == []
  {
    var a := Attempt(o, 2, PlayerExit(1));
    AttemptEvolves(o, 2, PlayerExit(1));
    assert a.online == seq(MAX_PLAYER_CNT + 1, i => 2 <= i <= 3);
    SecondOfThreeLeaves(a);
  }

  // The counters of a room whose player 1 is leaving, loaded, let player 2 start the game.
  lemma SecondOfThreeLeaves(a: State)
    requires Core(a) && a.status.Loading? && a.fails == [] && a.cnt == 3
    requires forall k :: 0 <= k <= MAX_PLAYER_CNT ==> a.players[k] == k
    requires forall k :: 0 <= k <= MAX_PLAYER_CNT ==> (a.online[k] <==> 2 <= k <= 3) && (a.loaded[k] <==> k == 1)
    ensures var d := Delete(a, 2);
            Core(d) && d.status.InGame? && d.early && d.online[3] && !d.loaded[3] && d.fails == []
  {
    assert Find(a, 2, 1) == 2;
    var e := Telling(Off(a, 2), PlayerExit(2));
    CountRange(e.online, 3, 3);
    CountRange(e.loaded, 1, 1);
    DiffFrom(e.online, e.loaded, 3);
    CountsCompare(e.online, e.loaded);
    SameDiff(e.loaded, e.online, a.loaded, a.online);
    DeleteEvolves(a, 2);
    QuietDeparture(a, 2);
  }

  lemma {:induction false} StartsPrefix(a: seq<Action>, b: seq<Action>)
    requires a <= b
    ensures Starts(a) <= Starts(b)
    decreases |b|
  {
    if a != b {
      assert a <= b[..|b| - 1];
      StartsPrefix(a, b[..|b| - 1]);
    }
  }

  // Five players, 1 and 2 loaded, those from a given one on online, and the sends to come.
  ghost predicate Stage(s: State, from: int, fails: seq<bool>) {
    && Core(s) && s.status.Loading? && s.cnt == 5 && s.fails == fails
    && (forall k :: 0 <= k <= MAX_PLAYER_CNT ==> s.players[k] == k)
    && (forall k :: 0 <= k <= MAX_PLAYER_CNT ==> (s.online[k] <==> from <= k <= 5) && (s.loaded[k] <==> 1 <= k <= 2))
  }

  // The next player's departure: it tells the following one first.
  lemma NextLeaves(s: State, from: int, fails: seq<bool>)
    requires Stage(s, from, fails) && 1 <= from < 5
    ensures var o := Off(s, from);
            && Stage(o, from + 1, fails) && Find(s, from, 1) == from
            && Delete(s, from) ==
               Departed(Everyone(AfterSlot(o, PlayerExit(from), from + 1), PlayerExit(from), from + 2), from)
  {
    OffIsCore(s, from);
    SkipOffline(Off(s, from), PlayerExit(from), 1, from + 1);
  }

  lemma NextFails(s: State, from: int, kind: Kind, later: seq<bool>)
    requires Stage(s, from, [true] + later) && 1 <= from <= 5
    ensures var a := Attempt(s, from, kind); Stage(a, from, later) && AfterSlot(s, kind, from) == Delete(a, from)
  {
    AttemptEvolves(s, from, kind);
    assert ([true] + later)[1..] == later;
  }

  lemma SendGoes(s: State, from: int, kind: Kind, i: int, later: seq<bool>)
    requires Stage(s, from, [false] + later) && 1 <= from <= i <= 5
    ensures Stage(AfterSlot(s, kind, i), from, later)
  {
    AttemptEvolves(s, i, kind);
    assert ([false] + later)[1..] == later;
  }

  // A departure that has seen two starts has seen two at its end.
  lemma StartsStay(d: State, kind: Kind, i: int, pos: int)
    requires Core(d) && d.status.InGame? && Starts(d.log) >= 2 && 1 <= i && 1 <= pos <= MAX_PLAYER_CNT
    ensures Starts(Departed(Everyone(d, kind, i), pos).log) >= 2
  {
    var e := Everyone(d, kind, i);
    EveryoneEvolves(d, kind, i);
    StartsPrefix(d.log, e.log);
  }

  // Players 4 and 5 are told of the start, and the send to 5 fails. Player 5's departure counts
  // 1 and 2 as loaded still, and starts the game again.
  lemma StartWithinStart(s: State)
    requires Stage(s, 4, [false, true])
    ensures var r := Start(s); Core(r) && r.status.InGame? && Starts(r.log) >= 2
  {
    var b := s.(early := s.early || Waits(s));
    SkipOffline(b, GameStart, 1, 4);
    var c := AfterSlot(b, GameStart, 4);
    assert [false, true] == [false] + [true] && [true] == [true] + [];
    SendGoes(b, 4, GameStart, 4, [true]);
    assert c.online[5] && Fails(c);
    LastPlayerFails(c);
    var e := AfterSlot(c, GameStart, 5);
    assert Everyone(b, GameStart, 1) == Everyone(e, GameStart, 6) == e;
    StartAdvances(s);
    StartsAppend(e.log, SynInit);
  }

  lemma LastPlayerFails(c: State)
    requires Core(c) && c.status.Loading? && c.cnt == 5 && c.fails == [true] && c.online[4] && c.online[5]
    requires forall k :: 0 <= k <= MAX_PLAYER_CNT ==> c.players[k] == k
    requires forall k :: 0 <= k <= MAX_PLAYER_CNT ==>
               (c.online[k] <==> 4 <= k <= 5) && (c.loaded[k] <==> 1 <= k <= 2)
    ensures var e := AfterSlot(c, GameStart, 5); e.cnt == 5 && Starts(e.log) > 0
  {
    var a := Attempt(c, 5, GameStart);
    AttemptEvolves(c, 5, GameStart);
    assert Find(a, 5, 1) == 5;
    var t := Telling(Off(a, 5), PlayerExit(5));
    OffIsCore(a, 5);
    CountRange(t.online, 4, 4);
    CountRange(t.loaded, 1, 2);
    CountsCompare(t.online, t.loaded);
    SameDiff(t.loaded, t.online, a.loaded, a.online);
    QuietDeparture(a, 5);
    DeleteEvolves(a, 5);
  }

  lemma BothAreTold(o: State, k: Kind)
    requires Stage(o, 4, [false, false, false, true])
    ensures Stage(Everyone(AfterSlot(o, k, 4), k, 5), 4, [false, true])
  {
    assert o.fails == [false] + [false, false, true] && [false, false, true] == [false] + [false, true];
    SendGoes(o, 4, k, 4, [false, false, true]);
    var p := AfterSlot(o, k, 4);
    SendGoes(p, 4, k, 5, [false, true]);
    var e := AfterSlot(p, k, 5);
    assert Everyone(p, k, 5) == Everyone(e, k, 6) == e;
  }

  lemma CountsLoadedStill(e: State)
    requires Stage(e, 4, [false, true])
    ensures Departed(e, 3) == Start(e)
  {
    CountRange(e.online, 4, 5);
    CountRange(e.loaded, 1, 2);
  }

  lemma ThirdLeaves(s: State)
    requires Stage(s, 3, [false, false, false, true])
    ensures var r := Delete(s, 3); Core(r) && r.status.InGame? && Starts(r.log) >= 2
  {
    var o := Off(s, 3);
    NextLeaves(s, 3, s.fails);
    BothAreTold(o, PlayerExit(3));
    var e := Everyone(AfterSlot(o, PlayerExit(3), 4), PlayerExit(3), 5);
    CountsLoadedStill(e);
    StartWithinStart(e);
  }

  // Players 1 and 2 have loaded. 1 leaves, the sends that tell 2 of it and 3 of 2's departure
  // fail, and so does the one that tells 5 of the start: the game starts twice.
  lemma SecondStart()
    ensures var s := LoadingRoom(5, 2, [true, true, false, false, false, true]);
            Valid(s) && Waits(s) && Starts(Delete(s, 1).log) >= 2
  {
    var rest := [false, false, false, true];
    var s := LoadingRoom(5, 2, [true, true, false, false, false, true]);
    assert s.fails == [true] + ([true] + rest);
    LoadingRoomIsValid(5, 2, s.fails);
    NextLeaves(s, 1, s.fails);
    var o1 := Off(s, 1);
    NextFails(o1, 2, PlayerExit(1), [true] + rest);
    var a1 := Attempt(o1, 2, PlayerExit(1));
    SecondLeaves(a1);
    StartsStay(Delete(a1, 2), PlayerExit(1), 3, 1);
  }

  lemma SecondLeaves(s: State)
    requires Stage(s, 2, [true] + [false, false, false, true])
    ensures var r := Delete(s, 2); Core(r) && r.status.InGame? && Starts(r.log) >= 2
  {
    NextLeaves(s, 2, s.fails);
    var o := Off(s, 2);
    NextFails(o, 3, PlayerExit(2), [false, false, false, true]);
    var a := Attempt(o, 3, PlayerExit(2));
    ThirdLeaves(a);
    StartsStay(Delete(a, 3), PlayerExit(2), 4, 2);
    DeleteEvolves(s, 2);
  }

  // If every send that announces the loading fails, the room waits on nobody.
  lemma EmptyLoading()
    ensures var s := Join(LoadingRoom(0, 0, [true]).(status := Waiting), 1);
            var r := OwnerReady(s, 1, 0);
            Valid(s) && r.status.Loading? && r.onlineCnt == 0 && !Waits(r)
  {
    var w := LoadingRoom(0, 0, [true]).(status := Waiting);
    CountRange(w.online, 1, 0);
    var s := Join(w, 1);
    JoinExactly(w, 1);
    assert Find(s, 1, 1) == 1;
    var a := Attempt(s, 1, GameLoading);
    assert AfterSlot(s, GameLoading, 1) == Delete(a, 1);
    assert Find(a, 1, 1) == 1;
    var e := Removed(a, 1);
    assert e.cnt == 0 && Everyone(e, RoomDetail, 1) == e;
    assert Everyone(s, GameLoading, 1) == e;
    BeginLoadingExactly(s, 0);
  }
}
