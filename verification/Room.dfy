// Room: the waiting / loading / in-game life of a room, with redundant counters and flags
// changed in place. What each method does is the function it is proved against.
module Room {
  import opened RoomSpec
  import opened RoomRuns
  import opened QuietRoom

  class Room {
    const players: array<int>
    const teamId: array<int>
    const isOnline: array<bool>
    const isLoadingSucceed: array<bool>
    var playerCnt: int
    var onlinePlayerCnt: int
    var loadingSucceedCnt: int
    var loadingTimeSecond: int
    var teamMode: int
    var status: Status

    // Which of the sends to come will break their connection, and what has been done so far.
    var fails: seq<bool>
    var log: seq<Action>
    ghost var early: bool
    ghost var mixed: bool

    ghost function Value(): State
      reads this, players, teamId, isOnline, isLoadingSucceed
    {
      State(players[..], teamId[..], isOnline[..], isLoadingSucceed[..], playerCnt, onlinePlayerCnt, loadingSucceedCnt,
            loadingTimeSecond, teamMode, status, fails, log, early, mixed)
    }

    ghost predicate Shape()
      reads this, players, teamId, isOnline, isLoadingSucceed
    {
      players != teamId && isOnline != isLoadingSucceed && Shaped(Value())
    }

    // How many players are online, and so how deep departures can nest.
    ghost function Depth(): nat
      reads isOnline
    {
      Count(isOnline[..])
    }

    constructor (teamMode: int, fails: seq<bool>)
      ensures Shape() && Barrier(Value()) && status == Waiting && playerCnt == 0 && log == []
      ensures this.teamMode == teamMode && this.fails == fails
      ensures fresh(players) && fresh(teamId) && fresh(isOnline) && fresh(isLoadingSucceed)
    {
      players := new int[MAX_PLAYER_CNT + 1];
      teamId := new int[MAX_PLAYER_CNT + 1];
      isOnline := new bool[MAX_PLAYER_CNT + 1](i => false);
      isLoadingSucceed := new bool[MAX_PLAYER_CNT + 1];
      status, playerCnt, onlinePlayerCnt := Waiting, 0, 0;
      this.teamMode, this.fails := teamMode, fails;
      log, early, mixed := [], false, false;
      loadingSucceedCnt, loadingTimeSecond := 0, 0;
      new;
      CountNone(isOnline[..]);
    }

    // The first slot of an online user, or 0.
    method GetPlayerID(userId: int) returns (pos: int)
      requires Shape()
      ensures pos == Find(Value(), userId, 1)
    {
      var i := 1;
      while i <= playerCnt
        invariant 1 <= i <= playerCnt + 1
        invariant Find(Value(), userId, i) == Find(Value(), userId, 1)
      {
        if isOnline[i] && players[i] == userId {
          return i;
        }
        i := i + 1;
      }
      return 0;
    }

    // SendMessageToClient, up to the removal of a client whose connection breaks.
    method Send(i: int, kind: Kind) returns (broken: bool)
      requires Shape() && 1 <= i <= playerCnt
      modifies this`fails, this`log, this`mixed
      ensures Shape() && Value() == Attempt(old(Value()), i, kind) && broken == Fails(old(Value()))
    {
      broken := fails != [] && fails[0];
      mixed := mixed || (broken && status == Loading && !isLoadingSucceed[i] && Leaving(Value()) > 0);
      log := log + [Sent(players[i], kind)];
      fails := if fails == [] then [] else fails[1..];
    }

    // Sends to every online player in turn. A connection that breaks takes its player out of the
    // room before the loop goes on.
    method SendMessageToEveryone(kind: Kind)
      requires Shape()
      modifies this, players, teamId, isOnline, isLoadingSucceed
      ensures Shape() && Value() == Everyone(old(Value()), kind, 1)
      decreases Depth(), 2, 0
    {
      var i := 1;
      while i <= playerCnt
        invariant 1 <= i && Shape() && Depth() <= old(Depth())
        invariant Everyone(Value(), kind, i) == Everyone(old(Value()), kind, 1)
        decreases MAX_PLAYER_CNT + 1 - i
      {
        ghost var s := Value();
        if isOnline[i] {
          var broken := Send(i, kind);
          if broken {
            var _ := DeletePlayer(players[i]);
          }
        }
        assert Value() == AfterSlot(s, kind, i);
        i := i + 1;
      }
    }

    // A user who is already in the room breaks it by joining again; no one else does.
    method AddPlayer(userId: int) returns (r: AddResult)
      requires Shape()
      modifies this`playerCnt, this`onlinePlayerCnt, players, teamId, isOnline
      ensures Shape() && Value() == Join(old(Value()), userId)
      ensures r == (if status != Waiting then NoWaiting else if old(playerCnt) >= MAX_PLAYER_CNT then Full else Succeed)
      ensures old(Valid(Value())) ==> (Valid(Value()) <==> !(r == Succeed && old(Listed(Value(), userId))))
    {
      if Valid(Value()) { JoinKeepsValid(Value(), userId); }
      if status != Waiting {
        return NoWaiting;
      }
      if playerCnt >= MAX_PLAYER_CNT {
        return Full;
      }
      Seat(userId);
      return Succeed;
    }

    method Seat(userId: int)
      requires Shape() && status == Waiting && playerCnt < MAX_PLAYER_CNT
      modifies this`playerCnt, this`onlinePlayerCnt, players, teamId, isOnline
      ensures Shape() && Value() == Join(old(Value()), userId)
    {
      ghost var s := Value();
      playerCnt := playerCnt + 1;
      onlinePlayerCnt := onlinePlayerCnt + 1;
      players[playerCnt] := userId;
      teamId[playerCnt] := if teamMode == 1 then playerCnt else 1;
      isOnline[playerCnt] := true;
      assert players[..] == s.players[playerCnt := userId] && isOnline[..] == s.online[playerCnt := true];
      assert teamId[..] == s.teams[playerCnt := if teamMode == 1 then playerCnt else 1];
    }

    // Tells everyone, starts the synchroniser and the game; refused unless loading.
    method SendGameStart()
      requires Shape()
      modifies this, players, teamId, isOnline, isLoadingSucceed
      ensures Shape() && Value() == Start(old(Value()))
      decreases Depth(), 3, 0
    {
      if status != Loading {
        return;
      }
      early := early || Waits(Value());
      SendMessageToEveryone(GameStart);
      log := log + [SynInit];
      status := InGame;
    }

    // Closes the gap a leaving player makes; only team mode 2 moves the teams along.
    method ShiftDown(pos: int)
      requires Shape() && 1 <= pos <= playerCnt
      modifies players, teamId
      ensures players[..] == Shifted(old(players[..]), pos, playerCnt)
      ensures teamId[..] == if teamMode == 2 then Shifted(old(teamId[..]), pos, playerCnt) else old(teamId[..])
    {
      for i := pos + 1 to playerCnt + 1
        invariant forall k :: 0 <= k <= MAX_PLAYER_CNT ==>
                    players[k] == old(players[if pos <= k < i - 1 then k + 1 else k])
        invariant teamMode == 2 ==> forall k :: 0 <= k <= MAX_PLAYER_CNT ==>
                    teamId[k] == old(teamId[if pos <= k < i - 1 then k + 1 else k])
        invariant teamMode != 2 ==> teamId[..] == old(teamId[..])
      {
        players[i - 1] := players[i];
        if teamMode == 2 {
          teamId[i - 1] := teamId[i];
        }
      }
    }

    method SetOffline(pos: int)
      requires Shape() && status != Waiting && 1 <= pos <= playerCnt && isOnline[pos]
      modifies this`onlinePlayerCnt, isOnline
      ensures Shape() && Value() == Off(old(Value()), pos)
    {
      isOnline[pos] := false;
      onlinePlayerCnt := onlinePlayerCnt - 1;
      assert isOnline[..] == old(isOnline[..])[pos := false];
    }

    method Remove(pos: int)
      requires Shape() && status == Waiting && 1 <= pos <= playerCnt
      modifies this`playerCnt, this`onlinePlayerCnt, players, teamId, isOnline
      ensures Shape() && Value() == Removed(old(Value()), pos)
    {
      ghost var s := Value();
      ShiftDown(pos);
      DropLast();
      assert Value() == Removed(s, pos);
    }

    // Takes the last slot out of use.
    method DropLast()
      requires Shape() && 1 <= playerCnt
      modifies this`playerCnt, this`onlinePlayerCnt, isOnline
      ensures Value() == old(Value()).(online := old(isOnline[..])[old(playerCnt) := false],
                                       cnt := old(playerCnt) - 1, onlineCnt := old(onlinePlayerCnt) - 1)
    {
      isOnline[playerCnt] := false;
      assert isOnline[..] == old(isOnline[..])[playerCnt := false];
      playerCnt := playerCnt - 1;
      onlinePlayerCnt := onlinePlayerCnt - 1;
    }

    // Once everyone has been told: clears the flag of a loaded player, and starts the game after
    // one who had not loaded if the counters say so.
    method FinishDeparture(pos: int)
      requires Shape() && 1 <= pos <= MAX_PLAYER_CNT
      modifies this, players, teamId, isOnline, isLoadingSucceed
      ensures Shape() && Value() == Departed(old(Value()), pos)
      decreases Depth(), 4, 0
    {
      if isLoadingSucceed[pos] {
        loadingSucceedCnt := loadingSucceedCnt - 1;
        isLoadingSucceed[pos] := false;
        assert isLoadingSucceed[..] == old(isLoadingSucceed[..])[pos := false];
      } else if loadingSucceedCnt >= onlinePlayerCnt {
        SendGameStart();
      }
    }

    // A waiting room closes the gap; a loading room tells everyone and may start; a running game
    // puts the exit in the frame stream.
    method DeletePlayer(userId: int) returns (ok: bool)
      requires Shape()
      modifies this, players, teamId, isOnline, isLoadingSucceed
      ensures Shape() && Value() == Delete(old(Value()), userId) && (ok <==> Find(old(Value()), userId, 1) != 0)
      decreases Depth(), 0, 0
    {
      var pos := GetPlayerID(userId);
      if pos == 0 {
        return false;
      }
      match status {
        case Waiting =>
          Remove(pos);
          SendMessageToEveryone(RoomDetail);
        case Loading =>
          SetOffline(pos);
          SendMessageToEveryone(PlayerExit(pos));
          FinishDeparture(pos);
        case InGame =>
          SetOffline(pos);
          log := log + [SynExit(pos)];
      }
      return true;
    }

    method SendGameLoading(now: int)
      requires Shape()
      modifies this, players, teamId, isOnline, isLoadingSucceed
      ensures Shape() && Value() == BeginLoading(old(Value()), now)
    {
      if status != Waiting {
        return;
      }
      SendMessageToEveryone(GameLoading);
      ghost var e := Value();
      status := Loading;
      loadingSucceedCnt := 0;
      loadingTimeSecond := now;
      forall i | 0 <= i < isLoadingSucceed.Length {
        isLoadingSucceed[i] := false;
      }
      assert isLoadingSucceed[..] == seq(MAX_PLAYER_CNT + 1, i => false);
      assert isOnline[..] == e.online && players[..] == e.players && teamId[..] == e.teams;
    }

    // Marks a player loaded and says whether that was the last one. Sent to a room that is not
    // loading, it removes the player.
    method AddLoadingSucceed(userId: int) returns (all: bool)
      requires Shape()
      modifies this, players, teamId, isOnline, isLoadingSucceed
      ensures Shape()
      ensures old(status) == Loading ==> Value() == Mark(old(Value()), userId) && all == old(Completes(Value(), userId))
      ensures old(status) != Loading ==> Value() == Delete(old(Value()), userId) && !all
    {
      if status != Loading {
        var _ := DeletePlayer(userId);
        return false;
      }
      var pos := GetPlayerID(userId);
      if pos == 0 || isLoadingSucceed[pos] {
        return false;
      }
      isLoadingSucceed[pos] := true;
      assert isLoadingSucceed[..] == old(isLoadingSucceed[..])[pos := true];
      loadingSucceedCnt := loadingSucceedCnt + 1;
      return loadingSucceedCnt >= onlinePlayerCnt;
    }

    method GameEnd(userId: int) returns (ok: bool)
      requires Shape()
      modifies this`onlinePlayerCnt, isOnline
      ensures Shape() && Value() == End(old(Value()), userId)
      ensures ok <==> status == InGame && Find(old(Value()), userId, 1) != 0
    {
      if status != InGame {
        return false;
      }
      var pos := GetPlayerID(userId);
      if pos == 0 {
        return false;
      }
      SetOffline(pos);
      return true;
    }

    // ---- Handlers ----

    // CSReadyToStart: only the owner, in slot 1, can start the loading phase.
    method ReadyToStart(userId: int, now: int) returns (ok: bool)
      requires Shape()
      modifies this, players, teamId, isOnline, isLoadingSucceed
      ensures Shape() && Value() == OwnerReady(old(Value()), userId, now)
      ensures ok <==> Find(old(Value()), userId, 1) == 1
    {
      var pos := GetPlayerID(userId);
      if pos != 1 {
        return false;
      }
      SendGameLoading(now);
      return true;
    }

    // CSLoadSucceed: the last player to load starts the game.
    method LoadSucceed(userId: int)
      requires Shape()
      modifies this, players, teamId, isOnline, isLoadingSucceed
      ensures Shape() && Value() == Report(old(Value()), userId)
    {
      if status == Loading {
        var all := AddLoadingSucceed(userId);
        if all {
          SendGameStart();
        }
      }
    }

    // A room that has loaded for too long kicks everyone who has not; a running game runs its
    // synchroniser, which broadcasts some number of messages.
    method OnTick(now: int, frames: nat)
      requires Shape()
      modifies this, players, teamId, isOnline, isLoadingSucceed
      ensures Shape() && Value() == Tick(old(Value()), now, frames)
      ensures old(status) == Loading && now - old(loadingTimeSecond) < 180 ==> Value() == old(Value())
      ensures old(status) == Waiting ==> Value() == old(Value())
    {
      if status == Loading {
        if now - loadingTimeSecond >= MAX_LOADING_TIME_SECOND {
          KickUnloaded();
          SendGameStart();
        }
      } else if status == InGame {
        log := log + [SynRun];
        ghost var s := Value();
        for n := 0 to frames
          invariant Shape() && Value() == Frames(s, n)
        {
          SendMessageToEveryone(Frame);
        }
      }
    }

    method KickUnloaded()
      requires Shape()
      modifies this, players, teamId, isOnline, isLoadingSucceed
      ensures Shape() && Value() == Kick(old(Value()), 1)
    {
      var i := 1;
      while i <= playerCnt
        invariant 1 <= i && Shape() && Kick(Value(), i) == Kick(old(Value()), 1)
        decreases MAX_PLAYER_CNT + 1 - i
      {
        if isOnline[i] && !isLoadingSucceed[i] {
          var _ := DeletePlayer(players[i]);
        }
        i := i + 1;
      }
    }

    method Handle(e: Event)
      requires Shape()
      modifies this, players, teamId, isOnline, isLoadingSucceed
      ensures Shape() && Value() == Apply(old(Value()), e)
    {
      match e {
        case Joined(u) =>
          if u !in players[1..playerCnt + 1] {
            var _ := AddPlayer(u);
          }
        case Left(u) => var _ := DeletePlayer(u);
        case OwnerStarts(u, now) => var _ := ReadyToStart(u, now);
        case Loaded(u) => LoadSucceed(u);
        case Ended(u) => var _ := GameEnd(u);
        case Ticked(now, frames) => OnTick(now, frames);
      }
    }

    // Any sequence of handlers, with any sends failing, keeps the room valid and never moves the
    // status back; the game starts early or twice only as RunIsHandled says. With no send failing
    // the barrier holds throughout.
    method Session(events: seq<Event>)
      requires Shape() && Valid(Value())
      modifies this, players, teamId, isOnline, isLoadingSucceed
      ensures Shape() && Value() == Run(old(Value()), events) && Handled(old(Value()), Value())
      ensures !mixed ==> !early && Starts(log) <= 1
      ensures old(fails == [] && Barrier(Value())) ==> Barrier(Value())
    {
      ghost var s := Value();
      assert events[0..] == events;
      for k := 0 to |events|
        invariant Shape() && Run(Value(), events[k..]) == Run(s, events)
      {
        assert events[k..][1..] == events[k + 1..];
        Handle(events[k]);
      }
      RunIsHandled(s, events);
      if s.fails == [] && Barrier(s) { QuietRun(s, events); }
    }
  }
}
