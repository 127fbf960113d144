// Runs of a room in which no send fails: the loading barrier as it is meant.
module QuietRoom {
  import opened Common
  import opened RoomSpec
  import opened RoomRuns

  lemma QuietDelete(s: State, user: int)
    requires Shaped(s) && s.fails == []
    ensures Delete(s, user).fails == [] && Delete(s, user).mixed == s.mixed
  {
    var pos := Find(s, user, 1);
    if pos != 0 {
      match s.status
      case Waiting => QuietEveryone(Removed(s, pos), RoomDetail, 1);
      case Loading =>
        QuietEveryone(Off(s, pos), PlayerExit(pos), 1);
        QuietStart(Telling(Off(s, pos), PlayerExit(pos)));
      case InGame =>
    }
  }

  lemma QuietStart(s: State)
    requires Shaped(s) && s.fails == []
    ensures Start(s).fails == [] && Start(s).mixed == s.mixed
  {
    QuietEveryone(s.(early := s.early || Waits(s)), GameStart, 1);
  }

  // From slot i on, exactly the players who have not loaded are gone.
  ghost predicate KicksUnloaded(s: State, r: State, i: int)
    requires Shaped(s) && Shaped(r)
  {
    && r.loaded == s.loaded
    && forall k :: 0 <= k <= MAX_PLAYER_CNT ==> r.online[k] == (s.online[k] && (k < i || s.loaded[k]))
  }

  lemma KickedUnloaded(s: State, d: State, r: State, i: int)
    requires Shaped(s) && Shaped(d) && Shaped(r) && 1 <= i <= s.cnt && !s.loaded[i]
    requires d.loaded == s.loaded && d.online == s.online[i := false] && KicksUnloaded(d, r, i + 1)
    ensures KicksUnloaded(s, r, i)
  {}

  // The kicks then take offline exactly the players who have not loaded.
  lemma {:induction false} QuietKick(s: State, i: int)
    requires Valid(s) && !s.status.Waiting? && s.fails == [] && 1 <= i
    ensures Kick(s, i).fails == [] && Kick(s, i).mixed == s.mixed && KicksUnloaded(s, Kick(s, i), i)
    decreases MAX_PLAYER_CNT + 1 - i
  {
    if i <= s.cnt {
      if s.online[i] && !s.loaded[i] {
        var d := Delete(s, s.players[i]);
        QuietKickOne(s, i);
        QuietKick(d, i + 1);
        KickedUnloaded(s, d, Kick(d, i + 1), i);
      } else {
        QuietKick(s, i + 1);
      }
    }
  }

  lemma QuietKickOne(s: State, i: int)
    requires Valid(s) && !s.status.Waiting? && s.fails == [] && 1 <= i <= s.cnt && s.online[i] && !s.loaded[i]
    ensures var r := Delete(s, s.players[i]);
            && Valid(r) && !r.status.Waiting? && r.fails == [] && r.mixed == s.mixed && r.cnt == s.cnt
            && r.loaded == s.loaded && r.online == s.online[i := false]
  {
    var user := s.players[i];
    assert Find(s, user, 1) == i;
    KickOne(s, i);
    QuietDelete(s, user);
    QuietTakesOff(s, i);
  }

  lemma QuietTakesOff(s: State, i: int)
    requires Core(s) && !s.status.Waiting? && s.fails == [] && 1 <= i <= s.cnt && s.online[i] && !s.loaded[i]
    requires Find(s, s.players[i], 1) == i
    ensures var r := Delete(s, s.players[i]); r.loaded == s.loaded && r.online == s.online[i := false]
  {
    if s.status.Loading? { QuietDeparture(s, s.players[i]); }
    assert s.loaded[i := false] == s.loaded;
  }

  lemma {:induction false} QuietFrames(s: State, n: nat)
    requires Shaped(s) && s.fails == []
    ensures Frames(s, n).fails == [] && Frames(s, n).mixed == s.mixed
  {
    if n > 0 {
      QuietFrames(s, n - 1);
      QuietEveryone(Frames(s, n - 1), Frame, 1);
    }
  }

  // The barrier as it is meant: a loading room waits on someone, and the game has started at
  // most once and only when everyone online had loaded.
  ghost predicate Barrier(s: State) {
    Valid(s) && !s.mixed && (s.status.Loading? ==> Waits(s))
  }

  lemma QuietApply(s: State, e: Event)
    requires Barrier(s) && s.fails == []
    ensures Barrier(Apply(s, e)) && Apply(s, e).fails == []
  {
    ApplyIsHandled(s, e);
    match e
    case Joined(u) =>
    case Left(u) =>
      QuietDelete(s, u);
      DeleteEvolves(s, u);
    case OwnerStarts(u, now) =>
      if Find(s, u, 1) == 1 && s.status.Waiting? {
        CountSome(s.online, 1);
        QuietEveryone(s, GameLoading, 1);
        BeginLoadingExactly(s, now);
      }
    case Loaded(u) =>
      if s.status.Loading? {
        ReportExactly(s, u);
        QuietStart(Mark(s, u));
      }
    case Ended(u) =>
    case Ticked(now, frames) => QuietTick(s, now, frames);
  }

  lemma QuietTick(s: State, now: int, frames: nat)
    requires Barrier(s) && s.fails == []
    ensures var r := Tick(s, now, frames); r.fails == [] && !r.mixed && (r.status.Loading? ==> r == s)
  {
    match s.status
    case Waiting =>
    case Loading =>
      if now - s.since >= MAX_LOADING_TIME_SECOND {
        TimeoutExactly(s, now, frames);
        QuietKick(s, 1);
      }
    case InGame =>
      StartsAppend(s.log, SynRun);
      QuietFrames(s.(log := s.log + [SynRun]), frames);
      TickIsHandled(s, now, frames);
  }

  lemma {:induction false} QuietRun(s: State, es: seq<Event>)
    requires Barrier(s) && s.fails == []
    ensures Barrier(Run(s, es)) && !Run(s, es).early && Starts(Run(s, es).log) <= 1
    decreases es
  {
    if es != [] {
      QuietApply(s, es[0]);
      QuietRun(Apply(s, es[0]), es[1..]);
    }
  }
}
