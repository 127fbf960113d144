// SYN: the frame synchroniser. Messages wait in a ring of 64 bounded frames indexed from a
// moving head; a clock-driven loop broadcasts the frames in order.
module Syn {
  import opened Common

  const ALLOWED_DELAY := 3
  const ALLOWED_EXIST := 20
  const ONE_FRAME_BUFFER_SIZE := 32
  const SYN_BUFFER_SIZE := 64
  const FRAME_US := 20000

  datatype Mess = Mess(messageId: int, framenum: int, payload: seq<byte>)

  // What SendMessageToEveryone is given: an empty frame's tick, or a stored message.
  datatype Broadcast = Tick(frame: int) | Relay(m: Mess)

  // ---- The reference: what an event history means, with no ring ----

  // A message that arrives, or a run of the scheduler, at a frame number read off the clock.
  datatype Event = Arrive(m: Mess, now: int) | Ran(now: int)

  function Max(a: int, b: int): int { if a >= b then a else b }

  // The first frame not yet sent.
  function HeadAfter(h: seq<Event>): int {
    if h == [] then 1
    else
      var e, before := h[|h| - 1], HeadAfter(h[..|h| - 1]);
      if e.Ran? then Max(before, e.now - ALLOWED_DELAY) else before
  }

  function NowAfter(h: seq<Event>): int {
    if h == [] then 1 else h[|h| - 1].now
  }

  // The frame a message goes to: its own if it is within the delay either way, the head
  // frame if it is late but not too late, and none otherwise.
  function Target(m: Mess, now: int, head: int): Option<int> {
    if m.framenum > now + 3 then None
    else if m.framenum + ALLOWED_DELAY >= now then Some(m.framenum)
    else if m.framenum + ALLOWED_EXIST >= now then Some(head)
    else None
  }

  // The messages sent to a frame, in order of arrival.
  function Arrivals(h: seq<Event>, f: int): seq<Mess> {
    if h == [] then []
    else
      var e, before := h[|h| - 1], h[..|h| - 1];
      if e.Arrive? && Target(e.m, e.now, HeadAfter(before)) == Some(f)
      then Arrivals(before, f) + [e.m]
      else Arrivals(before, f)
  }

  // A frame keeps the first 32 of them.
  function Stored(h: seq<Event>, f: int): seq<Mess> {
    var a := Arrivals(h, f);
    if |a| <= ONE_FRAME_BUFFER_SIZE then a else a[..ONE_FRAME_BUFFER_SIZE]
  }

  function Render(f: int, ms: seq<Mess>): seq<Broadcast> {
    if ms == [] then [Tick(f)] else seq(|ms|, i requires 0 <= i < |ms| => Relay(ms[i].(framenum := f)))
  }

  // Frames 1, 2, ..., n - 1 in order, each with everything stored for it.
  function Broadcasts(h: seq<Event>, n: int): seq<Broadcast> {
    if n <= 1 then [] else Broadcasts(h, n - 1) + Render(n - 1, Stored(h, n - 1))
  }

  // What the code needs of its environment: the clock does not go back, frame numbers start
  // at 1, and the head is at most 60 frames behind when a message arrives.
  predicate WellTimed(h: seq<Event>) {
    h == [] ||
    (var e, before := h[|h| - 1], h[..|h| - 1];
     WellTimed(before) && e.now >= NowAfter(before) &&
     (e.Arrive? ==> e.m.framenum >= 1 && e.now - HeadAfter(before) <= 60))
  }

  lemma Last(h: seq<Event>, e: Event)
    ensures (h + [e])[|h + [e]| - 1] == e && (h + [e])[..|h + [e]| - 1] == h
  {}

  lemma {:induction false} HeadBounds(h: seq<Event>)
    requires WellTimed(h)
    ensures 1 <= HeadAfter(h) <= Max(1, NowAfter(h) - ALLOWED_DELAY) && NowAfter(h) >= 1
  {
    if h != [] { HeadBounds(h[..|h| - 1]); }
  }

  // Where a message goes by how far its frame is from the present one: nowhere if it is more
  // than 3 ahead or more than 20 behind, to its own frame up to 3 either way, and to the head
  // frame from 4 to 20 behind.
  lemma TargetExactly(m: Mess, now: int, head: int)
    ensures m.framenum - now > 3 || m.framenum - now < -20 <==> Target(m, now, head) == None
    ensures -3 <= m.framenum - now <= 3 ==> Target(m, now, head) == Some(m.framenum)
    ensures -20 <= m.framenum - now <= -4 ==> Target(m, now, head) == Some(head)
  {}

  // A stored message lands in one of the 64 frames from the head on, never in a frame
  // already sent.
  lemma TargetIsInRing(m: Mess, now: int, head: int)
    requires m.framenum >= 1 && 1 <= head <= Max(1, now - ALLOWED_DELAY) && now - head <= 60
    requires Target(m, now, head).Some?
    ensures head <= Target(m, now, head).value < head + SYN_BUFFER_SIZE
  {}

  // The 60-frame assumption is exactly what makes the ring big enough for every message the
  // code accepts.
  lemma RingFitsExactly(now: int, head: int)
    requires 1 <= head <= Max(1, now - ALLOWED_DELAY)
    ensures (forall m: Mess :: m.framenum >= 1 && Target(m, now, head).Some? ==>
               head <= Target(m, now, head).value < head + SYN_BUFFER_SIZE)
            <==> now - head <= 60
  {
    if now - head > 60 {
      var m := Mess(0, now + 3, []);
      assert m.framenum >= 1 && Target(m, now, head).value >= head + SYN_BUFFER_SIZE;
    }
  }

  // Nothing reaches a frame once it has been sent, however the run continues.
  lemma {:induction false} SentFramesAreFrozen(h: seq<Event>, g: seq<Event>, f: int)
    requires WellTimed(h + g) && f < HeadAfter(h)
    ensures WellTimed(h) && HeadAfter(h) <= HeadAfter(h + g) && Stored(h + g, f) == Stored(h, f)
    ensures Arrivals(h + g, f) == Arrivals(h, f)
    decreases |g|
  {
    if g == [] {
      assert h + g == h;
    } else {
      var e, g' := g[|g| - 1], g[..|g| - 1];
      assert (h + g)[|h + g| - 1] == e && (h + g)[..|h + g| - 1] == h + g';
      SentFramesAreFrozen(h, g', f);
      HeadBounds(h + g');
      if e.Arrive? && Target(e.m, e.now, HeadAfter(h + g')).Some? {
        TargetIsInRing(e.m, e.now, HeadAfter(h + g'));
      }
    }
  }

  lemma {:induction false} NothingBeyondTheRing(h: seq<Event>, f: int)
    requires WellTimed(h) && f >= HeadAfter(h) + SYN_BUFFER_SIZE
    ensures Arrivals(h, f) == []
  {
    if h != [] {
      var e, before := h[|h| - 1], h[..|h| - 1];
      NothingBeyondTheRing(before, f);
      HeadBounds(before);
      if e.Arrive? && Target(e.m, e.now, HeadAfter(before)).Some? {
        TargetIsInRing(e.m, e.now, HeadAfter(before));
      }
    }
  }

  // What has been broadcast is never revised: a longer run only adds to it.
  lemma {:induction false} BroadcastsAreStable(h: seq<Event>, g: seq<Event>, n: int)
    requires WellTimed(h + g) && n <= HeadAfter(h)
    ensures Broadcasts(h + g, n) == Broadcasts(h, n)
    decreases n
  {
    if n > 1 {
      BroadcastsAreStable(h, g, n - 1);
      SentFramesAreFrozen(h, g, n - 1);
    }
  }

  lemma BroadcastsStep(h: seq<Event>, n: int)
    requires n >= 1
    ensures Broadcasts(h, n + 1) == Broadcasts(h, n) + Render(n, Stored(h, n))
  {}

  // Each frame before the head goes out once, in its place: one tick if it is empty, and
  // otherwise its messages in order of arrival.
  lemma {:induction false} FrameIsBroadcastInPlace(h: seq<Event>, f: int, n: int)
    requires 1 <= f < n
    ensures |Broadcasts(h, f)| <= |Broadcasts(h, f + 1)| <= |Broadcasts(h, n)|
    ensures ShownAs(Broadcasts(h, n)[|Broadcasts(h, f)|..|Broadcasts(h, f + 1)|], f, Stored(h, f))
    ensures Broadcasts(h, n)[|Broadcasts(h, f)|..|Broadcasts(h, f + 1)|] == Render(f, Stored(h, f))
    decreases n
  {
    BroadcastsGrow(h, f + 1, n);
    BroadcastsStep(h, f);
    RenderShows(f, Stored(h, f));
  }

  lemma RenderShows(f: int, ms: seq<Mess>)
    ensures ShownAs(Render(f, ms), f, ms)
  {}

  // How a frame looks on the wire: one tick with its number if it is empty, and otherwise each
  // of its messages, in order, under its number, and no tick.
  ghost predicate ShownAs(bs: seq<Broadcast>, f: int, ms: seq<Mess>) {
    if |ms| == 0 then bs == [Tick(f)]
    else |bs| == |ms| && forall k :: 0 <= k < |ms| ==> bs[k] == Relay(ms[k].(framenum := f))
  }

  // Every accepted message is meant for exactly one frame.
  function AcceptedCount(h: seq<Event>): nat {
    if h == [] then 0
    else
      var e, before := h[|h| - 1], h[..|h| - 1];
      AcceptedCount(before) + if e.Arrive? && Target(e.m, e.now, HeadAfter(before)).Some? then 1 else 0
  }

  function ArrivalCount(h: seq<Event>, n: int): nat {
    if n <= 1 then 0 else ArrivalCount(h, n - 1) + |Arrivals(h, n - 1)|
  }

  lemma {:induction false} ArrivalCountStep(h: seq<Event>, n: int)
    requires h != []
    ensures var e, before := h[|h| - 1], h[..|h| - 1];
            var t := if e.Arrive? then Target(e.m, e.now, HeadAfter(before)) else None;
            ArrivalCount(h, n) == ArrivalCount(before, n) + if t.Some? && 1 <= t.value < n then 1 else 0
    decreases n
  {
    if n > 1 { ArrivalCountStep(h, n - 1); }
  }

  lemma {:induction false} EveryAcceptedMessageHasOneFrame(h: seq<Event>, n: int)
    requires WellTimed(h) && n >= HeadAfter(h) + SYN_BUFFER_SIZE
    ensures ArrivalCount(h, n) == AcceptedCount(h)
    decreases |h|
  {
    if h == [] {
      NoArrivals(n);
    } else {
      var e, before := h[|h| - 1], h[..|h| - 1];
      HeadBounds(before);
      EveryAcceptedMessageHasOneFrame(before, n);
      ArrivalCountStep(h, n);
      if e.Arrive? && Target(e.m, e.now, HeadAfter(before)).Some? {
        TargetIsInRing(e.m, e.now, HeadAfter(before));
      }
    }
  }

  lemma {:induction false} NoArrivals(n: int)
    ensures ArrivalCount([], n) == 0
    decreases n
  {
    if n > 1 { NoArrivals(n - 1); }
  }

  // ---- What becomes of the accepted messages ----

  lemma {:induction false} ArrivalsOnlyGrow(h: seq<Event>, g: seq<Event>, f: int)
    ensures Arrivals(h, f) <= Arrivals(h + g, f)
    decreases |g|
  {
    if g == [] {
      assert h + g == h;
    } else {
      var e, g' := g[|g| - 1], g[..|g| - 1];
      assert h + g == (h + g') + [e];
      Last(h + g', e);
      ArrivalsOnlyGrow(h, g', f);
    }
  }

  // A frame keeps its first 32 messages and no other: the message that comes after k others
  // has place k in its frame exactly when k is below 32, and then keeps it for good.
  lemma {:induction false} StoredExactly(h: seq<Event>, m: Mess, now: int, g: seq<Event>, f: int)
    requires Target(m, now, HeadAfter(h)) == Some(f)
    ensures var k, frame := |Arrivals(h, f)|, Stored(h + [Arrive(m, now)] + g, f);
            InExactly(frame, k, m) && frame[..if k < |frame| then k else |frame|] == Stored(h, f)
  {
    var h', a := h + [Arrive(m, now)], Arrivals(h, f);
    Last(h, Arrive(m, now));
    assert Arrivals(h', f) == a + [m];
    ArrivalsOnlyGrow(h', g, f);
    var b := Arrivals(h' + g, f);
    assert b[..|a|] == a && b[|a|] == m;
  }

  // A frame that is not empty takes up as many broadcasts as it has messages, each in place.
  lemma PlaceInFrame(h: seq<Event>, f: int, n: int, k: nat)
    requires 1 <= f < n
    ensures var lo, hi := |Broadcasts(h, f)|, |Broadcasts(h, f + 1)|;
            lo <= hi <= |Broadcasts(h, n)| && (Stored(h, f) != [] ==> hi - lo == |Stored(h, f)|) &&
            (k < |Stored(h, f)| ==> Broadcasts(h, n)[lo + k] == Relay(Stored(h, f)[k].(framenum := f)))
  {
    FrameIsBroadcastInPlace(h, f, n);
    var lo, hi, slice := |Broadcasts(h, f)|, |Broadcasts(h, f + 1)|, Render(f, Stored(h, f));
    assert Broadcasts(h, n)[lo..hi] == slice;
    if k < |Stored(h, f)| { assert Broadcasts(h, n)[lo + k] == slice[k]; }
  }

  // The message meant for place k of a frame is at that place of the frame's broadcasts, or the
  // frame is full without it.
  ghost predicate OutExactly(all: seq<Event>, f: int, n: int, k: nat, m: Mess) {
    var lo, hi := |Broadcasts(all, f)|, |Broadcasts(all, f + 1)|;
    && lo <= hi <= |Broadcasts(all, n)| && (k < hi - lo <==> k < ONE_FRAME_BUFFER_SIZE)
    && (k < hi - lo ==> Broadcasts(all, n)[lo + k] == Relay(m.(framenum := f)))
  }

  ghost predicate InExactly(frame: seq<Mess>, k: nat, m: Mess) {
    frame != [] && (k < |frame| <==> k < ONE_FRAME_BUFFER_SIZE) && (k < |frame| ==> frame[k] == m)
  }

  lemma InIsOut(all: seq<Event>, f: int, n: int, k: nat, m: Mess)
    requires 1 <= f < n && InExactly(Stored(all, f), k, m)
    ensures OutExactly(all, f, n, k, m)
  {
    PlaceInFrame(all, f, n, k);
  }

  // So it goes out, in its place in its frame's part of the broadcasts, exactly when fewer
  // than 32 messages came for that frame before it.
  lemma {:induction false} BroadcastExactly(h: seq<Event>, m: Mess, now: int, g: seq<Event>, f: int, n: int)
    requires Target(m, now, HeadAfter(h)) == Some(f) && 1 <= f < n
    ensures OutExactly(h + [Arrive(m, now)] + g, f, n, |Arrivals(h, f)|, m)
  {
    StoredExactly(h, m, now, g, f);
    InIsOut(h + [Arrive(m, now)] + g, f, n, |Arrivals(h, f)|, m);
  }

  // Messages dropped because their frame was full.
  function OverflowCount(h: seq<Event>): nat {
    if h == [] then 0
    else
      var e, before := h[|h| - 1], h[..|h| - 1];
      var t := if e.Arrive? then Target(e.m, e.now, HeadAfter(before)) else None;
      OverflowCount(before) + if t.Some? && |Stored(before, t.value)| >= ONE_FRAME_BUFFER_SIZE then 1 else 0
  }

  // Messages stored in the frames from a up to b.
  function StoredCount(h: seq<Event>, a: int, b: int): nat
    decreases b - a
  {
    if b <= a then 0 else StoredCount(h, a, b - 1) + |Stored(h, b - 1)|
  }

  function Relays(bs: seq<Broadcast>): nat {
    if bs == [] then 0 else Relays(bs[..|bs| - 1]) + if bs[|bs| - 1].Relay? then 1 else 0
  }

  lemma {:induction false} RelaysOfParts(a: seq<Broadcast>, b: seq<Broadcast>)
    ensures Relays(a + b) == Relays(a) + Relays(b)
    decreases |b|
  {
    if b == [] {
      assert a + b == a;
    } else {
      assert (a + b)[..|a + b| - 1] == a + b[..|b| - 1];
      RelaysOfParts(a, b[..|b| - 1]);
    }
  }

  lemma {:induction false} AllRelays(bs: seq<Broadcast>)
    requires forall i :: 0 <= i < |bs| ==> bs[i].Relay?
    ensures Relays(bs) == |bs|
  {
    if bs != [] { AllRelays(bs[..|bs| - 1]); }
  }

  lemma RelaysOfFrame(f: int, ms: seq<Mess>)
    ensures Relays(Render(f, ms)) == |ms|
  {
    if ms == [] {
      assert Render(f, ms)[..0] == [];
    } else {
      AllRelays(Render(f, ms));
    }
  }

  lemma {:induction false} RelaysOfBroadcasts(h: seq<Event>, n: int)
    ensures Relays(Broadcasts(h, n)) == StoredCount(h, 1, n)
    decreases n
  {
    if n > 1 {
      RelaysOfBroadcasts(h, n - 1);
      RelaysOfParts(Broadcasts(h, n - 1), Render(n - 1, Stored(h, n - 1)));
      RelaysOfFrame(n - 1, Stored(h, n - 1));
    }
  }

  lemma {:induction false} StoredCountStep(h: seq<Event>, e: Event, a: int, b: int)
    ensures var t := if e.Arrive? then Target(e.m, e.now, HeadAfter(h)) else None;
            StoredCount(h + [e], a, b) == StoredCount(h, a, b) +
              if t.Some? && a <= t.value < b && |Stored(h, t.value)| < ONE_FRAME_BUFFER_SIZE then 1 else 0
    decreases b - a
  {
    if a < b {
      StoredCountStep(h, e, a, b - 1);
      match e
      case Arrive(m, now) => StoredAfterArrival(h, m, now, b - 1);
      case Ran(now) => StoredAfterRun(h, now, b - 1);
    }
  }

  lemma {:induction false} StoredCountSplits(h: seq<Event>, a: int, b: int, c: int)
    requires a <= b <= c
    ensures StoredCount(h, a, c) == StoredCount(h, a, b) + StoredCount(h, b, c)
    decreases c - b
  {
    if b < c { StoredCountSplits(h, a, b, c - 1); }
  }

  lemma {:induction false} AcceptedAreStoredOrDropped(h: seq<Event>, n: int)
    requires WellTimed(h) && n >= HeadAfter(h) + SYN_BUFFER_SIZE
    ensures StoredCount(h, 1, n) + OverflowCount(h) == AcceptedCount(h)
    decreases |h|
  {
    if h == [] {
      NothingStored(1, n);
    } else {
      var e, before := h[|h| - 1], h[..|h| - 1];
      assert h == before + [e];
      HeadBounds(before);
      AcceptedAreStoredOrDropped(before, n);
      StoredCountStep(before, e, 1, n);
      if e.Arrive? && Target(e.m, e.now, HeadAfter(before)).Some? {
        TargetIsInRing(e.m, e.now, HeadAfter(before));
      }
    }
  }

  lemma {:induction false} NothingStored(a: int, b: int)
    ensures StoredCount([], a, b) == 0
    decreases b - a
  {
    if a < b { NothingStored(a, b - 1); }
  }

  // Conservation: every accepted message has been relayed, is waiting in one of the 64 open
  // frames, or was dropped because its frame was full.
  lemma Conservation(h: seq<Event>)
    requires WellTimed(h)
    ensures var head := HeadAfter(h);
            Relays(Broadcasts(h, head)) + StoredCount(h, head, head + SYN_BUFFER_SIZE) + OverflowCount(h) ==
            AcceptedCount(h)
  {
    var head := HeadAfter(h);
    HeadBounds(h);
    RelaysOfBroadcasts(h, head);
    StoredCountSplits(h, 1, head, head + SYN_BUFFER_SIZE);
    AcceptedAreStoredOrDropped(h, head + SYN_BUFFER_SIZE);
  }

  // n messages for frame 1, all at frame 1.
  function Burst(n: nat): seq<Event> {
    if n == 0 then [] else Burst(n - 1) + [Arrive(Mess(0, 1, []), 1)]
  }

  lemma {:induction false} BurstOverflows(n: nat)
    ensures WellTimed(Burst(n)) && HeadAfter(Burst(n)) == 1 && NowAfter(Burst(n)) == 1
    ensures AcceptedCount(Burst(n)) == |Arrivals(Burst(n), 1)| == n
  {
    if n > 0 {
      BurstOverflows(n - 1);
      Last(Burst(n - 1), Arrive(Mess(0, 1, []), 1));
    }
  }

  // Accepted is not kept: of 33 messages accepted for one frame, 32 are stored.
  lemma FullFrameDrops()
    ensures var h := Burst(33); WellTimed(h) && AcceptedCount(h) == 33 && |Stored(h, 1)| == 32 && OverflowCount(h) == 1
  {
    BurstOverflows(33);
    BurstOverflows(32);
    OnlyFrameOne(33, 1, 65);
    AcceptedAreStoredOrDropped(Burst(33), 65);
  }

  lemma {:induction false} OnlyFrameOne(n: nat, a: int, b: int)
    requires 1 == a < b
    ensures StoredCount(Burst(n), a, b) == |Stored(Burst(n), 1)|
    decreases b
  {
    if b > 2 {
      OnlyFrameOne(n, a, b - 1);
      NoOtherFrame(n, b - 1);
    }
  }

  lemma {:induction false} NoOtherFrame(n: nat, f: int)
    requires f != 1
    ensures Arrivals(Burst(n), f) == []
  {
    if n > 0 {
      NoOtherFrame(n - 1, f);
      BurstOverflows(n - 1);
      Last(Burst(n - 1), Arrive(Mess(0, 1, []), 1));
    }
  }

  // ---- When the 60-frame assumption holds ----

  // The frame of the last run of the scheduler, or the first frame.
  function LastRan(h: seq<Event>): int {
    if h == [] then 1
    else if h[|h| - 1].Ran? then h[|h| - 1].now
    else LastRan(h[..|h| - 1])
  }

  lemma {:induction false} HeadFollowsLastRun(h: seq<Event>)
    requires WellTimed(h)
    ensures HeadAfter(h) == Max(1, LastRan(h) - ALLOWED_DELAY) && LastRan(h) <= NowAfter(h)
  {
    if h != [] { HeadFollowsLastRun(h[..|h| - 1]); }
  }

  // A message meets the 60-frame assumption exactly when it comes within 57 frames of the
  // last run, or within 60 of the start of the game.
  lemma RecentRunSuffices(h: seq<Event>, now: int)
    requires WellTimed(h)
    ensures now - HeadAfter(h) <= 60 <==> now - LastRan(h) <= 57 || now - 1 <= 60
  {
    HeadFollowsLastRun(h);
  }

  // ---- The ring ----

  function Slot(head: int, diff: int): (i: int)
    requires 0 <= head < SYN_BUFFER_SIZE && 0 <= diff < SYN_BUFFER_SIZE
    ensures 0 <= i < SYN_BUFFER_SIZE
    ensures i == if head + diff < SYN_BUFFER_SIZE then head + diff else head + diff - SYN_BUFFER_SIZE
  {
    (head + diff) % SYN_BUFFER_SIZE
  }

  // OneFrame::Add.
  function OneFrameAdd(frame: seq<Mess>, m: Mess): seq<Mess> {
    if |frame| >= ONE_FRAME_BUFFER_SIZE then frame else frame + [m]
  }

  lemma StoredAfterArrival(h: seq<Event>, m: Mess, now: int, f: int)
    ensures var h' := h + [Arrive(m, now)];
            Stored(h', f) ==
            if Target(m, now, HeadAfter(h)) == Some(f) then OneFrameAdd(Stored(h, f), m) else Stored(h, f)
  {
    Last(h, Arrive(m, now));
    var a := Arrivals(h, f);
    assert |a| >= ONE_FRAME_BUFFER_SIZE ==> (a + [m])[..ONE_FRAME_BUFFER_SIZE] == a[..ONE_FRAME_BUFFER_SIZE];
  }

  lemma StoredAfterRun(h: seq<Event>, now: int, f: int)
    ensures Stored(h + [Ran(now)], f) == Stored(h, f)
  {
    Last(h, Ran(now));
  }

  // The ring holds exactly the 64 frames of the history from a given one on.
  ghost predicate Holds(ring: seq<seq<Mess>>, head: int, h: seq<Event>, headFrame: int) {
    && |ring| == SYN_BUFFER_SIZE && 0 <= head < SYN_BUFFER_SIZE
    && forall f {:trigger Stored(h, f)} :: headFrame <= f < headFrame + SYN_BUFFER_SIZE ==>
         ring[Slot(head, f - headFrame)] == Stored(h, f)
  }

  predicate Fits(m: Mess, now: int, headFrame: int) {
    var t := Target(m, now, headFrame);
    t.Some? ==> headFrame <= t.value < headFrame + SYN_BUFFER_SIZE
  }

  // The ring with the message in the slot of its target frame.
  function RingPut(ring: seq<seq<Mess>>, head: int, headFrame: int, m: Mess, now: int): seq<seq<Mess>>
    requires |ring| == SYN_BUFFER_SIZE && 0 <= head < SYN_BUFFER_SIZE && Fits(m, now, headFrame)
  {
    match Target(m, now, headFrame)
    case None => ring
    case Some(f) => var i := Slot(head, f - headFrame); ring[i := OneFrameAdd(ring[i], m)]
  }

  lemma RingPutAt(ring: seq<seq<Mess>>, head: int, headFrame: int, m: Mess, now: int, f: int)
    requires |ring| == SYN_BUFFER_SIZE && 0 <= head < SYN_BUFFER_SIZE && Fits(m, now, headFrame)
    requires headFrame <= f < headFrame + SYN_BUFFER_SIZE
    ensures var frame := ring[Slot(head, f - headFrame)];
            RingPut(ring, head, headFrame, m, now)[Slot(head, f - headFrame)] ==
            if Target(m, now, headFrame) == Some(f) then OneFrameAdd(frame, m) else frame
  {
    var t := Target(m, now, headFrame);
    if t.Some? && t.value != f { assert Slot(head, f - headFrame) != Slot(head, t.value - headFrame); }
  }

  // One slot of it.
  lemma SlotAfterArrival(ring: seq<seq<Mess>>, head: int, h: seq<Event>, m: Mess, now: int, f: int)
    requires Holds(ring, head, h, HeadAfter(h)) && Fits(m, now, HeadAfter(h))
    requires HeadAfter(h) <= f < HeadAfter(h) + SYN_BUFFER_SIZE
    ensures RingPut(ring, head, HeadAfter(h), m, now)[Slot(head, f - HeadAfter(h))] == Stored(h + [Arrive(m, now)], f)
  {
    assert ring[Slot(head, f - HeadAfter(h))] == Stored(h, f);
    RingPutAt(ring, head, HeadAfter(h), m, now, f);
    StoredAfterArrival(h, m, now, f);
  }

  lemma RingAfterArrival(ring: seq<seq<Mess>>, head: int, h: seq<Event>, m: Mess, now: int)
    requires WellTimed(h + [Arrive(m, now)]) && Holds(ring, head, h, HeadAfter(h))
    ensures Fits(m, now, HeadAfter(h))
    ensures Holds(RingPut(ring, head, HeadAfter(h), m, now), head, h + [Arrive(m, now)], HeadAfter(h))
  {
    Last(h, Arrive(m, now));
    HeadBounds(h);
    if Target(m, now, HeadAfter(h)).Some? { TargetIsInRing(m, now, HeadAfter(h)); }
    forall f | HeadAfter(h) <= f < HeadAfter(h) + SYN_BUFFER_SIZE
      ensures RingPut(ring, head, HeadAfter(h), m, now)[Slot(head, f - HeadAfter(h))] == Stored(h + [Arrive(m, now)], f)
    {
      SlotAfterArrival(ring, head, h, m, now, f);
    }
  }

  // Everything an arrival does to the history.
  lemma ArrivalStep(h: seq<Event>, m: Mess, now: int)
    requires WellTimed(h) && now >= NowAfter(h) && m.framenum >= 1 && now - HeadAfter(h) <= 60
    ensures var h' := h + [Arrive(m, now)];
            WellTimed(h') && HeadAfter(h') == HeadAfter(h) && NowAfter(h') == now &&
            Broadcasts(h', HeadAfter(h)) == Broadcasts(h, HeadAfter(h))
  {
    Last(h, Arrive(m, now));
    BroadcastsAreStable(h, [Arrive(m, now)], HeadAfter(h));
  }

  // Everything a run does to the history.
  lemma RunStep(h: seq<Event>, now: int, n: int)
    requires WellTimed(h) && now >= NowAfter(h) && HeadAfter(h) <= n
    ensures var h' := h + [Ran(now)];
            WellTimed(h') && HeadAfter(h') == Max(HeadAfter(h), now - ALLOWED_DELAY) && NowAfter(h') == now &&
            Broadcasts(h', n) == Broadcasts(h, n)
    ensures Broadcasts(h, HeadAfter(h)) <= Broadcasts(h, n)
  {
    Last(h, Ran(now));
    BroadcastsAfterRun(h, now, n);
    BroadcastsGrow(h, HeadAfter(h), n);
  }

  lemma RingAfterSend(ring: seq<seq<Mess>>, head: int, h: seq<Event>, headFrame: int)
    requires WellTimed(h) && HeadAfter(h) <= headFrame && Holds(ring, head, h, headFrame)
    ensures Holds(ring[head := []], (head + 1) % SYN_BUFFER_SIZE, h, headFrame + 1)
    ensures ring[head] == Stored(h, headFrame)
  {
    assert Slot(head, 0) == head;
    assert Stored(h, headFrame) == ring[head];
    var head' := (head + 1) % SYN_BUFFER_SIZE;
    forall f | headFrame + 1 <= f < headFrame + 1 + SYN_BUFFER_SIZE
      ensures ring[head := []][Slot(head', f - headFrame - 1)] == Stored(h, f)
    {
      if f < headFrame + SYN_BUFFER_SIZE {
        assert Slot(head', f - headFrame - 1) == Slot(head, f - headFrame) != head;
      } else {
        NothingBeyondTheRing(h, f);
        assert Slot(head', f - headFrame - 1) == head;
      }
    }
  }

  // The ring holds the frames of the history from headFrame on, and those before are out.
  ghost predicate Follows(ring: seq<seq<Mess>>, head: int, sent: seq<Broadcast>, h: seq<Event>, headFrame: int) {
    Holds(ring, head, h, headFrame) && sent == Broadcasts(h, headFrame)
  }

  lemma FollowsAfterSend(ring: seq<seq<Mess>>, head: int, sent: seq<Broadcast>, h: seq<Event>, headFrame: int)
    requires WellTimed(h) && 1 <= headFrame && HeadAfter(h) <= headFrame && Follows(ring, head, sent, h, headFrame)
    ensures Follows(ring[head := []], (head + 1) % SYN_BUFFER_SIZE, sent + Render(headFrame, ring[head]),
                    h, headFrame + 1)
  {
    RingAfterSend(ring, head, h, headFrame);
    BroadcastsStep(h, headFrame);
  }

  lemma RingAfterRun(ring: seq<seq<Mess>>, head: int, h: seq<Event>, now: int, headFrame: int)
    requires Holds(ring, head, h, headFrame)
    ensures Holds(ring, head, h + [Ran(now)], headFrame)
  {
    forall f | headFrame <= f < headFrame + SYN_BUFFER_SIZE ensures Stored(h + [Ran(now)], f) == Stored(h, f) {
      StoredAfterRun(h, now, f);
    }
  }

  lemma {:induction false} BroadcastsAfterRun(h: seq<Event>, now: int, n: int)
    ensures Broadcasts(h + [Ran(now)], n) == Broadcasts(h, n)
    decreases n
  {
    if n > 1 {
      BroadcastsAfterRun(h, now, n - 1);
      StoredAfterRun(h, now, n - 1);
    }
  }

  // The messages waiting in the first k slots from the head.
  function Waiting(ring: seq<seq<Mess>>, head: int, k: int): nat
    requires |ring| == SYN_BUFFER_SIZE && 0 <= head < SYN_BUFFER_SIZE && k <= SYN_BUFFER_SIZE
    decreases k
  {
    if k <= 0 then 0 else Waiting(ring, head, k - 1) + |ring[Slot(head, k - 1)]|
  }

  lemma {:induction false} WaitingIsStored(ring: seq<seq<Mess>>, head: int, h: seq<Event>, headFrame: int, k: int)
    requires Holds(ring, head, h, headFrame) && 0 <= k <= SYN_BUFFER_SIZE
    ensures Waiting(ring, head, k) == StoredCount(h, headFrame, headFrame + k)
    decreases k
  {
    if k > 0 {
      WaitingIsStored(ring, head, h, headFrame, k - 1);
      assert ring[Slot(head, k - 1)] == Stored(h, headFrame + k - 1);
    }
  }

  lemma {:induction false} WellTimedPrefix(h: seq<Event>, g: seq<Event>)
    requires WellTimed(h + g)
    ensures WellTimed(h)
    decreases |g|
  {
    if g == [] {
      assert h + g == h;
    } else {
      assert (h + g)[..|h + g| - 1] == h + g[..|g| - 1];
      WellTimedPrefix(h, g[..|g| - 1]);
    }
  }

  lemma NextIsWellTimed(h: seq<Event>, events: seq<Event>, k: nat)
    requires WellTimed(h + events) && k < |events|
    ensures h + events[..k] + [events[k]] == h + events[..k + 1] && WellTimed(h + events[..k + 1])
  {
    assert h + events == (h + events[..k + 1]) + events[k + 1..];
    WellTimedPrefix(h + events[..k + 1], events[k + 1..]);
  }

  // The same for the ring: what is not yet relayed is waiting in it or was dropped.
  lemma RingConserves(ring: seq<seq<Mess>>, head: int, h: seq<Event>)
    requires WellTimed(h) && Holds(ring, head, h, HeadAfter(h))
    ensures Relays(Broadcasts(h, HeadAfter(h))) + Waiting(ring, head, SYN_BUFFER_SIZE) + OverflowCount(h) ==
            AcceptedCount(h)
  {
    Conservation(h);
    WaitingIsStored(ring, head, h, HeadAfter(h), SYN_BUFFER_SIZE);
  }

  // A call on the synchroniser at a time in microseconds, and the event it is.
  datatype Call = CallAdd(m: Mess, us: int) | CallRun(us: int)

  function FrameOf(initTime: int, us: int): int { (us - initTime) / FRAME_US + 1 }

  // Frame f lasts from 20000 (f - 1) to 20000 f microseconds after the start.
  lemma FrameOfExactly(initTime: int, us: int, f: int)
    ensures FrameOf(initTime, us) == f <==> 20000 * (f - 1) <= us - initTime < 20000 * f
  {}

  function EventOf(initTime: int, c: Call): Event {
    match c
    case CallAdd(m, us) => Arrive(m, FrameOf(initTime, us))
    case CallRun(us) => Ran(FrameOf(initTime, us))
  }

  function EventsOf(initTime: int, cs: seq<Call>): seq<Event> {
    seq(|cs|, i requires 0 <= i < |cs| => EventOf(initTime, cs[i]))
  }

  class SYN {
    const oneframe: array<seq<Mess>>
    var initTime: int
    var head: int
    var headFrame: int
    var nowFrame: int

    // What the room has been given so far.
    var sent: seq<Broadcast>

    ghost var history: seq<Event>
    ghost var clock: int

    // The ring holds the unsent frames of the history; everything before is out.
    ghost predicate Ring()
      reads this, oneframe
    {
      Follows(oneframe[..], head, sent, history, headFrame)
    }

    function FrameAt(now: int): int
      reads this`initTime
    {
      FrameOf(initTime, now)
    }

    ghost predicate Valid()
      reads this, oneframe
    {
      && Ring() && WellTimed(history) && headFrame == HeadAfter(history)
      && initTime <= clock && nowFrame == FrameAt(clock) && NowAfter(history) <= nowFrame
    }

    constructor ()
      ensures oneframe.Length == SYN_BUFFER_SIZE && fresh(oneframe)
    {
      oneframe := new seq<Mess>[SYN_BUFFER_SIZE](i => []);
    }

    // Starts a game: an empty ring at frame 1, whatever the last game left behind.
    method Init(now: int)
      requires oneframe.Length == SYN_BUFFER_SIZE
      modifies this, oneframe
      ensures Valid() && history == [] && sent == [] && clock == initTime == now
    {
      for i := 0 to SYN_BUFFER_SIZE
        invariant forall k :: 0 <= k < i ==> oneframe[k] == []
      {
        oneframe[i] := [];
      }
      initTime, clock := now, now;
      head, headFrame := 0, 1;
      sent, history := [], [];
      nowFrame := FrameAt(now);
    }

    method UpdateTime(now: int)
      requires Valid() && clock <= now
      modifies this`nowFrame, this`clock
      ensures Valid() && clock == now && nowFrame == FrameAt(now)
      ensures 20000 * (nowFrame - 1) <= now - initTime < 20000 * nowFrame
    {
      clock := now;
      nowFrame := FrameAt(now);
    }

    // Stores the message in its frame, in the head frame, or nowhere.
    method Add(m: Mess, now: int)
      requires Valid() && clock <= now
      requires m.framenum >= 1 && FrameAt(now) - headFrame <= 60
      modifies this`nowFrame, this`clock, this`history, oneframe
      ensures Valid() && clock == now && history == old(history) + [Arrive(m, FrameAt(now))]
    {
      UpdateTime(now);
      ArrivalStep(history, m, nowFrame);
      RingAfterArrival(oneframe[..], head, history, m, nowFrame);
      Place(m);
      history := history + [Arrive(m, nowFrame)];
    }

    // Puts the message in the slot of its frame, in the head slot, or nowhere.
    method Place(m: Mess)
      requires oneframe.Length == SYN_BUFFER_SIZE && 0 <= head < SYN_BUFFER_SIZE
      requires Fits(m, nowFrame, headFrame)
      modifies oneframe
      ensures oneframe[..] == RingPut(old(oneframe[..]), head, headFrame, m, nowFrame)
    {
      if m.framenum > nowFrame + 3 {
        // Too far ahead: dropped.
      } else if m.framenum + ALLOWED_DELAY >= nowFrame {
        var diff := m.framenum - headFrame;
        Store((head + diff) % SYN_BUFFER_SIZE, m);
      } else if m.framenum + ALLOWED_EXIST >= nowFrame {
        assert Slot(head, 0) == head;
        Store(head, m);
      } else {
        // Too late: dropped.
      }
    }

    method Store(i: int, m: Mess)
      requires 0 <= i < oneframe.Length
      modifies oneframe
      ensures oneframe[..] == old(oneframe[..])[i := OneFrameAdd(old(oneframe[i]), m)]
    {
      oneframe[i] := OneFrameAdd(oneframe[i], m);
    }

    // Broadcasts the head frame, or a tick if it is empty, and empties it.
    method SendHeadFrameToAll()
      requires oneframe.Length == SYN_BUFFER_SIZE && 0 <= head < SYN_BUFFER_SIZE
      modifies this`sent, oneframe
      ensures sent == old(sent) + Render(headFrame, old(oneframe[head]))
      ensures old(sent) <= sent && ShownAs(sent[|old(sent)|..], headFrame, old(oneframe[head]))
      ensures oneframe[..] == old(oneframe[..])[head := []]
    {
      var frame := oneframe[head];
      if |frame| == 0 {
        sent := sent + [Tick(headFrame)];
      }
      for i := 0 to |frame|
        invariant frame != [] ==> sent == old(sent) + Render(headFrame, frame)[..i]
        invariant frame == [] ==> sent == old(sent) + [Tick(headFrame)]
        invariant oneframe[..] == old(oneframe[..])
      {
        assert Render(headFrame, frame)[..i + 1] ==
               Render(headFrame, frame)[..i] + [Relay(frame[i].(framenum := headFrame))];
        sent := sent + [Relay(frame[i].(framenum := headFrame))];
      }
      oneframe[head] := [];
    }

    method AdvanceHead()
      requires Ring() && WellTimed(history) && HeadAfter(history) <= headFrame && headFrame >= 1
      modifies this`sent, this`head, this`headFrame, oneframe
      ensures Ring() && headFrame == old(headFrame) + 1
    {
      FollowsAfterSend(oneframe[..], head, sent, history, headFrame);
      SendAndMove();
    }

    // The body of the catch-up loop.
    method SendAndMove()
      requires oneframe.Length == SYN_BUFFER_SIZE && 0 <= head < SYN_BUFFER_SIZE
      modifies this`sent, this`head, this`headFrame, oneframe
      ensures oneframe[..] == old(oneframe[..])[old(head) := []]
      ensures sent == old(sent) + Render(old(headFrame), old(oneframe[..])[old(head)])
      ensures head == (old(head) + 1) % SYN_BUFFER_SIZE && headFrame == old(headFrame) + 1
    {
      SendHeadFrameToAll();
      head := (head + 1) % SYN_BUFFER_SIZE;
      headFrame := headFrame + 1;
    }

    // Catches up with the clock, leaving the last three frames open.
    method Run(now: int)
      requires Valid() && clock <= now
      modifies this`nowFrame, this`clock, this`history, this`sent, this`head, this`headFrame, oneframe
      ensures Valid() && clock == now && history == old(history) + [Ran(FrameAt(now))]
      ensures old(sent) <= sent
    {
      UpdateTime(now);
      CatchUp();
      RunStep(history, nowFrame, headFrame);
      RingAfterRun(oneframe[..], head, history, nowFrame, headFrame);
      history := history + [Ran(nowFrame)];
    }

    // The loop.
    method CatchUp()
      requires Ring() && WellTimed(history) && headFrame == HeadAfter(history)
      modifies this`sent, this`head, this`headFrame, oneframe
      ensures Ring() && headFrame == Max(HeadAfter(history), nowFrame - ALLOWED_DELAY)
    {
      HeadBounds(history);
      while headFrame + ALLOWED_DELAY + 1 <= nowFrame
        invariant Ring()
        invariant HeadAfter(history) <= headFrame <= Max(HeadAfter(history), nowFrame - ALLOWED_DELAY)
        decreases nowFrame - headFrame
      {
        AdvanceHead();
      }
    }

    // One call.
    method Step(c: Call)
      requires Valid() && clock <= c.us && WellTimed(history + [EventOf(initTime, c)])
      modifies this`nowFrame, this`clock, this`history, this`sent, this`head, this`headFrame, oneframe
      ensures Valid() && clock == c.us && history == old(history) + [EventOf(initTime, c)]
    {
      Last(history, EventOf(initTime, c));
      match c {
        case CallAdd(m, us) => Add(m, us);
        case CallRun(us) => Run(us);
      }
    }

    // Any sequence of calls that meets the assumptions: the synchroniser follows the history
    // it makes, has sent exactly the frames before the head, and has lost nothing else.
    method Play(calls: seq<Call>)
      requires Valid() && WellTimed(history + EventsOf(initTime, calls))
      requires forall i :: 0 <= i < |calls| ==> clock <= calls[i].us
      requires forall i, j :: 0 <= i < j < |calls| ==> calls[i].us <= calls[j].us
      modifies this`nowFrame, this`clock, this`history, this`sent, this`head, this`headFrame, oneframe
      ensures Valid() && history == old(history) + EventsOf(initTime, calls)
      ensures headFrame == HeadAfter(history) && sent == Broadcasts(history, headFrame)
      ensures Relays(sent) + Waiting(oneframe[..], head, SYN_BUFFER_SIZE) + OverflowCount(history) ==
              AcceptedCount(history)
    {
      ghost var h, events := history, EventsOf(initTime, calls);
      for k := 0 to |calls|
        invariant Valid() && history == h + events[..k]
        invariant forall i :: k <= i < |calls| ==> clock <= calls[i].us
      {
        NextIsWellTimed(h, events, k);
        Step(calls[k]);
      }
      assert events[..|calls|] == events;
      RingConserves(oneframe[..], head, history);
    }
  }

  lemma {:induction false} BroadcastsGrow(h: seq<Event>, m: int, n: int)
    requires m <= n
    ensures Broadcasts(h, m) <= Broadcasts(h, n)
    decreases n - m
  {
    if m < n {
      BroadcastsGrow(h, m, n - 1);
    }
  }
}
