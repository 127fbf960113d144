// Heartbeat: when each connection was last heard from, kept both by time and by
// descriptor, and the scan that drops the silent ones.
module Heartbeat {
  import opened Common

  const TIMEOUT := 40

  // An element of m_sec_fd: a second and a descriptor.
  type Key = (int, int)

  predicate Before(a: Key, b: Key) {
    a.0 < b.0 || (a.0 == b.0 && a.1 < b.1)
  }

  // The ordered set as the sequence of its elements in order.
  ghost predicate Sorted(s: seq<Key>) {
    forall i, j :: 0 <= i < j < |s| ==> Before(s[i], s[j])
  }

  function Insert(s: seq<Key>, k: Key): (r: seq<Key>)
    requires Sorted(s)
    ensures Sorted(r)
    ensures forall x :: x in r <==> x in s || x == k
  {
    if s == [] then [k]
    else if k == s[0] then s
    else if Before(k, s[0]) then [k] + s
    else
      var t := Insert(s[1..], k);
      assert forall x :: x in t ==> Before(s[0], x);
      [s[0]] + t
  }

  function Erase(s: seq<Key>, k: Key): (r: seq<Key>)
    requires Sorted(s)
    ensures Sorted(r)
    ensures forall x :: x in r <==> x in s && x != k
  {
    if s == [] then []
    else if s[0] == k then s[1..]
    else
      var t := Erase(s[1..], k);
      assert forall x :: x in t ==> x in s[1..] && Before(s[0], x);
      [s[0]] + t
  }

  // The ordered set holds exactly the pairs of the map, turned round.
  ghost predicate Inverse(s: seq<Key>, m: map<int, int>) {
    && (forall k :: k in s ==> k.1 in m && m[k.1] == k.0)
    && (forall fd :: fd in m ==> (m[fd], fd) in s)
  }

  // The survivors of a tick.
  function Fresh(m: map<int, int>, now: int): map<int, int> {
    map fd | fd in m && now - m[fd] <= TIMEOUT :: m[fd]
  }

  // ---- When a silent client is dropped ----

  // The first loop iteration at which the gated tick runs and finds the client too old:
  // presec is the last tick, s the second the client was last heard from.
  function DropTime(presec: int, s: int, ts: seq<int>): Option<int>
    decreases ts
  {
    if ts == [] then None
    else if ts[0] - presec < TIMEOUT then DropTime(presec, s, ts[1..])
    else if ts[0] - s > TIMEOUT then Some(ts[0])
    else DropTime(ts[0], s, ts[1..])
  }

  // Loop times that never go back and are never more than d apart.
  predicate Steady(prev: int, ts: seq<int>, d: int)
    decreases ts
  {
    ts == [] || (prev <= ts[0] <= prev + d && Steady(ts[0], ts[1..], d))
  }

  // A silent client is dropped at an age from 41 to 79 + d seconds; while it is not, it is
  // no older than 79.
  lemma {:induction false} SilentClientIsDroppedInTime(prev: int, presec: int, s: int, ts: seq<int>, d: int)
    requires Steady(prev, ts, d)
    requires 0 <= prev - presec < TIMEOUT && presec - s <= TIMEOUT
    ensures var drop := DropTime(presec, s, ts);
            match drop
            case Some(t) => t in ts && 41 <= t - s <= 79 + d
            case None => forall t :: t in ts ==> t - s <= 79
    decreases ts
  {
    if ts != [] {
      var t := ts[0];
      assert ts == [t] + ts[1..];
      if t - presec < TIMEOUT {
        SilentClientIsDroppedInTime(t, presec, s, ts[1..], d);
      } else if t - s <= TIMEOUT {
        SilentClientIsDroppedInTime(t, t, s, ts[1..], d);
      }
    }
  }

  // The seconds after t up to last, one by one.
  function Seconds(t: int, last: int): seq<int>
    decreases last - t
  {
    if t >= last then [] else [t + 1] + Seconds(t + 1, last)
  }

  lemma {:induction false} EverySecondIsSteady(t: int, last: int, later: seq<int>, d: int)
    requires t <= last && d >= 1 && Steady(last, later, d)
    ensures Steady(t, Seconds(t, last) + later, d)
    decreases last - t
  {
    if t == last {
      assert Seconds(t, last) + later == later;
    } else {
      EverySecondIsSteady(t + 1, last, later, d);
      assert (Seconds(t, last) + later)[1..] == Seconds(t + 1, last) + later;
    }
  }

  // While the gate is closed, no one is dropped.
  lemma {:induction false} ClosedGateDropsNoOne(presec: int, s: int, t: int, last: int, later: seq<int>)
    requires t <= last < presec + TIMEOUT
    ensures DropTime(presec, s, Seconds(t, last) + later) == DropTime(presec, s, later)
    decreases last - t
  {
    if t == last {
      assert Seconds(t, last) + later == later;
    } else {
      ClosedGateDropsNoOne(presec, s, t + 1, last, later);
      assert (Seconds(t, last) + later)[1..] == Seconds(t + 1, last) + later;
    }
  }

  // Both ends of the window are reached, for every gap d, from a start the bound above
  // accepts (last tick at 0, loop last at 39). A client heard from at -1 goes at 40, aged 41.
  // One heard from at 0 is spared at 40; the gate is still closed at 79, and if the loop then
  // sleeps d seconds, it goes at 79 + d.
  lemma WindowIsTight(d: int) returns (late: seq<int>)
    requires d >= 1
    ensures Steady(39, [40], d) && DropTime(0, -1, [40]) == Some(-1 + 41)
    ensures Steady(39, late, d) && DropTime(0, 0, late) == Some(79 + d)
  {
    assert Steady(40, [], d) && [40][1..] == [];
    var last := [79 + d];
    assert last[1..] == [] && Steady(79 + d, [], d);
    EverySecondIsSteady(40, 79, last, d);
    ClosedGateDropsNoOne(40, 0, 40, 79, last);
    var after := Seconds(40, 79) + last;
    late := [40] + after;
    assert late[1..] == after;
  }

  // ---- The class ----

  datatype Event = Loop(t: int) | Connect(fd: int, t: int) | Beat(fd: int, t: int) | Gone(fd: int)

  function LoopTimes(events: seq<Event>): seq<int> {
    if events == [] then []
    else (if events[0].Loop? then [events[0].t] else []) + LoopTimes(events[1..])
  }

  class Heartbeat {
    var secFd: seq<Key>
    var fdToSec: map<int, int>
    // The descriptors dropped so far, with the second of the tick that did it.
    var dropped: seq<(int, int)>

    ghost predicate Valid()
      reads this
    {
      Sorted(secFd) && Inverse(secFd, fdToSec)
    }

    constructor ()
      ensures Valid() && fdToSec == map[] && dropped == []
    {
      secFd, fdToSec, dropped := [], map[], [];
    }

    method InitFD(fd: int, now: int)
      requires Valid()
      modifies this`secFd, this`fdToSec
      ensures Valid()
      ensures fdToSec == if fd in old(fdToSec) then old(fdToSec) else old(fdToSec)[fd := now]
    {
      if fd in fdToSec {
        return;
      }
      secFd := Insert(secFd, (now, fd));
      fdToSec := fdToSec[fd := now];
    }

    method DeleteFD(fd: int) returns (ok: bool)
      requires Valid()
      modifies this`secFd, this`fdToSec
      ensures Valid()
      ensures ok <==> fd in old(fdToSec)
      ensures fdToSec == old(fdToSec) - {fd}
      ensures ok ==> secFd == Erase(old(secFd), (old(fdToSec)[fd], fd))
    {
      if fd !in fdToSec {
        return false;
      }
      var key := (fdToSec[fd], fd);
      if key !in secFd {
        assert false;
      }
      secFd := Erase(secFd, key);
      fdToSec := fdToSec - {fd};
      return true;
    }

    method UpdateFD(fd: int, now: int)
      requires Valid()
      modifies this`secFd, this`fdToSec
      ensures Valid()
      ensures fdToSec == if fd in old(fdToSec) then old(fdToSec)[fd := now] else old(fdToSec)
    {
      var ok := DeleteFD(fd);
      if !ok {
        return;
      }
      secFd := Insert(secFd, (now, fd));
      fdToSec := fdToSec[fd := now];
    }

    // Scans from the oldest and stops at the first one young enough: drops exactly the
    // clients silent for more than 40 seconds.
    method OnTick(now: int)
      requires Valid()
      modifies this
      ensures Valid() && fdToSec == Fresh(old(fdToSec), now)
      ensures old(dropped) <= dropped
      ensures forall fd :: (fd, now) in dropped[|old(dropped)|..] <==> fd in old(fdToSec) && fd !in fdToSec
    {
      ghost var m, was := fdToSec, dropped;
      var rest := secFd;
      while rest != []
        invariant Valid() && rest == secFd
        invariant was <= dropped
        invariant forall fd :: fd in fdToSec ==> fd in m && fdToSec[fd] == m[fd]
        invariant forall fd :: fd in m && fd !in fdToSec ==> now - m[fd] > TIMEOUT
        invariant forall fd :: (fd, now) in dropped[|was|..] <==> fd in m && fd !in fdToSec
      {
        if now - rest[0].0 > TIMEOUT {
          var fd := rest[0].1;
          rest := rest[1..];
          var _ := DeleteFD(fd);
          assert (dropped + [(fd, now)])[|was|..] == dropped[|was|..] + [(fd, now)];
          dropped := dropped + [(fd, now)];
        } else {
          break;
        }
      }
      assert forall fd :: fd in fdToSec ==> now - fdToSec[fd] <= TIMEOUT by {
        forall fd | fd in fdToSec ensures now - fdToSec[fd] <= TIMEOUT {
          assert (fdToSec[fd], fd) in secFd;
        }
      }
      ghost var f := Fresh(m, now);
      assert forall fd :: fd in f <==> fd in fdToSec;
      assert forall fd :: fd in f ==> f[fd] == fdToSec[fd];
      assert fdToSec == f;
    }

    // One main-loop iteration: the tick runs only when 40 seconds have passed since the last.
    method RunOnTick(presec: int, now: int) returns (next: int)
      requires Valid()
      modifies this
      ensures Valid() && old(dropped) <= dropped
      ensures now - presec < TIMEOUT ==> next == presec && fdToSec == old(fdToSec)
      ensures now - presec >= TIMEOUT ==> next == now && fdToSec == Fresh(old(fdToSec), now)
      ensures forall fd :: fd in old(fdToSec) && fd !in fdToSec ==> (fd, now) in dropped
    {
      if now - presec < TIMEOUT {
        return presec;
      }
      next := now;
      OnTick(now);
    }

    // Whatever the other clients do meanwhile, a client heard from at second s and silent
    // since is dropped at exactly the time DropTime gives.
    method MainLoop(start: int, events: seq<Event>, silent: int)
      requires Valid() && silent in fdToSec
      requires forall i :: 0 <= i < |events| && !events[i].Loop? ==> events[i].fd != silent
      modifies this
      ensures Valid()
      ensures var drop := DropTime(start, old(fdToSec[silent]), LoopTimes(events));
              (silent in fdToSec <==> drop.None?) && (drop.Some? ==> (silent, drop.value) in dropped)
    {
      ghost var s := fdToSec[silent];
      ghost var drop := DropTime(start, s, LoopTimes(events));
      var presec := start;
      assert events[0..] == events;
      for i := 0 to |events|
        invariant Valid()
        invariant silent in fdToSec ==> fdToSec[silent] == s && DropTime(presec, s, LoopTimes(events[i..])) == drop
        invariant silent !in fdToSec ==> drop.Some? && (silent, drop.value) in dropped
      {
        ghost var later := events[i..];
        assert later[0] == events[i] && later[1..] == events[i + 1..];
        assert later[0].Loop? ==> LoopTimes(later) == [later[0].t] + LoopTimes(later[1..]);
        assert later[0].Loop? ==> LoopTimes(later)[1..] == LoopTimes(later[1..]);
        assert !later[0].Loop? ==> LoopTimes(later) == LoopTimes(later[1..]);
        match events[i] {
          case Loop(t) => presec := RunOnTick(presec, t);
          case Connect(fd, t) => InitFD(fd, t);
          case Beat(fd, t) => UpdateFD(fd, t);
          case Gone(fd) => var _ := DeleteFD(fd);
        }
      }
    }

    // So, with a loop that never sleeps more than d seconds, a client silent since second s
    // either is dropped at an age from 41 to 79 + d, or has not yet been seen older than 79.
    method SilentClient(prev: int, start: int, events: seq<Event>, silent: int, d: int)
      returns (ghost drop: Option<int>)
      requires Valid() && silent in fdToSec
      requires forall i :: 0 <= i < |events| && !events[i].Loop? ==> events[i].fd != silent
      requires Steady(prev, LoopTimes(events), d)
      requires 0 <= prev - start < TIMEOUT && start - fdToSec[silent] <= TIMEOUT
      modifies this
      ensures Valid() && (silent in fdToSec <==> drop.None?)
      ensures drop.Some? ==> (silent, drop.value) in dropped && 41 <= drop.value - old(fdToSec[silent]) <= 79 + d
      ensures drop.None? ==> forall t :: t in LoopTimes(events) ==> t - old(fdToSec[silent]) <= 79
    {
      SilentClientIsDroppedInTime(prev, start, fdToSec[silent], LoopTimes(events), d);
      drop := DropTime(start, fdToSec[silent], LoopTimes(events));
      MainLoop(start, events, silent);
    }
  }
}
