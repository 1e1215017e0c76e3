/**
 What can always happen to the slots: a session can end and free its slot, and a running
 server that has not lost all slots can start another session, also on a slot used before.
 */
module SlotProgress {
  import opened Lists
  import opened Slots

  /** The last steps of a session. */
  function Ending(s: State, tid: nat): seq<Step>
    requires tid in s.sessions
  {
    (if s.sessions[tid].closed then [] else [SessionCloses(tid)]) + [SessionFrees(tid)]
  }

  /** They are possible, free the slot, and leave all else as it is. */
  lemma SessionEnds(s: State, tid: nat)
    requires Inv(s) && tid in s.sessions
    ensures var i := s.sessions[tid].slot;
            && i < |s.inUse|
            && Run(s, Ending(s, tid)) == Some(s.(sessions := s.sessions - {tid}, inUse := s.inUse[i := false]))
  {
    hide Run;
    if s.sessions[tid].closed {
      assert [] + [SessionFrees(tid)] == [SessionFrees(tid)];
      OneStep(s, SessionFrees(tid));
    } else {
      var s1 := s.(sessions := s.sessions[tid := Session(s.sessions[tid].slot, true)]);
      OneStep(s, SessionCloses(tid));
      OneStep(s1, SessionFrees(tid));
      RunJoin(s, [SessionCloses(tid)], [SessionFrees(tid)]);
      assert s1.sessions - {tid} == s.sessions - {tid};
    }
  }

  /** Free, and nobody's. */
  ghost predicate Vacant(s: State, i: nat) {
    && i < |s.inUse| && !s.inUse[i] && Held(s.acceptor) != Some(i) && i !in s.lost
    && (forall tid :: tid in s.sessions ==> s.sessions[tid].slot != i)
    && Owners(s, i) == {}
  }

  lemma VacantMeans(s: State, i: nat)
    requires Inv(s) && i < |s.inUse|
    ensures Vacant(s, i) <==> !s.inUse[i]
  {
    if !s.inUse[i] {
      assert !Taken(s, i);
      assert Owners(s, i) == {};
    }
  }

  /** In every reachable state a session can end; then its slot is free and has no owner, and all else is as before. */
  lemma SlotIsFreed(maxConnections: nat, before: seq<Step>, tid: nat)
    requires Run(Initial(maxConnections), before).Some?
    requires tid in Run(Initial(maxConnections), before).value.sessions
    ensures var s := Run(Initial(maxConnections), before).value;
            && s.sessions[tid].slot < |s.inUse|
            && Run(s, Ending(s, tid)).Some?
            && var t := Run(s, Ending(s, tid)).value;
               && Vacant(t, s.sessions[tid].slot) && tid !in t.sessions
               && t == s.(sessions := s.sessions - {tid}, inUse := s.inUse[s.sessions[tid].slot := false])
  {
    hide Run, Inv;
    InitialInv(maxConnections);
    RunInv(Initial(maxConnections), before);
    var s := Run(Initial(maxConnections), before).value;
    SessionEnds(s, tid);
    RunInv(s, Ending(s, tid));
    VacantMeans(Run(s, Ending(s, tid)).value, s.sessions[tid].slot);
  }

  /** In every reachable state a slot that is not lost is marked exactly while the acceptor holds it or a session has not freed it. */
  lemma MarkedMeans(maxConnections: nat, steps: seq<Step>, i: nat)
    requires Run(Initial(maxConnections), steps).Some? && i < maxConnections
    ensures var s := Run(Initial(maxConnections), steps).value;
            && i < |s.inUse|
            && (i !in s.lost ==>
                  (s.inUse[i] <==> Held(s.acceptor) == Some(i) || exists tid :: tid in s.sessions && s.sessions[tid].slot == i))
  {
    InitialInv(maxConnections);
    RunInv(Initial(maxConnections), steps);
    SameSize(Initial(maxConnections), steps);
    var s := Run(Initial(maxConnections), steps).value;
    assert s.inUse[i] <==> Taken(s, i);
  }

  // ---------------------------------------------------------------- another session

  lemma {:induction false} SubsetSize(a: set<nat>, b: set<nat>)
    requires a <= b
    ensures |a| <= |b|
  {
    if a != {} {
      var x :| x in a;
      SubsetSize(a - {x}, b - {x});
    }
  }

  /** A thread id that is not in use. */
  lemma FreshId(sessions: map<nat, Session>) returns (tid: nat)
    ensures tid !in sessions
  {
    var ids := FirstSlots(|sessions| + 1);
    if ids <= sessions.Keys {
      SubsetSize(ids, sessions.Keys);
      assert false;
    }
    tid :| tid in ids && tid !in sessions.Keys;
  }

  /** The state with one more session, and the acceptor at the head of its loop. */
  ghost predicate Served(s: State, t: State, tid: nat, k: nat) {
    && k < |s.inUse| && tid !in s.sessions
    && t == s.(acceptor := Head, sessions := s.sessions[tid := Session(k, false)], inUse := s.inUse[k := true])
  }

  /** From a held slot on: the tests, a client, and the start of a thread. */
  lemma Serve(s: State, k: nat, tid: nat) returns (steps: seq<Step>)
    requires s.run && Held(s.acceptor) == Some(k) && k < |s.inUse| && s.inUse[k] && tid !in s.sessions
    ensures Run(s, steps).Some? && Served(s, Run(s, steps).value, tid, k)
    decreases match s.acceptor case Returned(_) => 4 case Waiting(_) => 3 case Ready(_) => 2 case Accepting(_) => 1 case _ => 0
  {
    hide Run;
    match s.acceptor
    case Starting(_) =>
      var s1 := s.(acceptor := Launched, sessions := s.sessions[tid := Session(k, false)]);
      OneStep(s, ThreadStarts(tid));
      OneStep(s1, Advance);
      RunJoin(s, [ThreadStarts(tid)], [Advance]);
      steps := [ThreadStarts(tid)] + [Advance];
      assert s.inUse[k := true] == s.inUse;
    case Returned(_) => steps := ServeAfter(s, Advance, k, tid);
    case Waiting(_) => steps := ServeAfter(s, ClientArrives, k, tid);
    case Ready(_) => steps := ServeAfter(s, Advance, k, tid);
    case Accepting(_) => steps := ServeAfter(s, AcceptSucceeds, k, tid);
  }

  lemma ServeAfter(s: State, step: Step, k: nat, tid: nat) returns (steps: seq<Step>)
    requires s.run && Held(s.acceptor) == Some(k) && k < |s.inUse| && s.inUse[k] && tid !in s.sessions
    requires match s.acceptor case Returned(_) => step == Advance case Waiting(_) => step == ClientArrives
                              case Ready(_) => step == Advance case Accepting(_) => step == AcceptSucceeds case _ => false
    ensures Run(s, steps).Some? && Served(s, Run(s, steps).value, tid, k)
    decreases match s.acceptor case Returned(_) => 4 case Waiting(_) => 3 case Ready(_) => 2 case Accepting(_) => 1 case _ => 0, 0
  {
    hide Run;
    OneStep(s, step);
    var s1 := Next(s, step).value;
    var rest := Serve(s1, k, tid);
    RunJoin(s, [step], rest);
    steps := [step] + rest;
  }

  /** The search, undisturbed, goes back to the first slot if there is no free one from `i` on. */
  lemma {:induction false} SearchWraps(s: State, i: nat) returns (steps: seq<Step>)
    requires s.run && s.acceptor == Scan(i) && forall j :: i <= j < |s.inUse| ==> s.inUse[j]
    ensures Run(s, steps) == Some(s.(acceptor := Scan(0)))
    decreases |s.inUse| - i
  {
    hide Run;
    var look := s.(acceptor := Look(i));
    OneStep(s, Advance);
    OneStep(look, Advance);
    RunJoin(s, [Advance], [Advance]);
    steps := [Advance] + [Advance];
    if i < |s.inUse| {
      var next := s.(acceptor := Scan(i + 1));
      var rest := SearchWraps(next, i + 1);
      RunJoin(s, steps, rest);
      steps := steps + rest;
    }
  }

  lemma FirstFree(inUse: seq<bool>, i: nat, k: nat) returns (first: nat)
    requires i <= k < |inUse| && !inUse[k]
    ensures i <= first <= k && !inUse[first] && forall j :: i <= j < first ==> inUse[j]
  {
    first := i;
    while inUse[first]
      invariant i <= first <= k && forall j :: i <= j < first ==> inUse[j]
      decreases k - first
    {
      first := first + 1;
    }
  }

  /** From anywhere in the search: it comes back with a slot that is free. */
  lemma Search(s: State, i: nat, free: nat) returns (steps: seq<Step>, k: nat)
    requires s.run && s.acceptor == Scan(i) && free < |s.inUse| && !s.inUse[free]
    ensures k < |s.inUse| && !s.inUse[k]
    ensures Run(s, steps) == Some(s.(acceptor := Returned(Some(k)), inUse := s.inUse[k := true]))
  {
    hide Run;
    if exists j :: i <= j < |s.inUse| && !s.inUse[j] {
      var j :| i <= j < |s.inUse| && !s.inUse[j];
      k := FirstFree(s.inUse, i, j);
      steps := SearchFinds(s, i, k);
    } else {
      var wrap := SearchWraps(s, i);
      k := FirstFree(s.inUse, 0, free);
      var find := SearchFinds(s.(acceptor := Scan(0)), 0, k);
      RunJoin(s, wrap, find);
      steps := wrap + find;
    }
  }

  /** To a held slot: the one that the acceptor has, or one that was free. */
  lemma Hold(s: State, free: nat) returns (steps: seq<Step>, k: nat)
    requires Inv(s) && s.run && (Held(s.acceptor).Some? || (free < |s.inUse| && !s.inUse[free]))
    ensures k < |s.inUse| && if Held(s.acceptor).Some? then Held(s.acceptor) == Some(k) && s.inUse[k] else !s.inUse[k]
    ensures Run(s, steps).Some?
    ensures var t := Run(s, steps).value; Held(t.acceptor) == Some(k) && t == s.(acceptor := t.acceptor, inUse := s.inUse[k := true])
    decreases match s.acceptor case Launched => 3 case Head => 2 case Look(_) => 1 case _ => 0
  {
    hide Run;
    if Held(s.acceptor).Some? {
      k, steps := Held(s.acceptor).value, [];
      RunNothing(s);
      assert Taken(s, k);
      assert s.inUse[k := true] == s.inUse;
    } else if s.acceptor.Claim? {
      k, steps := s.acceptor.i, [Advance];
      OneStep(s, Advance);
    } else if s.acceptor.Scan? {
      steps, k := Search(s, s.acceptor.i, free);
    } else {
      OneStep(s, Advance);
      NextInv(s, Advance);
      var s1 := Next(s, Advance).value;
      var rest;
      rest, k := Hold(s1, free);
      RunJoin(s, [Advance], rest);
      steps := [Advance] + rest;
    }
  }

  /** One session more, on the slot that the acceptor holds or on a free one; its thread has none of the ids in `used`. */
  lemma OneMore(s: State, free: nat, used: map<nat, Session>) returns (steps: seq<Step>, tid: nat, k: nat)
    requires Inv(s) && s.run && (Held(s.acceptor).Some? || (free < |s.inUse| && !s.inUse[free]))
    ensures Run(s, steps).Some? && Served(s, Run(s, steps).value, tid, k) && tid !in used
    ensures if Held(s.acceptor).Some? then Held(s.acceptor) == Some(k) && s.inUse[k] else !s.inUse[k]
  {
    hide Run, Inv;
    tid := FreshId(s.sessions + used);
    var hold;
    hold, k := Hold(s, free);
    var t := Run(s, hold).value;
    var serve := Serve(t, k, tid);
    RunJoin(s, hold, serve);
    steps := hold + serve;
    assert s.inUse[k := true][k := true] == s.inUse[k := true];
  }

  /** How many slots are free. */
  function FreeSlots(inUse: seq<bool>): nat {
    if inUse == [] then 0 else (if inUse[0] then 0 else 1) + FreeSlots(inUse[1..])
  }

  lemma {:induction false} FewerFree(inUse: seq<bool>, k: nat)
    requires k < |inUse| && !inUse[k]
    ensures FreeSlots(inUse[k := true]) < FreeSlots(inUse)
  {
    if k == 0 {
      assert inUse[k := true][1..] == inUse[1..];
    } else {
      assert inUse[k := true][1..] == inUse[1..][k - 1 := true];
      FewerFree(inUse[1..], k - 1);
    }
  }

  /** A free slot is used in the end, if sessions keep coming and none ends. */
  lemma {:induction false} UseSlot(s: State, i: nat, used: map<nat, Session>) returns (steps: seq<Step>, tid: nat)
    requires Inv(s) && s.run && i < |s.inUse| && !s.inUse[i]
    ensures Run(s, steps).Some?
    ensures var t := Run(s, steps).value;
            t.run && tid in t.sessions && tid !in s.sessions && tid !in used && t.sessions[tid] == Session(i, false)
    decreases FreeSlots(s.inUse) + if Held(s.acceptor).Some? then 1 else 0
  {
    hide Run, Inv;
    var k;
    steps, tid, k := OneMore(s, i, used);
    if k != i {
      var t := Run(s, steps).value;
      RunInv(s, steps);
      if Held(s.acceptor).Some? {
        assert s.inUse[k := true] == s.inUse;
      } else {
        FewerFree(s.inUse, k);
      }
      var rest;
      rest, tid := UseSlot(t, i, used);
      RunJoin(s, steps, rest);
      steps := steps + rest;
    }
  }

  lemma FreeOrSession(s: State) returns (i: nat)
    requires Inv(s) && |s.lost| < |s.inUse| && Held(s.acceptor).None?
    ensures i < |s.inUse| && (!s.inUse[i] || exists tid :: tid in s.sessions && s.sessions[tid].slot == i)
  {
    var slots := FirstSlots(|s.inUse|);
    if slots <= s.lost {
      SubsetSize(slots, s.lost);
      assert false;
    }
    i :| i in slots && i !in s.lost;
    assert s.inUse[i] <==> Taken(s, i);
  }

  /** As long as a slot is not lost, there can be another session. */
  lemma AnotherSession(s: State) returns (steps: seq<Step>, tid: nat)
    requires Inv(s) && s.run && |s.lost| < |s.inUse|
    ensures Run(s, steps).Some?
    ensures var t := Run(s, steps).value; t.run && tid in t.sessions && tid !in s.sessions
  {
    hide Run, Inv;
    var k;
    if Held(s.acceptor).Some? {
      steps, tid, k := OneMore(s, 0, map[]);
    } else {
      var i := FreeOrSession(s);
      if s.inUse[i] {
        var last :| last in s.sessions && s.sessions[last].slot == i;
        steps, tid := Replace(s, last);
      } else {
        steps, tid, k := OneMore(s, i, map[]);
      }
    }
  }

  /** A session ends, and another one comes to its slot. */
  lemma Replace(s: State, tid: nat) returns (steps: seq<Step>, next: nat)
    requires Inv(s) && s.run && tid in s.sessions
    ensures Run(s, steps).Some?
    ensures var t := Run(s, steps).value;
            && t.run && next in t.sessions && next !in s.sessions
            && t.sessions[next] == Session(s.sessions[tid].slot, false)
  {
    hide Run, Inv;
    SessionEnds(s, tid);
    RunInv(s, Ending(s, tid));
    var t := Run(s, Ending(s, tid)).value;
    var rest;
    rest, next := UseSlot(t, s.sessions[tid].slot, s.sessions);
    RunJoin(s, Ending(s, tid), rest);
    steps := Ending(s, tid) + rest;
  }

  /** From every reachable state in which the server runs and has not lost all slots there is a run to a new session. */
  lemma ServesAgain(maxConnections: nat, before: seq<Step>) returns (steps: seq<Step>, tid: nat)
    requires Run(Initial(maxConnections), before).Some?
    requires var s := Run(Initial(maxConnections), before).value; s.run && |s.lost| < maxConnections
    ensures Run(Run(Initial(maxConnections), before).value, steps).Some?
    ensures var s := Run(Initial(maxConnections), before).value;
            var t := Run(s, steps).value;
            t.run && tid in t.sessions && tid !in s.sessions
  {
    hide Run, Inv;
    InitialInv(maxConnections);
    RunInv(Initial(maxConnections), before);
    SameSize(Initial(maxConnections), before);
    steps, tid := AnotherSession(Run(Initial(maxConnections), before).value);
  }

  /** And from every such state with a session there is a run in which this one ends and a new one has its slot. */
  lemma SlotIsReused(maxConnections: nat, before: seq<Step>, tid: nat) returns (steps: seq<Step>, next: nat)
    requires Run(Initial(maxConnections), before).Some?
    requires var s := Run(Initial(maxConnections), before).value; s.run && tid in s.sessions
    ensures Run(Run(Initial(maxConnections), before).value, steps).Some?
    ensures var s := Run(Initial(maxConnections), before).value;
            var t := Run(s, steps).value;
            t.run && next in t.sessions && next !in s.sessions && t.sessions[next].slot == s.sessions[tid].slot
  {
    hide Run, Inv;
    InitialInv(maxConnections);
    RunInv(Initial(maxConnections), before);
    steps, next := Replace(Run(Initial(maxConnections), before).value, tid);
  }

  // ---------------------------------------------------------------- the end of the server

  /** How far the acceptor is from its end, once the server is to stop. */
  function ToStop(a: Acceptor): nat {
    match a
    case Look(_) => 4
    case Scan(_) => 3
    case Claim(_) => 3
    case Returned(_) => 1
    case Waiting(_) => 1
    case Ready(_) => 1
    case Accepting(_) => 2
    case Starting(_) => 2
    case Launched => 2
    case Head => 1
    case Stopped => 0
  }

  lemma {:induction false} Stops(s: State) returns (steps: seq<Step>)
    requires Inv(s) && !s.run
    ensures Run(s, steps).Some? && Run(s, steps).value.acceptor.Stopped?
    decreases ToStop(s.acceptor)
  {
    hide Run;
    if s.acceptor.Stopped? {
      steps := [];
      RunNothing(s);
    } else {
      var step := if s.acceptor.Accepting? then AcceptFails else if s.acceptor.Starting? then ThreadFails else Advance;
      OneStep(s, step);
      NextInv(s, step);
      var rest := Stops(Next(s, step).value);
      RunJoin(s, [step], rest);
      steps := [step] + rest;
    }
  }

  /** After the signal the server never runs again, and from every reachable state the acceptor can then stop. */
  lemma SignalStops(maxConnections: nat, before: seq<Step>) returns (steps: seq<Step>)
    requires Run(Initial(maxConnections), before).Some?
    ensures var s := Run(Initial(maxConnections), before).value;
            && Next(s, Signal).Some? && !Next(s, Signal).value.run
            && Run(s, [Signal] + steps).Some? && Run(s, [Signal] + steps).value.acceptor.Stopped?
  {
    hide Run, Inv;
    InitialInv(maxConnections);
    RunInv(Initial(maxConnections), before);
    var s := Run(Initial(maxConnections), before).value;
    NextInv(s, Signal);
    OneStep(s, Signal);
    steps := Stops(Next(s, Signal).value);
    RunJoin(s, [Signal], steps);
  }
}
