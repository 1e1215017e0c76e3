/**
 The connection slots of the threaded server: one acceptor, one thread for each
 session and the signal handler, as a transition system over their single steps.
 */
module Slots {
  import opened Lists

  /** Where the acceptor is: in httpd_run, or in its search for a free slot. */
  datatype Acceptor =
    | Head                            // at the head of the accept loop
    | Scan(i: nat)                    // in the search, before the test of _httpd_run
    | Look(i: nat)                    // in the search, before reading the flag of slot i
    | Claim(i: nat)                   // has seen slot i free, before marking it
    | Returned(conn: Option<nat>)     // back from the search, before the test of _httpd_run
    | Waiting(conn: Option<nat>)      // in the select loop
    | Ready(conn: Option<nat>)        // a client is there, before the last test of _httpd_run
    | Accepting(conn: Option<nat>)    // in hsocket_accept
    | Starting(conn: Option<nat>)     // in _httpd_start_thread
    | Launched                        // in _httpd_start_thread, the session already on its own
    | Stopped

  /** A session thread, from its creation to the write that frees its slot. */
  datatype Session = Session(slot: nat, closed: bool)

  /** `lost` records the slots that were marked and then forgotten by the acceptor. */
  datatype State = State(run: bool, inUse: seq<bool>, acceptor: Acceptor, sessions: map<nat, Session>, lost: set<nat>)

  datatype Step =
    | Signal
    | Advance                 // the acceptor's next test or write
    | ClientArrives
    | AcceptFails
    | AcceptSucceeds
    | ThreadFails
    | ThreadStarts(tid: nat)
    | SessionCloses(tid: nat)
    | SessionFrees(tid: nat)

  function Initial(maxConnections: nat): State {
    State(true, seq(maxConnections, _ => false), Head, map[], {})
  }

  /** The acceptor gives up a slot without freeing it. */
  function Forget(s: State, next: Acceptor, conn: Option<nat>): State {
    s.(acceptor := next, lost := s.lost + if conn.Some? then {conn.value} else {})
  }

  function Advance1(s: State): Option<State> {
    match s.acceptor
    case Head => Some(s.(acceptor := if s.run then Scan(0) else Stopped))
    case Scan(i) => Some(s.(acceptor := if s.run then Look(i) else Returned(None)))
    case Look(i) =>
      if i >= |s.inUse| then Some(s.(acceptor := Scan(0)))
      else if s.inUse[i] then Some(s.(acceptor := Scan(i + 1)))
      else Some(s.(acceptor := Claim(i)))
    case Claim(i) =>
      if i < |s.inUse| then Some(s.(acceptor := Returned(Some(i)), inUse := s.inUse[i := true])) else None
    case Returned(conn) => Some(if s.run then s.(acceptor := Waiting(conn)) else Forget(s, Stopped, conn))
    case Waiting(conn) => if s.run then None else Some(Forget(s, Stopped, conn))
    case Launched => Some(s.(acceptor := Head))
    case Ready(conn) => Some(if s.run then s.(acceptor := Accepting(conn)) else Forget(s, Stopped, conn))
    case _ => None
  }

  /** One step of the system, None if it is not possible. */
  function Next(s: State, step: Step): Option<State> {
    match step
    case Signal => Some(s.(run := false))
    case Advance => Advance1(s)
    case ClientArrives => if s.acceptor.Waiting? && s.run then Some(s.(acceptor := Ready(s.acceptor.conn))) else None
    case AcceptFails => if s.acceptor.Accepting? then Some(Forget(s, Head, s.acceptor.conn)) else None
    case AcceptSucceeds => if s.acceptor.Accepting? then Some(s.(acceptor := Starting(s.acceptor.conn))) else None
    case ThreadFails => if s.acceptor.Starting? then Some(Forget(s, Head, s.acceptor.conn)) else None
    case ThreadStarts(tid) =>
      if s.acceptor.Starting? && s.acceptor.conn.Some? && tid !in s.sessions
      then Some(s.(acceptor := Launched, sessions := s.sessions[tid := Session(s.acceptor.conn.value, false)]))
      else None
    case SessionCloses(tid) =>
      if tid in s.sessions && !s.sessions[tid].closed
      then Some(s.(sessions := s.sessions[tid := Session(s.sessions[tid].slot, true)]))
      else None
    case SessionFrees(tid) =>
      if tid in s.sessions && s.sessions[tid].closed && s.sessions[tid].slot < |s.inUse|
      then Some(s.(sessions := s.sessions - {tid}, inUse := s.inUse[s.sessions[tid].slot := false]))
      else None
  }

  /** A run: any interleaving of steps. */
  function Run(s: State, steps: seq<Step>): Option<State>
    decreases |steps|
  {
    if steps == [] then Some(s)
    else
      match Next(s, steps[0])
      case None => None
      case Some(s') => Run(s', steps[1..])
  }

  // ---------------------------------------------------------------- who owns a slot

  datatype Owner = TheAcceptor | TheSession(tid: nat) | Nobody

  /** The slot that the acceptor holds. */
  function Held(a: Acceptor): Option<nat> {
    match a
    case Returned(conn) => conn
    case Waiting(conn) => conn
    case Ready(conn) => conn
    case Accepting(conn) => conn
    case Starting(conn) => conn
    case _ => None
  }

  /** All owners of a slot; Nobody stands for a slot that is marked and forgotten. */
  ghost function Owners(s: State, slot: nat): set<Owner> {
    (if Held(s.acceptor) == Some(slot) then {TheAcceptor} else {})
    + (if slot in s.lost then {Nobody} else {})
    + set tid | tid in s.sessions && s.sessions[tid].slot == slot :: TheSession(tid)
  }

  /** Which states can be reached: the acceptor's knowledge is up to date, and ownership is exclusive. */
  ghost predicate Inv(s: State) {
    && (s.acceptor.Claim? ==> s.acceptor.i < |s.inUse| && !s.inUse[s.acceptor.i])
    && (s.acceptor.Stopped? ==> !s.run)
    && (s.acceptor.Returned? && s.acceptor.conn.None? ==> !s.run)
    && (s.acceptor.Waiting? || s.acceptor.Ready? || s.acceptor.Accepting? || s.acceptor.Starting? ==> s.acceptor.conn.Some?)
    && (forall i :: i in s.lost ==> i < |s.inUse|)
    && (forall tid :: tid in s.sessions ==> s.sessions[tid].slot < |s.inUse|)
    && (Held(s.acceptor).Some? ==> Held(s.acceptor).value < |s.inUse|)
    && Exclusive(s)
  }

  ghost predicate Exclusive(s: State) {
    && (forall i :: i in s.lost ==> Held(s.acceptor) != Some(i))
    && (forall tid :: tid in s.sessions ==> s.sessions[tid].slot !in s.lost && Held(s.acceptor) != Some(s.sessions[tid].slot))
    && (forall t, u :: t in s.sessions && u in s.sessions && s.sessions[t].slot == s.sessions[u].slot ==> t == u)
    && (forall i :: 0 <= i < |s.inUse| ==> (s.inUse[i] <==> Taken(s, i)))
  }

  ghost predicate Taken(s: State, slot: nat) {
    Held(s.acceptor) == Some(slot) || slot in s.lost || exists tid :: tid in s.sessions && s.sessions[tid].slot == slot
  }

  lemma InitialInv(maxConnections: nat)
    ensures Inv(Initial(maxConnections))
  {
  }

  /** Slots, sessions and lost slots stay; the acceptor's slot stays, too. */
  lemma AcceptorMoves(s: State, a: Acceptor)
    requires Inv(s) && Held(a) == Held(s.acceptor)
    requires (a.Claim? ==> a.i < |s.inUse| && !s.inUse[a.i]) && (a.Stopped? ==> !s.run)
    requires a.Returned? && a.conn.None? ==> !s.run
    requires a.Waiting? || a.Ready? || a.Accepting? || a.Starting? ==> a.conn.Some?
    ensures Inv(s.(acceptor := a))
  {
    var s' := s.(acceptor := a);
    assert forall i :: Taken(s, i) ==> Taken(s', i);
    assert forall i :: Taken(s', i) ==> Taken(s, i);
  }

  lemma ForgetInv(s: State, a: Acceptor)
    requires Inv(s) && (a == Head || (a == Stopped && !s.run))
    ensures Inv(Forget(s, a, Held(s.acceptor)))
  {
    var s' := Forget(s, a, Held(s.acceptor));
    assert forall i :: Taken(s, i) ==> Taken(s', i);
    assert forall i :: Taken(s', i) ==> Taken(s, i);
  }

  lemma ClaimInv(s: State)
    requires Inv(s) && s.acceptor.Claim?
    ensures Inv(s.(acceptor := Returned(Some(s.acceptor.i)), inUse := s.inUse[s.acceptor.i := true]))
  {
    var c := s.acceptor.i;
    var s' := s.(acceptor := Returned(Some(c)), inUse := s.inUse[c := true]);
    assert !Taken(s, c);
    assert forall i :: i != c ==> (Taken(s, i) <==> Taken(s', i));
  }

  lemma AdvanceInv(s: State)
    requires Inv(s) && Advance1(s).Some?
    ensures Inv(Advance1(s).value)
  {
    hide Inv, Held;
    HeldIs(s.acceptor);
    Knows(s);
    var s' := Advance1(s).value;
    HeldIs(s'.acceptor);
    if s.acceptor.Claim? {
      ClaimInv(s);
    } else if s'.lost == s.lost && s'.acceptor != Stopped {
      AcceptorMoves(s, s'.acceptor);
    } else {
      assert s.lost + {} == s.lost;
      ForgetInv(s, s'.acceptor);
    }
  }

  lemma HeldIs(a: Acceptor)
    ensures (a.Returned? || a.Waiting? || a.Ready? || a.Accepting? || a.Starting?) ==> Held(a) == a.conn
    ensures !(a.Returned? || a.Waiting? || a.Ready? || a.Accepting? || a.Starting?) ==> Held(a) == None
  {
  }

  lemma Knows(s: State)
    requires Inv(s)
    ensures (s.acceptor.Claim? ==> s.acceptor.i < |s.inUse| && !s.inUse[s.acceptor.i]) && (s.acceptor.Stopped? ==> !s.run)
    ensures s.acceptor.Returned? && s.acceptor.conn.None? ==> !s.run
    ensures s.acceptor.Waiting? || s.acceptor.Ready? || s.acceptor.Accepting? || s.acceptor.Starting? ==> s.acceptor.conn.Some?
  {
  }

  lemma SignalInv(s: State)
    requires Inv(s)
    ensures Inv(s.(run := false))
  {
    var s' := s.(run := false);
    assert forall i :: Taken(s, i) ==> Taken(s', i);
    assert forall i :: Taken(s', i) ==> Taken(s, i);
  }

  lemma StartInv(s: State, tid: nat)
    requires Inv(s) && Next(s, ThreadStarts(tid)).Some?
    ensures Inv(Next(s, ThreadStarts(tid)).value)
  {
    var s' := Next(s, ThreadStarts(tid)).value;
    var c := s.acceptor.conn.value;
    forall i
      ensures Taken(s, i) <==> Taken(s', i)
    {
      if i == c {
        assert s'.sessions[tid].slot == c;
      } else if exists t :: t in s.sessions && s.sessions[t].slot == i {
        var t :| t in s.sessions && s.sessions[t].slot == i;
        assert t in s'.sessions && s'.sessions[t].slot == i;
      }
    }
  }

  lemma CloseInv(s: State, tid: nat)
    requires Inv(s) && Next(s, SessionCloses(tid)).Some?
    ensures Inv(Next(s, SessionCloses(tid)).value)
  {
    var s' := Next(s, SessionCloses(tid)).value;
    assert forall t :: t in s.sessions ==> t in s'.sessions && s'.sessions[t].slot == s.sessions[t].slot;
    assert forall i :: Taken(s, i) ==> Taken(s', i);
    assert forall i :: Taken(s', i) ==> Taken(s, i);
  }

  lemma FreeInv(s: State, tid: nat)
    requires Inv(s) && Next(s, SessionFrees(tid)).Some?
    ensures Inv(Next(s, SessionFrees(tid)).value)
  {
    var s' := Next(s, SessionFrees(tid)).value;
    var c := s.sessions[tid].slot;
    assert forall t :: t in s'.sessions ==> t in s.sessions && s'.sessions[t] == s.sessions[t];
    assert !Taken(s', c);
    forall i | i != c
      ensures Taken(s, i) <==> Taken(s', i)
    {
      if exists t :: t in s.sessions && s.sessions[t].slot == i {
        var t :| t in s.sessions && s.sessions[t].slot == i;
        assert t in s'.sessions && s'.sessions[t].slot == i;
      }
    }
  }

  lemma NextInv(s: State, step: Step)
    requires Inv(s) && Next(s, step).Some?
    ensures Inv(Next(s, step).value)
  {
    hide Inv, Held;
    Knows(s);
    HeldIs(s.acceptor);
    match step
    case Signal => SignalInv(s);
    case Advance => AdvanceInv(s);
    case ClientArrives =>
      HeldIs(Ready(s.acceptor.conn));
      AcceptorMoves(s, Ready(s.acceptor.conn));
    case AcceptFails => ForgetInv(s, Head);
    case AcceptSucceeds =>
      HeldIs(Starting(s.acceptor.conn));
      AcceptorMoves(s, Starting(s.acceptor.conn));
    case ThreadFails => ForgetInv(s, Head);
    case ThreadStarts(tid) => StartInv(s, tid);
    case SessionCloses(tid) => CloseInv(s, tid);
    case SessionFrees(tid) => FreeInv(s, tid);
  }

  lemma {:induction false} RunInv(s: State, steps: seq<Step>)
    requires Inv(s) && Run(s, steps).Some?
    ensures Inv(Run(s, steps).value)
    decreases |steps|
  {
    if steps != [] {
      NextInv(s, steps[0]);
      RunInv(Next(s, steps[0]).value, steps[1..]);
    }
  }

  // ---------------------------------------------------------------- what holds in every run

  /** A marked slot has exactly one owner, a free one none. */
  lemma OneOwner(s: State, slot: nat)
    requires Inv(s) && slot < |s.inUse|
    ensures |Owners(s, slot)| == if s.inUse[slot] then 1 else 0
  {
    var owners := Owners(s, slot);
    if s.inUse[slot] {
      assert Taken(s, slot);
      if Held(s.acceptor) == Some(slot) {
        assert owners == {TheAcceptor};
      } else if slot in s.lost {
        assert owners == {Nobody};
      } else {
        var tid :| tid in s.sessions && s.sessions[tid].slot == slot;
        assert owners == {TheSession(tid)};
      }
    } else {
      assert !Taken(s, slot);
      assert owners == {};
    }
  }

  /** A set of slots of size at most that of the slot array. */
  lemma {:induction false} SlotsFit(slots: set<nat>, n: nat)
    requires forall i :: i in slots ==> i < n
    ensures |slots| <= n
    decreases n
  {
    if n > 0 {
      SlotsFit(slots - {n - 1}, n - 1);
    } else {
      assert slots == {};
    }
  }

  ghost function SlotsOf(sessions: map<nat, Session>): set<nat> {
    set tid | tid in sessions :: sessions[tid].slot
  }

  lemma {:induction false} SlotsOfSize(sessions: map<nat, Session>)
    requires forall t, u :: t in sessions && u in sessions && sessions[t].slot == sessions[u].slot ==> t == u
    ensures |SlotsOf(sessions)| == |sessions|
    decreases |sessions|
  {
    if sessions == map[] {
      assert SlotsOf(sessions) == {};
    } else {
      var t :| t in sessions;
      var rest := sessions - {t};
      assert rest.Keys == sessions.Keys - {t};
      SlotsOfSize(rest);
      forall i | i in SlotsOf(sessions) && i != sessions[t].slot
        ensures i in SlotsOf(rest)
      {
        var u :| u in sessions && sessions[u].slot == i;
        assert u in rest;
      }
      assert sessions[t].slot !in SlotsOf(rest);
      assert SlotsOf(sessions) == SlotsOf(rest) + {sessions[t].slot};
      assert |sessions| == |rest.Keys| + 1;
    }
  }

  /**
   In every reachable state: no two sessions share a slot, sessions and forgotten slots
   together are at most as many as the slots, the acceptor never works with a null slot,
   and a slot is marked exactly if it has an owner, which is then the only one.
   */
  lemma Safety(maxConnections: nat, steps: seq<Step>)
    requires Run(Initial(maxConnections), steps).Some?
    ensures var s := Run(Initial(maxConnections), steps).value;
            && (forall t, u :: t in s.sessions && u in s.sessions && t != u ==> s.sessions[t].slot != s.sessions[u].slot)
            && |s.sessions| + |s.lost| <= maxConnections == |s.inUse|
            && (s.acceptor.Waiting? || s.acceptor.Ready? || s.acceptor.Accepting? || s.acceptor.Starting?
                ==> s.acceptor.conn.Some? && s.acceptor.conn.value < |s.inUse|)
            && (forall i :: 0 <= i < |s.inUse| ==> |Owners(s, i)| == if s.inUse[i] then 1 else 0)
  {
    InitialInv(maxConnections);
    RunInv(Initial(maxConnections), steps);
    SameSize(Initial(maxConnections), steps);
    var s := Run(Initial(maxConnections), steps).value;
    SlotsOfSize(s.sessions);
    SlotsFit(SlotsOf(s.sessions) + s.lost, |s.inUse|);
    assert SlotsOf(s.sessions) !! s.lost;
    forall i | 0 <= i < |s.inUse|
      ensures |Owners(s, i)| == if s.inUse[i] then 1 else 0
    {
      OneOwner(s, i);
    }
  }

  lemma {:induction false} SameSize(s: State, steps: seq<Step>)
    requires Run(s, steps).Some?
    ensures |Run(s, steps).value.inUse| == |s.inUse| && s.lost <= Run(s, steps).value.lost
    ensures !s.run ==> !Run(s, steps).value.run
    decreases |steps|
  {
    if steps != [] {
      SameSize(Next(s, steps[0]).value, steps[1..]);
    }
  }

  /**
   A slot that a failed accept or thread start, or the end of the acceptor, left marked
   is never freed: once every slot is forgotten, no session runs ever again.
   */
  lemma ForgottenForGood(maxConnections: nat, before: seq<Step>, after: seq<Step>)
    requires Run(Initial(maxConnections), before).Some?
    requires Run(Run(Initial(maxConnections), before).value, after).Some?
    ensures var s := Run(Initial(maxConnections), before).value;
            var t := Run(s, after).value;
            && (forall i :: i in s.lost ==> i < |t.inUse| && t.inUse[i] && Owners(t, i) == {Nobody})
            && (|s.lost| == maxConnections ==> t.sessions == map[])
  {
    var s := Run(Initial(maxConnections), before).value;
    var t := Run(s, after).value;
    InitialInv(maxConnections);
    RunInv(Initial(maxConnections), before);
    RunInv(s, after);
    SameSize(Initial(maxConnections), before);
    SameSize(s, after);
    forall i | i in s.lost
      ensures i < |t.inUse| && t.inUse[i] && Owners(t, i) == {Nobody}
    {
      assert i in t.lost && Taken(t, i);
    }
    if |s.lost| == maxConnections && t.sessions != map[] {
      var tid :| tid in t.sessions;
      SlotsFit(s.lost + {t.sessions[tid].slot}, maxConnections);
    }
  }

  /** The steps that make the acceptor forget the slot it holds, and go on. */
  function Failures(steps: seq<Step>): nat {
    if steps == [] then 0 else (if steps[0].AcceptFails? || steps[0].ThreadFails? then 1 else 0) + Failures(steps[1..])
  }

  /** The steps, one at most, in which the acceptor stops while it holds a slot. */
  function Abandonments(s: State, steps: seq<Step>): nat
    requires Run(s, steps).Some?
    decreases |steps|
  {
    if steps == [] then 0
    else
      var s' := Next(s, steps[0]).value;
      (if s'.acceptor.Stopped? && Held(s.acceptor).Some? then 1 else 0) + Abandonments(s', steps[1..])
  }

  lemma LostInStep(s: State, step: Step)
    requires Inv(s) && Next(s, step).Some?
    ensures var s' := Next(s, step).value;
            && |s'.lost| == |s.lost| + (if step.AcceptFails? || step.ThreadFails? then 1 else 0)
                            + (if s'.acceptor.Stopped? && Held(s.acceptor).Some? then 1 else 0)
            && (s.acceptor.Stopped? ==> s'.acceptor.Stopped?)
  {
    assert Held(s.acceptor).Some? ==> Held(s.acceptor).value !in s.lost;
    assert s.lost + {} == s.lost;
  }

  lemma {:induction false} LostInRun(s: State, steps: seq<Step>)
    requires Inv(s) && Run(s, steps).Some?
    ensures var t := Run(s, steps).value;
            && |t.lost| == |s.lost| + Failures(steps) + Abandonments(s, steps)
            && Abandonments(s, steps) <= (if s.acceptor.Stopped? || !t.acceptor.Stopped? then 0 else 1)
            && (s.acceptor.Stopped? ==> t.acceptor.Stopped?)
    decreases |steps|
  {
    hide Inv, Next;
    if steps != [] {
      var s' := Next(s, steps[0]).value;
      LostInStep(s, steps[0]);
      NextInv(s, steps[0]);
      LostInRun(s', steps[1..]);
      StoppedHoldsNothing(s.acceptor);
    }
  }

  lemma StoppedHoldsNothing(a: Acceptor)
    ensures a.Stopped? ==> Held(a).None?
  {
  }

  /**
   In every run exactly the failed accepts and thread starts lose a slot each; and, when the
   acceptor has stopped, the slot it then held, if any.
   */
  lemma LostExactly(maxConnections: nat, steps: seq<Step>)
    requires Run(Initial(maxConnections), steps).Some?
    ensures var s := Run(Initial(maxConnections), steps).value;
            && |s.lost| == Failures(steps) + Abandonments(Initial(maxConnections), steps)
            && Abandonments(Initial(maxConnections), steps) <= 1
            && (!s.acceptor.Stopped? ==> |s.lost| == Failures(steps))
            && (!s.acceptor.Stopped? ==> (s.lost == {} <==> forall x :: x in steps ==> !x.AcceptFails? && !x.ThreadFails?))
  {
    InitialInv(maxConnections);
    LostInRun(Initial(maxConnections), steps);
    NoFailures(steps);
  }

  lemma {:induction false} NoFailures(steps: seq<Step>)
    ensures Failures(steps) == 0 <==> forall x :: x in steps ==> !x.AcceptFails? && !x.ThreadFails?
  {
    if steps != [] {
      NoFailures(steps[1..]);
      assert steps == [steps[0]] + steps[1..];
    }
  }

  lemma {:induction false} RunJoin(s: State, a: seq<Step>, b: seq<Step>)
    requires Run(s, a).Some?
    ensures Run(s, a + b) == Run(Run(s, a).value, b)
    decreases |a|
  {
    hide Next;
    if a == [] {
      assert a + b == b;
    } else {
      assert (a + b)[1..] == a[1..] + b;
      RunJoin(Next(s, a[0]).value, a[1..], b);
    }
  }

  function FirstSlots(k: nat): (r: set<nat>)
    ensures |r| == k && forall i :: i in r <==> 0 <= i < k
  {
    if k == 0 then {} else FirstSlots(k - 1) + {k - 1}
  }

  /** The first `k` slots are forgotten, the others free. */
  function Forgotten(maxConnections: nat, k: nat): State {
    State(true, seq(maxConnections, i => i < k), Head, map[], FirstSlots(k))
  }

  /** One failed accept from there. */
  lemma ForgetNext(maxConnections: nat, k: nat) returns (steps: seq<Step>)
    requires k < maxConnections
    ensures Run(Forgotten(maxConnections, k), steps) == Some(Forgotten(maxConnections, k + 1))
  {
    hide Run;
    var s := Forgotten(maxConnections, k);
    var scan := s.(acceptor := Scan(0));
    var search := SearchFinds(scan, 0, k);
    var found := scan.(acceptor := Returned(Some(k)), inUse := s.inUse[k := true]);
    FailedAccept(found, k);
    var last := [Advance, ClientArrives, Advance, AcceptFails];
    OneStep(s, Advance);
    RunJoin(s, [Advance], search);
    RunJoin(s, [Advance] + search, last);
    steps := [Advance] + search + last;
    var t := Forgotten(maxConnections, k + 1);
    assert t.inUse == s.inUse[k := true];
    assert t.lost == s.lost + {k};
  }

  lemma OneStep(s: State, step: Step)
    ensures Run(s, [step]) == Next(s, step)
  {
    assert [step][1..] == [];
  }

  /** Back from the search: a client arrives, and its accept fails. */
  lemma FailedAccept(s: State, k: nat)
    requires s.run && s.acceptor == Returned(Some(k))
    ensures Run(s, [Advance, ClientArrives, Advance, AcceptFails]) == Some(s.(acceptor := Head, lost := s.lost + {k}))
  {
    hide Run;
    var s1 := s.(acceptor := Waiting(Some(k)));
    var s2 := s.(acceptor := Ready(Some(k)));
    var s3 := s.(acceptor := Accepting(Some(k)));
    OneStep(s, Advance);
    OneStep(s1, ClientArrives);
    OneStep(s2, Advance);
    OneStep(s3, AcceptFails);
    RunJoin(s, [Advance], [ClientArrives]);
    RunJoin(s, [Advance] + [ClientArrives], [Advance]);
    RunJoin(s, [Advance] + [ClientArrives] + [Advance], [AcceptFails]);
    assert [Advance] + [ClientArrives] + [Advance] + [AcceptFails] == [Advance, ClientArrives, Advance, AcceptFails];
  }

  lemma {:induction false} ForgetUpTo(maxConnections: nat, k: nat) returns (steps: seq<Step>)
    requires k <= maxConnections
    ensures Run(Initial(maxConnections), steps) == Some(Forgotten(maxConnections, k))
  {
    hide Run;
    if k == 0 {
      steps := [];
      RunNothing(Initial(maxConnections));
      assert Initial(maxConnections).inUse == Forgotten(maxConnections, 0).inUse;
    } else {
      var before := ForgetUpTo(maxConnections, k - 1);
      var more := ForgetNext(maxConnections, k - 1);
      RunJoin(Initial(maxConnections), before, more);
      steps := before + more;
    }
  }

  lemma RunNothing(s: State)
    ensures Run(s, []) == Some(s)
  {
  }

  /**
   It does happen: there is a run in which accepts fail until every slot is forgotten. The
   server still runs then, but whatever follows, no session does.
   */
  lemma AllForgotten(maxConnections: nat) returns (steps: seq<Step>)
    ensures Run(Initial(maxConnections), steps).Some?
    ensures var s := Run(Initial(maxConnections), steps).value;
            s.run && s.lost == FirstSlots(maxConnections) && Failures(steps) == maxConnections
    ensures forall after :: Run(Run(Initial(maxConnections), steps).value, after).Some? ==>
                              Run(Run(Initial(maxConnections), steps).value, after).value.sessions == map[]
  {
    hide Run;
    steps := ForgetUpTo(maxConnections, maxConnections);
    LostExactly(maxConnections, steps);
    var s := Run(Initial(maxConnections), steps).value;
    forall after | Run(s, after).Some?
      ensures Run(s, after).value.sessions == map[]
    {
      ForgottenForGood(maxConnections, steps, after);
    }
  }

  /** The search, undisturbed, takes the first free slot from `i` on. */
  lemma {:induction false} SearchFinds(s: State, i: nat, k: nat) returns (steps: seq<Step>)
    requires s.run && s.acceptor == Scan(i) && i <= k < |s.inUse| && !s.inUse[k]
    requires forall j :: i <= j < k ==> s.inUse[j]
    ensures Run(s, steps) == Some(s.(acceptor := Returned(Some(k)), inUse := s.inUse[k := true]))
    decreases k - i
  {
    var look := s.(acceptor := Look(i));
    var next := if i == k then Claim(i) else Scan(i + 1);
    var rest: seq<Step>;
    if i == k {
      rest := [Advance];
      assert rest[1..] == [];
    } else {
      rest := SearchFinds(s.(acceptor := Scan(i + 1)), i + 1, k);
    }
    assert Next(look, Advance) == Some(s.(acceptor := next));
    assert ([Advance] + rest)[1..] == rest;
    steps := [Advance] + ([Advance] + rest);
    assert steps[1..] == [Advance] + rest;
    assert Run(look, [Advance] + rest) == Run(s.(acceptor := next), rest);
  }
}
