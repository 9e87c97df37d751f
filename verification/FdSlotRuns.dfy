/** What a waiter and a `close()` of Embedded/includes/FdSlot.h can rely on in every continuation,
    and the schedules that break it otherwise. */
module FdSlotRuns {
  import opened FdSlot

  lemma {:induction false} RunsAppend(s: State, a: seq<Action>, b: seq<Action>)
    requires Runs(s, a) && Runs(Exec(s, a), b)
    ensures Runs(s, a + b) && Exec(s, a + b) == Exec(Exec(s, a), b)
    decreases |a|
  {
    hide Apply, Enabled;
    if a == [] {
      assert a + b == b;
    } else {
      RunsAppend(Apply(s, a[0]), a[1..], b);
      assert (a + b)[0] == a[0] && (a + b)[1..] == a[1..] + b;
    }
  }

  lemma OneStep(s: State, a: Action)
    requires Enabled(s, a)
    ensures Runs(s, [a]) && Exec(s, [a]) == Apply(s, a)
  {
    hide Apply, Enabled;
    assert [a][1..] == [];
    assert Runs(Apply(s, a), []) && Exec(Apply(s, a), []) == Apply(s, a);
  }

  /** Extend a run by one step. */
  lemma Then(s: State, t: seq<Action>, a: Action) returns (u: seq<Action>)
    requires Runs(s, t) && Enabled(Exec(s, t), a)
    ensures Runs(s, u) && Exec(s, u) == Apply(Exec(s, t), a)
  {
    OneStep(Exec(s, t), a);
    RunsAppend(s, t, [a]);
    u := t + [a];
  }

  // ---- The late cancel ---------------------------------------------------------------

  /** Waiter `w` never calls `cancelFd` on a descriptor that has been closed. */
  ghost predicate NeverCancelsClosed(s: State, w: Id) {
    forall t :: Runs(s, t) ==> !(WaiterAt(Exec(s, t).waiters, w, Cancelling) && Exec(s, t).closes > 0)
  }

  /** The header promises that the extra count keeps the descriptor open until the late cancel is
      done. For an `await_suspend` begun in a reachable state that holds exactly if the slot was
      quiet: no leaver in its window or about to close, and the descriptor not closed. */
  lemma LateCancelExactly(own: int, t: seq<Action>, w: Id, outer: Id)
    requires own >= 0 && Runs(Init(own), t) && Enabled(Exec(Init(own), t), Suspend(w, outer))
    ensures var s := Exec(Init(own), t); NeverCancelsClosed(Apply(s, Suspend(w, outer)), w) <==> Quiet(s)
  {
    InitInv(own);
    RunKeeps(Init(own), t);
    var s := Exec(Init(own), t);
    var z := Apply(s, Suspend(w, outer));
    StepKeeps(s, Suspend(w, outer));
    hide Inv, Runs, Exec, Quiet;
    if Quiet(s) {
      forall u | Runs(z, u) ensures !(WaiterAt(Exec(z, u).waiters, w, Cancelling) && Exec(z, u).closes > 0) {
        ShelteredRun(z, u, w);
      }
    } else {
      var u := ClosesFirst(s, w, outer);
      var v := CancelsLate(Exec(z, u), w);
      RunsAppend(z, u, v);
      assert WaiterAt(Exec(z, u + v).waiters, w, Cancelling) && Exec(z, u + v).closes > 0;
    }
  }

  lemma {:induction false} ShelterKept(s: State, t: seq<Action>, w: Id)
    requires Runs(s, t) && w in s.waiters
    ensures w in Exec(s, t).waiters && Exec(s, t).waiters[w].sheltered == s.waiters[w].sheltered
    decreases |t|
  {
    if t != [] {
      ShelterKept(Apply(s, t[0]), t[1..], w);
    }
  }

  lemma ShelteredRun(s: State, t: seq<Action>, w: Id)
    requires Inv(s) && Runs(s, t) && w in s.waiters && s.waiters[w].sheltered
    ensures WaiterAt(Exec(s, t).waiters, w, Cancelling) ==> Exec(s, t).closes == 0
  {
    RunKeeps(s, t);
    ShelterKept(s, t, w);
    var z := Exec(s, t);
    var p :| InvAt(z, p);
    assert WaiterOk(w, z.waiters[w], z.guards, p, Finishing(z.closers) != {});
  }

  /** With the slot retired and the descriptor closed, a waiter about to register goes on to
      cancel it. */
  lemma CancelsLate(s: State, w: Id) returns (u: seq<Action>)
    requires WaiterAt(s.waiters, w, Suspending) && At(s.guards, w, Entered) && s.fd != s.own
    ensures Runs(s, u) && WaiterAt(Exec(s, u).waiters, w, Cancelling) && Exec(s, u).closes == s.closes
  {
    hide Runs, Exec;
    OneStep(s, Load(w));
    u := Then(s, [Load(w)], Register(w, true));
    u := Then(s, u, Recheck(w));
  }

  /** Waiter `w` stays where it was while others close the descriptor. */
  predicate Undisturbed(s: State, z: State, w: Id) {
    && w in s.waiters && w in z.waiters && z.waiters[w] == s.waiters[w]
    && w in s.guards && w in z.guards && z.guards[w] == s.guards[w]
    && z.own == s.own
  }

  /** From a slot that is not quiet the descriptor can be closed while `w` has not registered. */
  lemma ClosesFirst(s: State, w: Id, outer: Id) returns (u: seq<Action>)
    requires Inv(s) && Enabled(s, Suspend(w, outer)) && !Quiet(s)
    ensures var z := Apply(s, Suspend(w, outer));
      Runs(z, u) && Exec(z, u).closes > 0 && Exec(z, u).fd != z.own && Undisturbed(z, Exec(z, u), w)
  {
    var p :| InvAt(s, p);
    Holders(s, p);
    assert GuardOk(outer, s.guards[outer], p, Windows(s.guards) != {}, Finishing(s.closers) != {});
    var z := Apply(s, Suspend(w, outer));
    if p.Closed? {
      u := [];
      assert Exec(z, u) == z;
    } else if p.WithLeaver? {
      u := [Dispose(p.g)];
      OneStep(z, Dispose(p.g));
    } else {
      forall g | g in s.guards ensures !s.guards[g].pc.Disposing? {
        assert GuardOk(g, s.guards[g], p, Windows(s.guards) != {}, Finishing(s.closers) != {});
      }
      var r := SomeWindow(s.guards);
      u := Park(s, p, z);
      hide Inv, InvAt, Runs, Exec, Quiet;
      u := Then(z, u, Take(r));
      u := Then(z, u, Dispose(r));
    }
  }

  /** From any safe place the descriptor can be parked in `pending` by a `close()` alone. */
  lemma Park(s: State, p: Place, z: State) returns (u: seq<Action>)
    requires InvAt(s, p) && p.Safe()
    requires z.closers == s.closers && z.fd == s.fd && z.pending == s.pending && z.own == s.own
    ensures Runs(z, u) && Exec(z, u).pending == s.own >= 0 && Exec(z, u).fd == -1
    ensures Exec(z, u).guards == z.guards && Exec(z, u).waiters == z.waiters && Exec(z, u).own == z.own
  {
    u := [];
    assert Exec(z, u) == z;
    if !p.InPending? {
      var c := FreshCloser(s.closers.Keys);
      if p.AtCloser? {
        c := p.c;
        assert CloserOk(c, s.closers[c], p);
      }
      hide Runs, Exec;
      if p.InSlot? { u := Then(z, u, CloserExchange(c)); }
      if CloserAt(Exec(z, u).closers, c, Exchanged) { u := Then(z, u, CloserCancel(c)); }
      u := Then(z, u, CloserStore(c));
    }
  }

  /** Such a run from the start: guard 0 stands in its window, guard 1 holds the descriptor and
      waiter 2 begins; it ends about to cancel the descriptor that has been closed. */
  lemma LateCancelRun(own: int) returns (t: seq<Action>)
    requires own >= 0
    ensures Runs(Init(own), t)
    ensures var s := Exec(Init(own), t); WaiterAt(s.waiters, 2, Cancelling) && s.closes == 1
  {
    var s0 := Init(own);
    InitInv(own);
    t := UnquietRun(own);
    RunKeeps(s0, t);
    var s := Exec(s0, t);
    var u := ClosesFirst(s, 2, 1);
    hide Inv, Runs, Exec, Quiet;
    var t1 := Then(s0, t, Suspend(2, 1));
    var z := Exec(s0, t1);
    var v := CancelsLate(Exec(z, u), 2);
    RunsAppend(z, u, v);
    RunsAppend(s0, t1, u + v);
    t := t1 + (u + v);
    RunKeeps(s0, t);
    AtMostOnce(Exec(s0, t));
  }

  lemma AtMostOnce(s: State)
    requires Inv(s)
    ensures s.closes <= 1
  {
  }

  lemma UnquietRun(own: int) returns (t: seq<Action>)
    requires own >= 0
    ensures Runs(Init(own), t) && Enabled(Exec(Init(own), t), Suspend(2, 1)) && !Quiet(Exec(Init(own), t))
  {
    var s0 := Init(own);
    OneStep(s0, Enter(0));
    hide Runs, Exec;
    t := Then(s0, [Enter(0)], Load(0));
    t := Then(s0, t, Leave(0));
    t := Then(s0, t, Enter(1));
    t := Then(s0, t, Load(1));
    assert 0 in Windows(Exec(s0, t).guards);
  }

  /** The same window breaks the promise to a guard: a run from the start that ends with guard 1
      holding the descriptor that has been closed. */
  lemma UnpinnedRun(own: int) returns (t: seq<Action>)
    requires own >= 0
    ensures Runs(Init(own), t)
    ensures var s := Exec(Init(own), t); At(s.guards, 1, Holding) && s.closes == 1
  {
    var s0 := Init(own);
    InitInv(own);
    OneStep(s0, Enter(0));
    hide Runs, Exec;
    t := Then(s0, [Enter(0)], Load(0));
    t := Then(s0, t, Leave(0));
    RunKeeps(s0, t);
    var s := Exec(s0, t);
    var u := RacedRun(s, 1, 0, 0);
    t := Then(s0, t, Enter(1));
    RunsAppend(s0, t, u);
    t := t + u;
  }

  // ---- What a returned close() means -------------------------------------------------

  predicate AllLeft(s: State) {
    forall g :: g in s.guards ==> s.guards[g].pc.Left?
  }

  /** Some `close()` has the descriptor in hand. */
  predicate InHand(s: State) {
    exists d :: d in s.closers && (s.closers[d].Exchanged? || s.closers[d].Cancelled? || s.closers[d].Closing?)
  }

  /** Some `close()` has parked the descriptor and may still take it back. */
  predicate MayTakeBack(s: State) {
    s.pending >= 0 && Armed(s.closers) != {}
  }

  /** A call of `close()` that has returned while no guard is left need not mean that the
      descriptor is closed: `c` can rely on it in every continuation. */
  ghost predicate Guarantees(s: State, c: Id) {
    forall t :: Runs(s, t) && CloserAt(Exec(s, t).closers, c, Returned) && AllLeft(Exec(s, t)) ==>
      Exec(s, t).closes == 1
  }

  /** With some `close()` begun and every guard gone, the descriptor is closed exactly if it is
      not parked and no `close()` has it in hand. */
  lemma ClosedExactly(s: State)
    requires Inv(s) && s.closers != map[] && AllLeft(s)
    ensures s.closes == 1 <==> s.pending < 0 && !InHand(s)
  {
    var p :| InvAt(s, p);
    assert s.closers.Keys != {};
    var c :| c in s.closers.Keys;
    assert CloserOk(c, s.closers[c], p);
    Holders(s, p);
    if p.AtCloser? || p.WithCloser? { assert CloserOk(p.c, s.closers[p.c], p); }
  }

  /** Exactly-once release. In every interleaving the descriptor is closed at most once; with
      some `close()` begun and every guard gone, it is closed exactly if it is not parked and no
      `close()` has it in hand, so once every `close()` has returned it is closed. */
  lemma ClosedExactlyOnce(own: int, t: seq<Action>)
    requires own >= 0 && Runs(Init(own), t)
    ensures var s := Exec(Init(own), t);
      && s.closes <= 1
      && (s.closers != map[] && AllLeft(s) ==> (s.closes == 1 <==> s.pending < 0 && !InHand(s)))
      && (s.closers != map[] && AllLeft(s) && (forall c :: c in s.closers ==> s.closers[c].Returned?) ==> s.closes == 1)
  {
    InitInv(own);
    RunKeeps(Init(own), t);
    var s := Exec(Init(own), t);
    hide Runs, Exec, Inv;
    AtMostOnce(s);
    if s.closers != map[] && AllLeft(s) {
      ClosedExactly(s);
      if forall c :: c in s.closers ==> s.closers[c].Returned? {
        EndClosed(s);
      }
    }
  }

  /** The shortest run of the other kind: the second `close()` has returned, no guard is left, and
      the first still has the descriptor in hand. */
  lemma EarlyReturn(own: int)
    requires own >= 0
    ensures var t := [CloserExchange(0), CloserExchange(1)];
      && Runs(Init(own), t)
      && var s := Exec(Init(own), t);
         CloserAt(s.closers, 1, Returned) && AllLeft(s) && InHand(s) && s.closes == 0
  {
    var s := Exec(Init(own), [CloserExchange(0), CloserExchange(1)]);
    assert s.closers[0].Exchanged?;
  }

  lemma EndClosed(s: State)
    requires Inv(s) && s.closers != map[] && AllLeft(s) && !InHand(s) && !MayTakeBack(s)
    ensures s.closes == 1
  {
    ClosedExactly(s);
    var p :| InvAt(s, p);
    assert Counted(s.guards) == {} && Windows(s.guards) == {};
  }

  /** Nobody else's `close()` is at work, and none will be. */
  predicate OwnedBy(s: State, c: Id) {
    s.fd < 0 && c in s.closers && forall d :: d in s.closers && d != c ==> s.closers[d].Returned?
  }

  lemma {:induction false} OwnedRun(s: State, t: seq<Action>, c: Id)
    requires Runs(s, t) && OwnedBy(s, c)
    ensures OwnedBy(Exec(s, t), c)
    decreases |t|
  {
    if t != [] { OwnedRun(Apply(s, t[0]), t[1..], c); }
  }

  /** The slot is retired and no `close()` will ever have the descriptor again. */
  predicate OutOfReach(s: State, c: Id) {
    s.fd < 0 && c in s.closers && !InHand(s) && !MayTakeBack(s)
  }

  lemma OutOfReachStep(s: State, a: Action, c: Id)
    requires Enabled(s, a) && OutOfReach(s, c)
    ensures OutOfReach(Apply(s, a), c)
  {
    if a.CloserTake? || a.CloserLoad? { assert a.c in Armed(s.closers); }
    if a.CloserStore? || a.CloserCancel? || a.CloserClose? { assert false; }
    assert Armed(Apply(s, a).closers) <= Armed(s.closers);
  }

  lemma {:induction false} OutOfReachRun(s: State, t: seq<Action>, c: Id)
    requires Runs(s, t) && OutOfReach(s, c)
    ensures OutOfReach(Exec(s, t), c)
    decreases |t|
  {
    hide OutOfReach, Apply, Enabled;
    if t != [] {
      OutOfReachStep(s, t[0], c);
      OutOfReachRun(Apply(s, t[0]), t[1..], c);
    }
  }

  /** A `close()` made in a reachable state guarantees the closing, once it has returned and every
      guard has left, exactly if it found the descriptor itself, or no earlier `close()` has it in
      hand or may still take it back. */
  lemma CloseGuaranteesExactly(own: int, t: seq<Action>, c: Id)
    requires own >= 0 && Runs(Init(own), t) && Enabled(Exec(Init(own), t), CloserExchange(c))
    ensures var s := Exec(Init(own), t);
      Guarantees(Apply(s, CloserExchange(c)), c) <==> s.fd == s.own || (!InHand(s) && !MayTakeBack(s))
  {
    InitInv(own);
    RunKeeps(Init(own), t);
    var s := Exec(Init(own), t);
    StepKeeps(s, CloserExchange(c));
    var z := Apply(s, CloserExchange(c));
    ExchangeFacts(s, c);
    hide Inv, Runs, Exec, InHand, MayTakeBack, Apply, Enabled;
    if s.fd == s.own {
      forall u | Runs(z, u) && CloserAt(Exec(z, u).closers, c, Returned) && AllLeft(Exec(z, u))
        ensures Exec(z, u).closes == 1
      {
        OwnedRun(z, u, c);
        RunKeeps(z, u);
        ReturnedFree(Exec(z, u), c);
        EndClosed(Exec(z, u));
      }
    } else if !InHand(s) && !MayTakeBack(s) {
      forall u | Runs(z, u) && AllLeft(Exec(z, u)) ensures Exec(z, u).closes == 1 {
        OutOfReachRun(z, u, c);
        RunKeeps(z, u);
        EndClosed(Exec(z, u));
      }
    } else {
      var u := StillOpen(z);
      assert CloserAt(Exec(z, u).closers, c, Returned) && AllLeft(Exec(z, u)) && Exec(z, u).closes == 0;
    }
  }

  lemma ReturnedFree(s: State, c: Id)
    requires OwnedBy(s, c) && s.closers[c].Returned?
    ensures !InHand(s) && !MayTakeBack(s)
  {
  }

  lemma ExchangeFacts(s: State, c: Id)
    requires Inv(s) && Enabled(s, CloserExchange(c))
    ensures var z := Apply(s, CloserExchange(c));
      && (s.fd == s.own ==> OwnedBy(z, c))
      && (s.fd != s.own ==> CloserAt(z.closers, c, Returned) && z.fd < 0
                            && (InHand(z) <==> InHand(s)) && (MayTakeBack(z) <==> MayTakeBack(s)))
  {
    var p :| InvAt(s, p);
    var z := Apply(s, CloserExchange(c));
    forall d | d in s.closers ensures !p.InSlot? {
      assert CloserOk(d, s.closers[d], p);
    }
    if s.fd != s.own {
      CloserUpdate(s.closers, c, Returned);
      if InHand(s) {
        var d :| d in s.closers && (s.closers[d].Exchanged? || s.closers[d].Cancelled? || s.closers[d].Closing?);
        assert z.closers[d] == s.closers[d];
      }
    }
  }

  // ---- Letting the guards go ---------------------------------------------------------

  /** Only guards and waiters have moved; of the guards, only those in `moved`. */
  predicate SameBut(s: State, z: State, moved: set<Id>) {
    && z.closers == s.closers && z.pending == s.pending && z.closes == s.closes && z.fd == s.fd && z.own == s.own
    && z.guards.Keys == s.guards.Keys
    && forall g :: g in s.guards && g !in moved ==> z.guards[g] == s.guards[g]
  }

  lemma FinishWaiter(s: State, w: Id) returns (t: seq<Action>)
    requires At(s.guards, w, Holding) || At(s.guards, w, Blank)
    ensures Runs(s, t) && SameBut(s, Exec(s, t), {})
    ensures w in Exec(s, t).waiters ==> Exec(s, t).waiters[w].pc.Finished?
  {
    t := [];
    assert Exec(s, t) == s;
    hide Runs, Exec;
    if WaiterAt(s.waiters, w, Suspending) { t := Then(s, t, Register(w, false)); }
    if WaiterAt(Exec(s, t).waiters, w, Registered) { t := Then(s, t, Recheck(w)); }
    if WaiterAt(Exec(s, t).waiters, w, Cancelling) { t := Then(s, t, LateCancel(w)); }
  }

  lemma LeaveLoaded(s: State, g: Id) returns (t: seq<Action>)
    requires At(s.guards, g, Holding) || At(s.guards, g, Blank)
    ensures Runs(s, t) && SameBut(s, Exec(s, t), {g})
    ensures At(Exec(s, t).guards, g, Window) || At(Exec(s, t).guards, g, Left)
  {
    var u := FinishWaiter(s, g);
    hide Runs, Exec;
    t := Then(s, u, Leave(g));
  }

  lemma LeaveOne(s: State, g: Id) returns (t: seq<Action>)
    requires g in s.guards && s.guards[g].Counted()
    ensures Runs(s, t) && SameBut(s, Exec(s, t), {g})
    ensures At(Exec(s, t).guards, g, Window) || At(Exec(s, t).guards, g, Left)
  {
    if At(s.guards, g, Entered) {
      OneStep(s, Load(g));
      var u := LeaveLoaded(Apply(s, Load(g)), g);
      hide Runs, Exec;
      RunsAppend(s, [Load(g)], u);
      t := [Load(g)] + u;
    } else {
      t := LeaveLoaded(s, g);
    }
  }

  /** Every counted guard can leave while every closer stands still. */
  lemma {:induction false} LeaveAll(s: State) returns (t: seq<Action>)
    requires forall g :: g in s.guards ==> !s.guards[g].pc.Disposing?
    ensures Runs(s, t) && SameBut(s, Exec(s, t), Counted(s.guards))
    ensures forall g :: g in Exec(s, t).guards ==> At(Exec(s, t).guards, g, Window) || At(Exec(s, t).guards, g, Left)
    decreases |Counted(s.guards)|
  {
    var todo := Counted(s.guards);
    t := [];
    assert Exec(s, t) == s;
    if todo != {} {
      var g :| g in todo;
      var u := LeaveOne(s, g);
      hide Runs, Exec;
      var z := Exec(s, u);
      assert Counted(z.guards) == todo - {g};
      var v := LeaveAll(z);
      RunsAppend(s, u, v);
      t := u + v;
    } else {
      forall g | g in s.guards ensures At(s.guards, g, Window) || At(s.guards, g, Left) {
        assert g !in todo;
      }
    }
  }

  /** With nothing parked, every leaver finds nothing and is done. */
  lemma {:induction false} TakeAll(s: State) returns (t: seq<Action>)
    requires s.pending < 0
    requires forall g :: g in s.guards ==> At(s.guards, g, Window) || At(s.guards, g, Left)
    ensures Runs(s, t) && AllLeft(Exec(s, t)) && Exec(s, t).closers == s.closers && Exec(s, t).closes == s.closes
    decreases |Windows(s.guards)|
  {
    var todo := Windows(s.guards);
    t := [];
    assert Exec(s, t) == s;
    if todo != {} {
      var g := SomeWindow(s.guards);
      OneStep(s, Take(g));
      var z := Apply(s, Take(g));
      assert Windows(z.guards) == todo - {g};
      assert g in todo;
      var v := TakeAll(z);
      RunsAppend(s, [Take(g)], v);
      t := [Take(g)] + v;
    } else {
      forall g | g in s.guards ensures s.guards[g].pc.Left? {
        assert g !in todo;
      }
    }
  }

  /** While a `close()` has the descriptor, or may take it back, it can stand still until every
      guard has left and every other `close()` has returned. */
  lemma StillOpen(s: State) returns (t: seq<Action>)
    requires Inv(s) && (InHand(s) || MayTakeBack(s))
    ensures Runs(s, t) && AllLeft(Exec(s, t)) && Exec(s, t).closes == 0
    ensures forall c :: CloserAt(s.closers, c, Returned) ==> CloserAt(Exec(s, t).closers, c, Returned)
  {
    NobodyDisposes(s);
    t := LeaveAll(s);
    RunKeeps(s, t);
    hide Inv, InHand, Runs, Exec;
    var z := Exec(s, t);
    if MayTakeBack(s) {
      NoneInside(z);
      var d := SomeArmed(s.closers);
      if s.closers[d].Stored? { t := Then(s, t, CloserLoad(d)); }
      t := Then(s, t, CloserTake(d));
    }
    var v := TakeAll(Exec(s, t));
    RunsAppend(s, t, v);
    t := t + v;
  }

  lemma NobodyDisposes(s: State)
    requires Inv(s) && (InHand(s) || MayTakeBack(s))
    ensures s.closes == 0 && (MayTakeBack(s) || s.pending < 0)
    ensures forall g :: g in s.guards ==> !s.guards[g].pc.Disposing?
  {
    var p :| InvAt(s, p);
    if InHand(s) {
      var d :| d in s.closers && (s.closers[d].Exchanged? || s.closers[d].Cancelled? || s.closers[d].Closing?);
      assert CloserOk(d, s.closers[d], p);
    }
    forall g | g in s.guards ensures !s.guards[g].pc.Disposing? {
      assert GuardOk(g, s.guards[g], p, Windows(s.guards) != {}, Finishing(s.closers) != {});
    }
  }

  lemma NoneInside(s: State)
    requires Inv(s) && forall g :: g in s.guards ==> At(s.guards, g, Window) || At(s.guards, g, Left)
    ensures s.inflight == 0
  {
    assert Counted(s.guards) == {};
  }

  lemma SomeArmed(cs: map<Id, CloserPc>) returns (d: Id)
    requires Armed(cs) != {}
    ensures CloserAt(cs, d, Stored) || CloserAt(cs, d, Releasing)
  {
    var ds := Armed(cs);
    d :| d in ds;
  }
}
