/** The descriptor-retirement protocol of Embedded/includes/FdSlot.h as a transition system:
    one action per atomic operation, `cancelFd` and `::close`, interleaved arbitrarily between
    any number of guards, closers and registering waiters (sequential consistency). */
module FdSlot {

  type Id = nat

  /** Program counter of a `Guard`: counted in but `fd` not loaded; holding the descriptor;
      holding -1; between the `fetch_sub` that returned 1 and the exchange of `pending`;
      about to `::close` the descriptor it took; done. */
  datatype GuardPc = Entered | Holding | Blank | Window | Disposing | Left

  /** How the slot looked when the guard was counted in: no leaver in its window; or some
      leaver in its window but the descriptor already out of the slot; or neither. */
  datatype Entry = Clean | Late | Raced

  /** Program counter of a `close()` call after its exchange of `fd`. */
  datatype CloserPc = Exchanged | Cancelled | Stored | Releasing | Closing | Returned

  /** Program counter of an `await_suspend` call; its `hold` guard has the same identifier. */
  datatype WaiterPc = Suspending | Registered | Cancelling | Finished

  datatype Guard = Guard(pc: GuardPc, entry: Entry) {
    predicate Counted() { pc.Entered? || pc.Holding? || pc.Blank? }
  }

  /** `sheltered` is set when the slot was `Quiet` as the call began. */
  datatype Waiter = Waiter(pc: WaiterPc, sheltered: bool)

  /** `own` is the descriptor the slot was built with, `closes` the number of `::close(own)`
      calls so far, `parked` the waiters registered with the reactor on `own`. */
  datatype State = State(
    own: int,
    fd: int,
    pending: int,
    inflight: int,
    closes: nat,
    guards: map<Id, Guard>,
    closers: map<Id, CloserPc>,
    waiters: map<Id, Waiter>,
    parked: set<Id>)

  datatype Action =
    | Enter(g: Id)
    | Load(g: Id)
    | Leave(g: Id)
    | Take(g: Id)
    | Dispose(g: Id)
    | CloserExchange(c: Id)
    | CloserCancel(c: Id)
    | CloserStore(c: Id)
    | CloserLoad(c: Id)
    | CloserTake(c: Id)
    | CloserClose(c: Id)
    | Suspend(w: Id, outer: Id)
    | Register(w: Id, accepted: bool)
    | Recheck(w: Id)
    | LateCancel(w: Id)
    | Ready(w: Id)

  function Init(own: int): State {
    State(own, own, -1, 0, 0, map[], map[], map[], {})
  }

  predicate At(gs: map<Id, Guard>, g: Id, pc: GuardPc) {
    g in gs && gs[g].pc == pc
  }

  predicate CloserAt(cs: map<Id, CloserPc>, c: Id, pc: CloserPc) {
    c in cs && cs[c] == pc
  }

  predicate WaiterAt(ws: map<Id, Waiter>, w: Id, pc: WaiterPc) {
    w in ws && ws[w].pc == pc
  }

  /** The leavers between their decrement to zero and their exchange of `pending`. */
  function Windows(gs: map<Id, Guard>): set<Id> {
    set g | g in gs && gs[g].pc.Window?
  }

  /** No leaver stands in its window or is about to close the descriptor, and none has. */
  predicate Quiet(s: State) {
    Windows(s.guards) == {} && s.closes == 0 && forall g :: g in s.guards ==> !s.guards[g].pc.Disposing?
  }

  predicate Enabled(s: State, a: Action) {
    match a
    case Enter(g) => g !in s.guards
    case Load(g) => At(s.guards, g, Entered)
    case Leave(g) =>
      && (At(s.guards, g, Holding) || At(s.guards, g, Blank))
      && (g in s.waiters ==> s.waiters[g].pc.Finished?)
    case Take(g) => At(s.guards, g, Window)
    case Dispose(g) => At(s.guards, g, Disposing)
    case CloserExchange(c) => c !in s.closers
    case CloserCancel(c) => CloserAt(s.closers, c, Exchanged)
    case CloserStore(c) => CloserAt(s.closers, c, Cancelled)
    case CloserLoad(c) => CloserAt(s.closers, c, Stored)
    case CloserTake(c) => CloserAt(s.closers, c, Releasing)
    case CloserClose(c) => CloserAt(s.closers, c, Closing)
    case Suspend(w, outer) => w !in s.guards && w !in s.waiters && At(s.guards, outer, Holding)
    case Register(w, _) =>
      WaiterAt(s.waiters, w, Suspending) && (At(s.guards, w, Holding) || At(s.guards, w, Blank))
    case Recheck(w) => WaiterAt(s.waiters, w, Registered)
    case LateCancel(w) => WaiterAt(s.waiters, w, Cancelling)
    case Ready(w) => w in s.parked
  }

  function Moved(gs: map<Id, Guard>, g: Id, pc: GuardPc): map<Id, Guard>
    requires g in gs
  {
    gs[g := gs[g].(pc := pc)]
  }

  function Advanced(ws: map<Id, Waiter>, w: Id, pc: WaiterPc): map<Id, Waiter>
    requires w in ws
  {
    ws[w := ws[w].(pc := pc)]
  }

  /** A guard's `fetch_add`. */
  function CountIn(s: State, g: Id): State {
    var entry := if Windows(s.guards) == {} then Clean else if s.fd != s.own then Late else Raced;
    s.(inflight := s.inflight + 1, guards := s.guards[g := Guard(Entered, entry)])
  }

  function Apply(s: State, a: Action): State
    requires Enabled(s, a)
  {
    match a
    case Enter(g) => CountIn(s, g)
    case Load(g) => s.(guards := Moved(s.guards, g, if s.fd == s.own then Holding else Blank))
    case Leave(g) =>
      s.(inflight := s.inflight - 1, guards := Moved(s.guards, g, if s.inflight == 1 then Window else Left))
    case Take(g) =>
      s.(pending := -1, guards := Moved(s.guards, g, if s.pending >= 0 then Disposing else Left))
    case Dispose(g) => s.(closes := s.closes + 1, guards := Moved(s.guards, g, Left))
    case CloserExchange(c) =>
      s.(fd := -1, closers := s.closers[c := if s.fd < 0 then Returned else Exchanged])
    case CloserCancel(c) => s.(parked := {}, closers := s.closers[c := Cancelled])
    case CloserStore(c) => s.(pending := s.own, closers := s.closers[c := Stored])
    case CloserLoad(c) => s.(closers := s.closers[c := if s.inflight == 0 then Releasing else Returned])
    case CloserTake(c) =>
      s.(pending := -1, closers := s.closers[c := if s.pending >= 0 then Closing else Returned])
    case CloserClose(c) => s.(closes := s.closes + 1, closers := s.closers[c := Returned])
    case Suspend(w, outer) =>
      CountIn(s, w).(waiters := s.waiters[w := Waiter(Suspending, Quiet(s))])
    case Register(w, accepted) =>
      if accepted then s.(parked := s.parked + {w}, waiters := Advanced(s.waiters, w, Registered))
      else s.(waiters := Advanced(s.waiters, w, Finished))
    case Recheck(w) =>
      s.(waiters := Advanced(s.waiters, w, if s.fd != s.own then Cancelling else Finished))
    case LateCancel(w) => s.(parked := {}, waiters := Advanced(s.waiters, w, Finished))
    case Ready(w) => s.(parked := s.parked - {w})
  }

  /** `t` is a run from `s`. */
  predicate Runs(s: State, t: seq<Action>)
    decreases |t|
  {
    t == [] || (Enabled(s, t[0]) && Runs(Apply(s, t[0]), t[1..]))
  }

  function Exec(s: State, t: seq<Action>): State
    requires Runs(s, t)
    decreases |t|
  {
    if t == [] then s else Exec(Apply(s, t[0]), t[1..])
  }

  // ---- Invariant ---------------------------------------------------------------------

  /** Where the descriptor is: exactly one place at any time. */
  datatype Place =
    | InSlot
    | AtCloser(c: Id)
    | InPending
    | WithLeaver(g: Id)
    | WithCloser(c: Id)
    | Closed
  {
    /** Not yet handed to anyone who is about to close it. */
    predicate Safe() { InSlot? || AtCloser? || InPending? }
  }

  /** The guards that `inflight` is meant to count. */
  function Counted(gs: map<Id, Guard>): set<Id> {
    set g | g in gs && gs[g].Counted()
  }

  /** Closers that read a zero count and have not returned. */
  function Finishing(cs: map<Id, CloserPc>): set<Id> {
    set c | c in cs && (cs[c].Releasing? || cs[c].Closing?)
  }

  /** Closers that have parked the descriptor and not yet tried to take it back. */
  function Armed(cs: map<Id, CloserPc>): set<Id> {
    set c | c in cs && (cs[c].Stored? || cs[c].Releasing?)
  }

  ghost predicate SlotInv(s: State, p: Place) {
    && s.own >= 0
    && s.fd == (if p.InSlot? then s.own else -1)
    && s.pending == (if p.InPending? then s.own else -1)
    && s.closes == (if p.Closed? then 1 else 0)
  }

  ghost predicate CountInv(inflight: int, gs: map<Id, Guard>) {
    inflight == |Counted(gs)|
  }

  predicate GuardOk(g: Id, x: Guard, p: Place, window: bool, finishing: bool) {
    && (x.pc.Holding? ==> !finishing && (x.entry.Clean? ==> p.Safe()))
    && (x.Counted() && x.entry.Clean? ==> !window)
    && (x.entry.Late? ==> !p.InSlot? && !x.pc.Holding?)
    && (x.pc.Disposing? <==> p == WithLeaver(g))
  }

  ghost predicate GuardsInv(gs: map<Id, Guard>, p: Place, window: bool, finishing: bool) {
    && (forall g :: g in gs ==> GuardOk(g, gs[g], p, window, finishing))
    && (p.WithLeaver? ==> p.g in gs)
  }

  predicate CloserOk(c: Id, x: CloserPc, p: Place) {
    && !p.InSlot?
    && (x.Exchanged? || x.Cancelled? <==> p == AtCloser(c))
    && (x.Closing? <==> p == WithCloser(c))
    && (x.Stored? || x.Releasing? ==> !p.AtCloser?)
  }

  ghost predicate ClosersInv(cs: map<Id, CloserPc>, p: Place) {
    && (forall c :: c in cs ==> CloserOk(c, cs[c], p))
    && (p.AtCloser? || p.WithCloser? ==> p.c in cs)
  }

  predicate WaiterOk(w: Id, x: Waiter, gs: map<Id, Guard>, p: Place, finishing: bool) {
    !x.pc.Finished? ==>
      && w in gs && gs[w].Counted()
      && (x.sheltered ==> gs[w].entry.Clean? && p.Safe() && !finishing)
  }

  ghost predicate WaitersInv(ws: map<Id, Waiter>, gs: map<Id, Guard>, p: Place, finishing: bool) {
    forall w :: w in ws ==> WaiterOk(w, ws[w], gs, p, finishing)
  }

  /** A registered waiter is still going to be woken: by a close that has not begun, or by the
      `cancelFd` of one that has. */
  predicate Awaited(cs: map<Id, CloserPc>, p: Place) {
    p.InSlot? || (p.AtCloser? && CloserAt(cs, p.c, Exchanged))
  }

  ghost predicate ParkedInv(parked: set<Id>, ws: map<Id, Waiter>, awaited: bool) {
    forall w :: w in parked ==>
      w in ws && !ws[w].pc.Suspending? && (ws[w].pc.Finished? ==> awaited)
  }

  ghost predicate LeakInv(s: State, p: Place) {
    p.InPending? ==> s.inflight > 0 || Windows(s.guards) != {} || Armed(s.closers) != {}
  }

  ghost predicate InvAt(s: State, p: Place) {
    && SlotInv(s, p)
    && CountInv(s.inflight, s.guards)
    && LeakInv(s, p)
    && GuardsInv(s.guards, p, Windows(s.guards) != {}, Finishing(s.closers) != {})
    && ClosersInv(s.closers, p)
    && WaitersInv(s.waiters, s.guards, p, Finishing(s.closers) != {})
    && ParkedInv(s.parked, s.waiters, Awaited(s.closers, p))
  }

  ghost predicate Inv(s: State) {
    exists p :: InvAt(s, p)
  }

  /** Where the descriptor is after a step. */
  function PlaceAfter(a: Action, p: Place): Place {
    match a
    case CloserExchange(c) => if p.InSlot? then AtCloser(c) else p
    case CloserStore(c) => InPending
    case Take(g) => if p.InPending? then WithLeaver(g) else p
    case CloserTake(c) => if p.InPending? then WithCloser(c) else p
    case Dispose(g) => Closed
    case CloserClose(c) => Closed
    case _ => p
  }

  /** What one guard's move does to the counted guards and to the open windows. */
  lemma GuardUpdate(gs: map<Id, Guard>, g: Id, x: Guard)
    ensures |Counted(gs[g := x])| == |Counted(gs)|
              + (if x.Counted() then 1 else 0) - (if g in gs && gs[g].Counted() then 1 else 0)
    ensures x.pc.Window? ==> Windows(gs[g := x]) != {}
    ensures g in gs && gs[g].pc.Window? ==> Windows(gs) != {}
    ensures !x.pc.Window? && !(g in gs && gs[g].pc.Window?) ==> Windows(gs[g := x]) == Windows(gs)
  {
    if x.Counted() {
      assert Counted(gs[g := x]) == Counted(gs) + {g};
    } else {
      assert Counted(gs[g := x]) == Counted(gs) - {g};
    }
    if x.pc.Window? { assert g in Windows(gs[g := x]); }
    if g in gs && gs[g].pc.Window? { assert g in Windows(gs); }
  }

  /** What one closer's move does to the finishing and the armed ones. */
  lemma CloserUpdate(cs: map<Id, CloserPc>, c: Id, x: CloserPc)
    ensures x.Releasing? || x.Closing? ==> Finishing(cs[c := x]) != {}
    ensures c in cs && (cs[c].Releasing? || cs[c].Closing?) ==> Finishing(cs) != {}
    ensures !(x.Releasing? || x.Closing?) && !(c in cs && (cs[c].Releasing? || cs[c].Closing?)) ==>
              Finishing(cs[c := x]) == Finishing(cs)
    ensures x.Stored? || x.Releasing? ==> Armed(cs[c := x]) != {}
    ensures !(x.Stored? || x.Releasing?) && !(c in cs && (cs[c].Stored? || cs[c].Releasing?)) ==>
              Armed(cs[c := x]) == Armed(cs)
  {
    if x.Releasing? || x.Closing? { assert c in Finishing(cs[c := x]); }
    if c in cs && (cs[c].Releasing? || cs[c].Closing?) { assert c in Finishing(cs); }
    if x.Stored? || x.Releasing? { assert c in Armed(cs[c := x]); }
  }

  lemma OnlyCounted(gs: map<Id, Guard>, g: Id)
    requires g in gs && gs[g].Counted()
    ensures |Counted(gs)| >= 1
    ensures |Counted(gs)| == 1 ==> forall h :: h in gs && gs[h].Counted() ==> h == g
  {
    assert g in Counted(gs);
    if |Counted(gs)| == 1 {
      assert |Counted(gs) - {g}| == 0;
      forall h | h in gs && gs[h].Counted() ensures h == g {
        assert h in Counted(gs);
      }
    }
  }

  lemma NoneCounted(gs: map<Id, Guard>)
    ensures |Counted(gs)| == 0 ==> forall h :: h in gs ==> !gs[h].Counted()
  {
    if |Counted(gs)| == 0 {
      forall h | h in gs ensures !gs[h].Counted() {
        assert h !in Counted(gs);
      }
    }
  }

  lemma FinishingRetired(s: State, p: Place)
    requires ClosersInv(s.closers, p)
    ensures Finishing(s.closers) != {} ==> !p.InSlot?
  {
  }

  lemma EnterKeeps(s: State, p: Place, g: Id)
    requires InvAt(s, p) && Enabled(s, Enter(g))
    ensures InvAt(Apply(s, Enter(g)), PlaceAfter(Enter(g), p))
  {
    GuardUpdate(s.guards, g, Apply(s, Enter(g)).guards[g]);
  }

  lemma LoadKeeps(s: State, p: Place, g: Id)
    requires InvAt(s, p) && Enabled(s, Load(g))
    ensures InvAt(Apply(s, Load(g)), PlaceAfter(Load(g), p))
  {
    GuardUpdate(s.guards, g, Apply(s, Load(g)).guards[g]);
    FinishingRetired(s, p);
  }

  lemma LeaveKeeps(s: State, p: Place, g: Id)
    requires InvAt(s, p) && Enabled(s, Leave(g))
    ensures InvAt(Apply(s, Leave(g)), PlaceAfter(Leave(g), p))
  {
    OnlyCounted(s.guards, g);
    GuardUpdate(s.guards, g, Apply(s, Leave(g)).guards[g]);
  }

  lemma TakeKeeps(s: State, p: Place, g: Id)
    requires InvAt(s, p) && Enabled(s, Take(g))
    ensures InvAt(Apply(s, Take(g)), PlaceAfter(Take(g), p))
  {
    assert g in Windows(s.guards);
    GuardUpdate(s.guards, g, Apply(s, Take(g)).guards[g]);
  }

  lemma DisposeKeeps(s: State, p: Place, g: Id)
    requires InvAt(s, p) && Enabled(s, Dispose(g))
    ensures InvAt(Apply(s, Dispose(g)), PlaceAfter(Dispose(g), p))
  {
    GuardUpdate(s.guards, g, Apply(s, Dispose(g)).guards[g]);
  }

  lemma CloserExchangeKeeps(s: State, p: Place, c: Id)
    requires InvAt(s, p) && Enabled(s, CloserExchange(c))
    ensures InvAt(Apply(s, CloserExchange(c)), PlaceAfter(CloserExchange(c), p))
  {
    CloserUpdate(s.closers, c, Apply(s, CloserExchange(c)).closers[c]);
  }

  lemma CloserCancelKeeps(s: State, p: Place, c: Id)
    requires InvAt(s, p) && Enabled(s, CloserCancel(c))
    ensures InvAt(Apply(s, CloserCancel(c)), PlaceAfter(CloserCancel(c), p))
  {
  }

  lemma CloserStoreKeeps(s: State, p: Place, c: Id)
    requires InvAt(s, p) && Enabled(s, CloserStore(c))
    ensures InvAt(Apply(s, CloserStore(c)), PlaceAfter(CloserStore(c), p))
  {
    CloserUpdate(s.closers, c, Apply(s, CloserStore(c)).closers[c]);
  }

  lemma CloserLoadKeeps(s: State, p: Place, c: Id)
    requires InvAt(s, p) && Enabled(s, CloserLoad(c))
    ensures InvAt(Apply(s, CloserLoad(c)), PlaceAfter(CloserLoad(c), p))
  {
    NoneCounted(s.guards);
    CloserUpdate(s.closers, c, Apply(s, CloserLoad(c)).closers[c]);
  }

  lemma CloserTakeKeeps(s: State, p: Place, c: Id)
    requires InvAt(s, p) && Enabled(s, CloserTake(c))
    ensures InvAt(Apply(s, CloserTake(c)), PlaceAfter(CloserTake(c), p))
  {
    CloserUpdate(s.closers, c, Apply(s, CloserTake(c)).closers[c]);
  }

  lemma CloserCloseKeeps(s: State, p: Place, c: Id)
    requires InvAt(s, p) && Enabled(s, CloserClose(c))
    ensures InvAt(Apply(s, CloserClose(c)), PlaceAfter(CloserClose(c), p))
  {
  }

  /** Whoever holds the descriptor to close it is where the place says. */
  lemma Holders(s: State, p: Place)
    requires InvAt(s, p)
    ensures p.WithCloser? ==> Finishing(s.closers) != {}
    ensures p.WithLeaver? ==> At(s.guards, p.g, Disposing)
    ensures p.Closed? ==> s.closes == 1
  {
    if p.WithCloser? {
      assert CloserOk(p.c, s.closers[p.c], p);
      assert p.c in Finishing(s.closers);
    }
    if p.WithLeaver? {
      assert GuardOk(p.g, s.guards[p.g], p, Windows(s.guards) != {}, Finishing(s.closers) != {});
    }
  }

  lemma QuietSafe(s: State, p: Place, outer: Id)
    requires InvAt(s, p) && Quiet(s) && At(s.guards, outer, Holding)
    ensures p.Safe() && Finishing(s.closers) == {}
  {
    assert GuardOk(outer, s.guards[outer], p, Windows(s.guards) != {}, Finishing(s.closers) != {});
    Holders(s, p);
  }

  lemma SuspendKeeps(s: State, p: Place, w: Id, outer: Id)
    requires InvAt(s, p) && Enabled(s, Suspend(w, outer))
    ensures InvAt(Apply(s, Suspend(w, outer)), PlaceAfter(Suspend(w, outer), p))
  {
    if Quiet(s) { QuietSafe(s, p, outer); }
    GuardUpdate(s.guards, w, Apply(s, Suspend(w, outer)).guards[w]);
    hide Quiet;
  }

  lemma RegisterKeeps(s: State, p: Place, w: Id, accepted: bool)
    requires InvAt(s, p) && Enabled(s, Register(w, accepted))
    ensures InvAt(Apply(s, Register(w, accepted)), PlaceAfter(Register(w, accepted), p))
  {
  }

  lemma RecheckKeeps(s: State, p: Place, w: Id)
    requires InvAt(s, p) && Enabled(s, Recheck(w))
    ensures InvAt(Apply(s, Recheck(w)), PlaceAfter(Recheck(w), p))
  {
  }

  lemma LateCancelKeeps(s: State, p: Place, w: Id)
    requires InvAt(s, p) && Enabled(s, LateCancel(w))
    ensures InvAt(Apply(s, LateCancel(w)), PlaceAfter(LateCancel(w), p))
  {
  }

  lemma ReadyKeeps(s: State, p: Place, w: Id)
    requires InvAt(s, p) && Enabled(s, Ready(w))
    ensures InvAt(Apply(s, Ready(w)), PlaceAfter(Ready(w), p))
  {
  }

  lemma StepKeeps(s: State, a: Action)
    requires Inv(s) && Enabled(s, a)
    ensures Inv(Apply(s, a))
  {
    var p :| InvAt(s, p);
    hide InvAt, Apply;
    match a {
      case Enter(g) => EnterKeeps(s, p, g);
      case Load(g) => LoadKeeps(s, p, g);
      case Leave(g) => LeaveKeeps(s, p, g);
      case Take(g) => TakeKeeps(s, p, g);
      case Dispose(g) => DisposeKeeps(s, p, g);
      case CloserExchange(c) => CloserExchangeKeeps(s, p, c);
      case CloserCancel(c) => CloserCancelKeeps(s, p, c);
      case CloserStore(c) => CloserStoreKeeps(s, p, c);
      case CloserLoad(c) => CloserLoadKeeps(s, p, c);
      case CloserTake(c) => CloserTakeKeeps(s, p, c);
      case CloserClose(c) => CloserCloseKeeps(s, p, c);
      case Suspend(w, outer) => SuspendKeeps(s, p, w, outer);
      case Register(w, accepted) => RegisterKeeps(s, p, w, accepted);
      case Recheck(w) => RecheckKeeps(s, p, w);
      case LateCancel(w) => LateCancelKeeps(s, p, w);
      case Ready(w) => ReadyKeeps(s, p, w);
    }
    assert InvAt(Apply(s, a), PlaceAfter(a, p));
  }

  lemma InitInv(own: int)
    requires own >= 0
    ensures Inv(Init(own))
  {
    assert Counted(Init(own).guards) == {};
    assert InvAt(Init(own), InSlot);
  }

  /** Every run keeps the invariant. */
  lemma {:induction false} RunKeeps(s: State, t: seq<Action>)
    requires Inv(s) && Runs(s, t)
    ensures Inv(Exec(s, t))
    decreases |t|
  {
    if t != [] {
      StepKeeps(s, t[0]);
      RunKeeps(Apply(s, t[0]), t[1..]);
    }
  }

  /** A guard's `entry` never changes once it is in. */
  lemma {:induction false} EntryKept(s: State, t: seq<Action>, g: Id)
    requires Runs(s, t) && g in s.guards
    ensures g in Exec(s, t).guards && Exec(s, t).guards[g].entry == s.guards[g].entry
    decreases |t|
  {
    if t != [] {
      EntryKept(Apply(s, t[0]), t[1..], g);
    }
  }

  // ---- What the protocol guarantees ----------------------------------------------------

  /** No lost wake-up. Once the descriptor is retired, its `cancelFd` has run and every
      `await_suspend` has finished, no waiter is left registered on it. */
  lemma NoLostWakeup(own: int, t: seq<Action>)
    requires own >= 0 && Runs(Init(own), t)
    ensures var s := Exec(Init(own), t);
      s.fd != s.own
      && (forall c :: c in s.closers ==> !s.closers[c].Exchanged?)
      && (forall w :: w in s.waiters ==> s.waiters[w].pc.Finished?)
      ==> s.parked == {}
  {
    InitInv(own);
    RunKeeps(Init(own), t);
    var s := Exec(Init(own), t);
    var p :| InvAt(s, p);
  }

  /** `cancelFd` never reaches a recycled number: when a closer is about to call it, or a
      sheltered waiter, the descriptor is still open. */
  lemma CancelBeforeClose(own: int, t: seq<Action>)
    requires own >= 0 && Runs(Init(own), t)
    ensures var s := Exec(Init(own), t);
      && (forall c :: CloserAt(s.closers, c, Exchanged) ==> s.closes == 0)
      && (forall w :: WaiterAt(s.waiters, w, Cancelling) && s.waiters[w].sheltered ==> s.closes == 0)
  {
    InitInv(own);
    RunKeeps(Init(own), t);
    var s := Exec(Init(own), t);
    var p :| InvAt(s, p);
    forall c | CloserAt(s.closers, c, Exchanged) ensures s.closes == 0 {
      assert CloserOk(c, s.closers[c], p);
    }
    forall w | WaiterAt(s.waiters, w, Cancelling) && s.waiters[w].sheltered ensures s.closes == 0 {
      assert WaiterOk(w, s.waiters[w], s.guards, p, Finishing(s.closers) != {});
    }
  }

  /** Guard `g` never holds the descriptor after it was closed. */
  predicate Pinned(s: State, g: Id) {
    At(s.guards, g, Holding) ==> s.closes == 0
  }

  ghost predicate AlwaysPinned(s: State, g: Id) {
    forall t :: Runs(s, t) ==> Pinned(Exec(s, t), g)
  }

  /** The header promises that a guard's descriptor is not closed in its lifetime. That holds,
      for a guard taken in reachable state `s`, exactly when the slot is already retired or no
      leaver stands between its decrement to zero and its exchange of `pending`. */
  lemma PinnedExactlyWhenNotRaced(own: int, t: seq<Action>, g: Id)
    requires own >= 0 && Runs(Init(own), t) && Enabled(Exec(Init(own), t), Enter(g))
    ensures var s := Exec(Init(own), t);
      AlwaysPinned(Apply(s, Enter(g)), g) <==> s.fd != s.own || Windows(s.guards) == {}
  {
    InitInv(own);
    RunKeeps(Init(own), t);
    var s := Exec(Init(own), t);
    var s' := Apply(s, Enter(g));
    if s.fd != s.own || Windows(s.guards) == {} {
      StepKeeps(s, Enter(g));
      forall u | Runs(s', u) ensures Pinned(Exec(s', u), g) {
        NotRacedPinned(s', g, u);
      }
    } else {
      var r := SomeWindow(s.guards);
      var c := FreshCloser(s.closers.Keys);
      var u := RacedRun(s, g, r, c);
      assert !Pinned(Exec(s', u), g);
    }
  }

  lemma NotRacedPinned(s: State, g: Id, u: seq<Action>)
    requires Inv(s) && g in s.guards && !s.guards[g].entry.Raced? && Runs(s, u)
    ensures Pinned(Exec(s, u), g)
  {
    RunKeeps(s, u);
    EntryKept(s, u, g);
    var z := Exec(s, u);
    var p :| InvAt(z, p);
    assert GuardOk(g, z.guards[g], p, Windows(z.guards) != {}, Finishing(z.closers) != {});
  }

  lemma SomeWindow(gs: map<Id, Guard>) returns (r: Id)
    requires Windows(gs) != {}
    ensures At(gs, r, Window)
  {
    var ws := Windows(gs);
    r :| r in ws;
  }

  lemma {:induction false} FreshCloser(ids: set<Id>) returns (c: Id)
    ensures c !in ids
    ensures forall i :: i in ids ==> i < c
  {
    if ids == {} {
      c := 0;
    } else {
      var i :| i in ids;
      var d := FreshCloser(ids - {i});
      c := if d > i then d else i + 1;
      assert forall j :: j in ids ==> j == i || j in ids - {i};
    }
  }

  lemma RunCons(s: State, a: Action, t: seq<Action>)
    requires Enabled(s, a) && Runs(Apply(s, a), t)
    ensures Runs(s, [a] + t) && Exec(s, [a] + t) == Exec(Apply(s, a), t)
  {
  }

  /** Its second half: a closer about to park the descriptor while `g` holds it and `r` stands in
      its window. */
  lemma RacedTail(s: State, g: Id, r: Id, c: Id) returns (u: seq<Action>)
    requires CloserAt(s.closers, c, Cancelled) && At(s.guards, g, Holding) && At(s.guards, r, Window)
    requires s.own >= 0 && s.inflight > 0 && s.closes == 0
    ensures Runs(s, u) && At(Exec(s, u).guards, g, Holding) && Exec(s, u).closes == 1
  {
    var s1 := Apply(s, CloserStore(c));
    var s2 := Apply(s1, CloserLoad(c));
    var s3 := Apply(s2, Take(r));
    u := [Dispose(r)];
    RunCons(s3, Dispose(r), []);
    RunCons(s2, Take(r), u);
    u := [Take(r)] + u;
    RunCons(s1, CloserLoad(c), u);
    u := [CloserLoad(c)] + u;
    RunCons(s, CloserStore(c), u);
    u := [CloserStore(c)] + u;
  }

  /** The failing schedule: leaver `r` has dropped the count to zero; guard `g` enters and loads
      the descriptor; a `close()` parks it, sees the count at one and returns; `r` then takes it
      from `pending` and closes it under `g`. */
  lemma RacedRun(s: State, g: Id, r: Id, c: Id) returns (u: seq<Action>)
    requires Inv(s) && g !in s.guards && At(s.guards, r, Window) && c !in s.closers && s.fd == s.own
    ensures var s' := Apply(s, Enter(g));
      Runs(s', u) && At(Exec(s', u).guards, g, Holding) && Exec(s', u).closes == 1
  {
    var p :| InvAt(s, p);
    assert s.own >= 0 && s.inflight >= 0 && s.closes == 0;
    hide Inv, InvAt, Runs, Exec;
    var s0 := Apply(s, Enter(g));
    var s1 := Apply(s0, Load(g));
    var s2 := Apply(s1, CloserExchange(c));
    var s3 := Apply(s2, CloserCancel(c));
    u := RacedTail(s3, g, r, c);
    RunCons(s2, CloserCancel(c), u);
    u := [CloserCancel(c)] + u;
    RunCons(s1, CloserExchange(c), u);
    u := [CloserExchange(c)] + u;
    RunCons(s0, Load(g), u);
    u := [Load(g)] + u;
  }

  /** No guard is counted in while a leaver stands in its window. */
  predicate WindowFree(s: State, t: seq<Action>)
    requires Runs(s, t)
    decreases |t|
  {
    t == [] || ((t[0].Enter? || t[0].Suspend? ==> Windows(s.guards) == {}) && WindowFree(Apply(s, t[0]), t[1..]))
  }

  /** So in every run that takes no guard inside such a window, nobody ever holds a closed
      descriptor and nobody ever cancels a recycled one. */
  lemma WindowFreeRunsArePinned(own: int, t: seq<Action>)
    requires own >= 0 && Runs(Init(own), t) && WindowFree(Init(own), t)
    ensures var s := Exec(Init(own), t);
      && (forall g :: Pinned(s, g))
      && (forall w :: WaiterAt(s.waiters, w, Cancelling) ==> s.closes == 0)
  {
    InitInv(own);
    AllClean(Init(own), t);
    CancelBeforeClose(own, t);
    var s := Exec(Init(own), t);
    RunKeeps(Init(own), t);
    forall g ensures Pinned(s, g) {
      if g in s.guards { NotRacedPinned(s, g, []); }
    }
  }

  ghost predicate CleanOnly(s: State) {
    && (forall g :: g in s.guards ==> s.guards[g].entry.Clean?)
    && (forall w :: w in s.waiters ==> s.waiters[w].sheltered)
  }

  lemma CleanStep(s: State, a: Action)
    requires Inv(s) && Enabled(s, a) && CleanOnly(s) && (a.Enter? || a.Suspend? ==> Windows(s.guards) == {})
    ensures CleanOnly(Apply(s, a))
  {
    var p :| InvAt(s, p);
    if a.Suspend? {
      assert GuardOk(a.outer, s.guards[a.outer], p, Windows(s.guards) != {}, Finishing(s.closers) != {});
      forall g | g in s.guards ensures !s.guards[g].pc.Disposing? {
        assert GuardOk(g, s.guards[g], p, Windows(s.guards) != {}, Finishing(s.closers) != {});
      }
    }
    hide InvAt, Inv;
  }

  lemma {:induction false} AllClean(s: State, t: seq<Action>)
    requires Inv(s) && Runs(s, t) && WindowFree(s, t) && CleanOnly(s)
    ensures CleanOnly(Exec(s, t))
    decreases |t|
  {
    if t != [] {
      StepKeeps(s, t[0]);
      CleanStep(s, t[0]);
      AllClean(Apply(s, t[0]), t[1..]);
    }
  }
}
