/** Every run of the deadlines of Soccer/includes/IoDeadline.h: `IoDeadline` instances being
    armed, disarmed and moved, and the one sweeper coroutine, interleaved step by step. A step is
    one critical section or one atomic access; a guard's own mutex is held across a firing. */
module DeadlineRuns {
  import opened Wrappers

  type Id = nat

  /** A deadline. `raw` is one armed on a bare descriptor, the others watch a stream's slot.
      `shuts` counts the `shutdown` calls made for it; `failed` says arming it threw, `lost` that
      a pass found its stream gone or its slot no longer owning the descriptor. */
  datatype Guard = Guard(due: int, raw: bool, over: bool, fired: bool, shuts: nat, failed: bool, lost: bool)

  /** An `IoDeadline`. `owned` is every deadline it ever armed or took over by a move; `leaving`
      is the middle of `disarm`, after `over` was set. */
  datatype Inst = Inst(guard: Option<Id>, before: bool, owned: set<Id>, leaving: bool)

  /** `todo` are the entries a pass has not visited. During `Firing` the guard's mutex is held. */
  datatype Sweep =
    | Resting
    | Sweeping(now: int, todo: set<Id>)
    | Firing(now: int, todo: set<Id>, g: Id)

  /** Each guard has one entry, so `entries` names them by guard. `spawning` are the `add` calls
      about to start the sweeper, `sweepers` the sweeper coroutines alive. */
  datatype State = State(
    guards: map<Id, Guard>,
    insts: map<Id, Inst>,
    entries: set<Id>,
    sweep: Sweep,
    clock: int,
    running: bool,
    spawning: set<Id>,
    sweepers: nat)

  datatype Action =
    | Create(i: Id)
    | Destroy(i: Id)
    | Arm(i: Id, g: Id, due: int, raw: bool)
    | SpawnOk(g: Id)
    | SpawnFail(i: Id, g: Id)
    | DisarmOver(i: Id)
    | DisarmFold(i: Id)
    | MoveTo(i: Id, j: Id)
    | SweepBegin(now: int)
    | Visit(g: Id, gone: bool, owns: bool)
    | FireEnd
    | SweepEnd

  function Init(clock: int): State {
    State(map[], map[], {}, Resting, clock, false, {}, 0)
  }

  /** The instance is inside `arm`, waiting for the sweeper to be started. */
  predicate Busy(s: State, i: Id) {
    i in s.insts && s.insts[i].guard.Some? && s.insts[i].guard.value in s.spawning
  }

  /** The instance exists and is not in the middle of a call. */
  predicate Idle(s: State, i: Id) {
    i in s.insts && !s.insts[i].leaving && !Busy(s, i)
  }

  predicate MidFire(s: State, g: Id) {
    s.sweep.Firing? && s.sweep.g == g
  }

  /** What the code allows next. Arming and a move's target start from a disarmed instance: both
      run `disarm` first. */
  predicate Enabled(s: State, a: Action) {
    match a
    case Create(i) => i !in s.insts
    case Destroy(i) => Idle(s, i) && s.insts[i].guard.None?
    case Arm(i, g, _, _) => Idle(s, i) && s.insts[i].guard.None? && g !in s.guards && s.sweep.Resting?
    case SpawnOk(g) => g in s.spawning
    case SpawnFail(i, g) =>
      g in s.spawning && g in s.guards && i in s.insts && s.insts[i].guard == Some(g) && s.sweep.Resting?
    case DisarmOver(i) =>
      Idle(s, i) && s.insts[i].guard.Some? && s.insts[i].guard.value in s.guards
      && !MidFire(s, s.insts[i].guard.value)
    case DisarmFold(i) =>
      i in s.insts && s.insts[i].leaving && s.insts[i].guard.Some? && s.insts[i].guard.value in s.guards
    case MoveTo(i, j) => i != j && Idle(s, i) && Idle(s, j) && s.insts[i].guard.None?
    case SweepBegin(now) => s.sweepers > 0 && s.sweep.Resting? && s.clock <= now
    case Visit(g, _, _) => s.sweep.Sweeping? && g in s.sweep.todo && g in s.guards
    case FireEnd => s.sweep.Firing? && s.sweep.g in s.guards
    case SweepEnd => s.sweep.Sweeping? && s.sweep.todo == {} && s.sweepers > 0
  }

  /** One entry of a pass, in the order of the code's tests. */
  function Visited(s: State, g: Id, gone: bool, owns: bool): State
    requires Enabled(s, Visit(g, gone, owns))
  {
    var d := s.guards[g];
    var todo := s.sweep.todo - {g};
    var dropped := s.(entries := s.entries - {g}, sweep := Sweeping(s.sweep.now, todo));
    var lost := dropped.(guards := s.guards[g := d.(lost := true)]);
    if d.over then dropped
    else if !d.raw && gone then lost
    else if d.due <= s.sweep.now then
      if d.raw then
        dropped.(guards := s.guards[g := d.(fired := true)], sweep := Firing(s.sweep.now, todo, g))
      else if owns then
        dropped.(guards := s.guards[g := d.(shuts := d.shuts + 1)], sweep := Firing(s.sweep.now, todo, g))
      else lost
    else s.(sweep := Sweeping(s.sweep.now, todo))
  }

  function Fired(s: State): State
    requires Enabled(s, FireEnd)
  {
    var d := s.guards[s.sweep.g];
    s.(guards := s.guards[s.sweep.g := if d.raw then d.(shuts := d.shuts + 1) else d.(fired := true)],
       sweep := Sweeping(s.sweep.now, s.sweep.todo))
  }

  function Apply(s: State, a: Action): State
    requires Enabled(s, a)
  {
    match a
    case Create(i) => s.(insts := s.insts[i := Inst(None, false, {}, false)])
    case Destroy(i) => s.(insts := s.insts - {i})
    case Arm(i, g, due, raw) =>
      s.(guards := s.guards[g := Guard(due, raw, false, false, 0, false, false)],
         insts := s.insts[i := s.insts[i].(guard := Some(g), owned := s.insts[i].owned + {g})],
         entries := s.entries + {g},
         running := true,
         spawning := if s.running then s.spawning else s.spawning + {g})
    case SpawnOk(g) => s.(spawning := s.spawning - {g}, sweepers := s.sweepers + 1)
    case SpawnFail(i, g) =>
      s.(guards := s.guards[g := s.guards[g].(failed := true)],
         insts := s.insts[i := s.insts[i].(guard := None)],
         entries := s.entries - {g},
         running := false,
         spawning := s.spawning - {g})
    case DisarmOver(i) =>
      var g := s.insts[i].guard.value;
      s.(guards := s.guards[g := s.guards[g].(over := true)],
         insts := s.insts[i := s.insts[i].(leaving := true)])
    case DisarmFold(i) =>
      var x := s.insts[i];
      s.(insts := s.insts[i := x.(guard := None, leaving := false,
                                  before := x.before || s.guards[x.guard.value].fired)])
    case MoveTo(i, j) =>
      var x, y := s.insts[i], s.insts[j];
      s.(insts := s.insts[i := Inst(y.guard, x.before || y.before, x.owned + y.owned, false)]
                         [j := Inst(None, false, {}, false)])
    case SweepBegin(now) => s.(sweep := Sweeping(now, s.entries), clock := now)
    case Visit(g, gone, owns) => Visited(s, g, gone, owns)
    case FireEnd => Fired(s)
    case SweepEnd =>
      if s.entries == {} then s.(sweep := Resting, running := false, sweepers := s.sweepers - 1)
      else s.(sweep := Resting)
  }

  /** The whole visit of one entry, its firing included, with nothing else around. */
  function VisitOne(d: Guard, now: int, gone: bool, owns: bool): State {
    var s := State(map[0 := d], map[], {0}, Sweeping(now, {0}), now, true, {}, 1);
    var t := Visited(s, 0, gone, owns);
    if t.sweep.Firing? then Fired(t) else t
  }

  /** Among others a visit does the same, and nothing to them. */
  lemma VisitIsLocal(s: State, g: Id, gone: bool, owns: bool)
    requires Enabled(s, Visit(g, gone, owns)) && g in s.entries
    ensures var t := Apply(s, Visit(g, gone, owns));
      var one := VisitOne(s.guards[g], s.sweep.now, gone, owns);
      (if t.sweep.Firing? then Apply(t, FireEnd) else t) ==
        s.(guards := s.guards[g := one.guards[0]],
           entries := if 0 in one.entries then s.entries else s.entries - {g},
           sweep := Sweeping(s.sweep.now, s.sweep.todo - {g}))
  {
    assert s.guards[g := s.guards[g]] == s.guards;
  }

  predicate Runs(s: State, tr: seq<Action>)
    decreases |tr|
  {
    tr == [] || (Enabled(s, tr[0]) && Runs(Apply(s, tr[0]), tr[1..]))
  }

  function Exec(s: State, tr: seq<Action>): State
    requires Runs(s, tr)
    decreases |tr|
  {
    if tr == [] then s else Exec(Apply(s, tr[0]), tr[1..])
  }

  // ---- The invariant ----

  predicate GuardOk(s: State, g: Id, d: Guard) {
    && (g in s.entries ==> !d.fired && d.shuts == 0 && !d.failed)
    && (MidFire(s, g) ==>
          g !in s.entries && !d.over && !d.failed && !d.lost && d.fired == d.raw && d.shuts == (if d.raw then 0 else 1))
    && (!MidFire(s, g) ==> d.shuts == if d.fired then 1 else 0)
    && (d.fired || d.shuts > 0 ==> d.due <= s.clock)
    && (g !in s.entries && !MidFire(s, g) ==> d.over || d.fired || d.failed || d.lost)
    && (d.lost ==> !d.raw && !d.fired && d.shuts == 0 && g !in s.entries)
    && (d.failed ==> !d.fired)
    && (g in s.spawning ==> g in s.entries && !d.over)
    && (!s.sweep.Resting? && g in s.entries && g !in s.sweep.todo ==> s.sweep.now < d.due)
  }

  ghost predicate Guards(s: State) {
    && (forall g <- s.guards :: GuardOk(s, g, s.guards[g]))
    && (forall g <- s.entries :: g in s.guards)
    && (forall g <- s.spawning :: g in s.guards)
  }

  predicate SweepOk(s: State) {
    && |s.spawning| + s.sweepers == (if s.running then 1 else 0)
    && (!s.sweep.Resting? ==> s.sweepers > 0 && s.sweep.todo <= s.entries && s.sweep.now <= s.clock)
    && (s.sweep.Firing? ==> s.sweep.g in s.guards && s.guards[s.sweep.g].due <= s.sweep.now)
  }

  /** Settled for good: neither the owner nor the sweeper will change it again. */
  predicate Settled(s: State, g: Id) {
    g in s.guards && !MidFire(s, g) && (s.guards[g].over || s.guards[g].failed)
  }

  ghost predicate SomeFired(s: State, gs: set<Id>) {
    exists g :: g in gs && g in s.guards && s.guards[g].fired
  }

  ghost predicate InstOk(s: State, x: Inst) {
    && (x.guard.Some? ==> x.guard.value in s.guards && x.guard.value in x.owned
                          && !s.guards[x.guard.value].failed
                          && s.guards[x.guard.value].over == x.leaving)
    && (x.leaving ==> x.guard.Some?)
    && (forall g :: g in x.owned && x.guard != Some(g) ==> Settled(s, g))
    && (x.before <==> SomeFired(s, x.owned - Current(x)))
  }

  function Current(x: Inst): set<Id> {
    if x.guard.Some? then {x.guard.value} else {}
  }

  ghost predicate Insts(s: State) {
    && (forall i <- s.insts :: InstOk(s, s.insts[i]))
    && (forall i, j :: i in s.insts && j in s.insts && i != j && s.insts[i].guard.Some? ==>
          s.insts[i].guard != s.insts[j].guard)
  }

  ghost predicate Inv(s: State) {
    Guards(s) && SweepOk(s) && Insts(s)
  }

  lemma OwnerGuardStep(s: State, a: Action, g: Id)
    requires Guards(s) && SweepOk(s) && Enabled(s, a) && g in Apply(s, a).guards
    requires !a.SweepBegin? && !a.Visit? && !a.FireEnd? && !a.SweepEnd?
    ensures GuardOk(Apply(s, a), g, Apply(s, a).guards[g])
  {
    if s.sweepers > 0 { assert s.spawning == {}; }
    if g in s.guards { assert GuardOk(s, g, s.guards[g]); }
  }

  lemma SweeperGuardStep(s: State, a: Action, g: Id)
    requires Guards(s) && SweepOk(s) && Enabled(s, a) && g in Apply(s, a).guards
    requires a.SweepBegin? || a.Visit? || a.FireEnd? || a.SweepEnd?
    ensures GuardOk(Apply(s, a), g, Apply(s, a).guards[g])
  {
    assert s.spawning == {};
    assert GuardOk(s, g, s.guards[g]);
  }

  lemma GuardStep(s: State, a: Action, g: Id)
    requires Guards(s) && SweepOk(s) && Enabled(s, a) && g in Apply(s, a).guards
    ensures GuardOk(Apply(s, a), g, Apply(s, a).guards[g])
  {
    hide Guards, SweepOk, Apply, Enabled, GuardOk;
    if a.SweepBegin? || a.Visit? || a.FireEnd? || a.SweepEnd? {
      SweeperGuardStep(s, a, g);
    } else {
      OwnerGuardStep(s, a, g);
    }
  }

  lemma GuardsStep(s: State, a: Action)
    requires Guards(s) && SweepOk(s) && Enabled(s, a)
    ensures Guards(Apply(s, a))
  {
    forall g | g in Apply(s, a).guards ensures GuardOk(Apply(s, a), g, Apply(s, a).guards[g]) {
      GuardStep(s, a, g);
    }
    hide GuardOk;
  }

  lemma SweepStep(s: State, a: Action)
    requires Guards(s) && SweepOk(s) && Enabled(s, a)
    ensures SweepOk(Apply(s, a))
  {
  }

  /** The deadline whose record a step writes. */
  function Written(s: State, a: Action): Option<Id>
    requires Enabled(s, a)
  {
    match a
    case Arm(_, g, _, _) => Some(g)
    case SpawnFail(_, g) => Some(g)
    case DisarmOver(i) => s.insts[i].guard
    case Visit(g, _, _) => if s.guards[g].over then None else Some(g)
    case FireEnd => Some(s.sweep.g)
    case _ => None
  }

  lemma WrittenStep(s: State, a: Action, g: Id)
    requires Enabled(s, a) && Written(s, a) != Some(g) && g in s.guards && !MidFire(s, g)
    ensures g in Apply(s, a).guards && Apply(s, a).guards[g] == s.guards[g] && !MidFire(Apply(s, a), g)
  {
  }

  lemma WrittenOpen(s: State, a: Action)
    requires Inv(s) && Enabled(s, a) && Written(s, a).Some?
    ensures !Settled(s, Written(s, a).value)
  {
  }

  /** A settled deadline stays settled and nothing about it changes. */
  lemma SettledStep(s: State, a: Action, g: Id)
    requires Inv(s) && Enabled(s, a) && Settled(s, g)
    ensures Settled(Apply(s, a), g) && Apply(s, a).guards[g] == s.guards[g]
  {
    hide Inv, Apply, Enabled;
    if Written(s, a).Some? { WrittenOpen(s, a); }
    WrittenStep(s, a, g);
  }

  /** What a step must leave alone for an instance it does not touch. */
  ghost predicate Undisturbed(s: State, t: State, x: Inst) {
    && (forall g :: Settled(s, g) ==> Settled(t, g) && t.guards[g] == s.guards[g])
    && (x.guard.Some? && x.guard.value in s.guards ==>
          var g := x.guard.value;
          g in t.guards && t.guards[g].over == s.guards[g].over && t.guards[g].failed == s.guards[g].failed)
  }

  lemma InstKept(s: State, t: State, x: Inst)
    requires InstOk(s, x) && Undisturbed(s, t, x)
    ensures InstOk(t, x)
  {
  }

  /** Everything but the instances a step names is undisturbed. */
  predicate Touches(s: State, a: Action, i: Id) {
    match a
    case Create(j) => i == j
    case Arm(j, _, _, _) => i == j
    case SpawnFail(j, _) => i == j
    case DisarmOver(j) => i == j
    case DisarmFold(j) => i == j
    case MoveTo(j, k) => i == j || i == k
    case _ => false
  }

  lemma InstsSame(s: State, a: Action, i: Id)
    requires Enabled(s, a) && i in Apply(s, a).insts && !Touches(s, a, i)
    ensures i in s.insts && Apply(s, a).insts[i] == s.insts[i]
  {
  }

  /** A step sets `over` or `failed` only on the deadline of the instance it touches. */
  lemma FlagsStep(s: State, a: Action, i: Id)
    requires Insts(s) && Enabled(s, a) && i in s.insts && !Touches(s, a, i) && s.insts[i].guard.Some?
    ensures var g := s.insts[i].guard.value;
            g in s.guards && g in Apply(s, a).guards
            && Apply(s, a).guards[g].over == s.guards[g].over
            && Apply(s, a).guards[g].failed == s.guards[g].failed
  {
    hide SomeFired;
    assert InstOk(s, s.insts[i]);
  }

  lemma OthersStep(s: State, a: Action, i: Id)
    requires Inv(s) && Enabled(s, a) && i in Apply(s, a).insts && !Touches(s, a, i)
    ensures i in s.insts && Apply(s, a).insts[i] == s.insts[i] && InstOk(Apply(s, a), s.insts[i])
  {
    InstsSame(s, a, i);
    hide Apply, Enabled, SomeFired;
    forall g | Settled(s, g) ensures Settled(Apply(s, a), g) && Apply(s, a).guards[g] == s.guards[g] {
      SettledStep(s, a, g);
    }
    if s.insts[i].guard.Some? { FlagsStep(s, a, i); }
    assert InstOk(s, s.insts[i]);
    assert Undisturbed(s, Apply(s, a), s.insts[i]);
    InstKept(s, Apply(s, a), s.insts[i]);
  }

  /** The deadlines an instance is done with stay as they are across a step. */
  lemma PastStep(s: State, a: Action, x: Inst)
    requires Inv(s) && Enabled(s, a) && InstOk(s, x)
    ensures forall g :: g in x.owned && x.guard != Some(g) ==>
      Settled(s, g) && Settled(Apply(s, a), g) && Apply(s, a).guards[g] == s.guards[g]
    ensures x.before <==> SomeFired(Apply(s, a), x.owned - Current(x))
  {
    hide Apply, Enabled;
    forall g | g in x.owned && x.guard != Some(g)
      ensures Settled(s, g) && Settled(Apply(s, a), g) && Apply(s, a).guards[g] == s.guards[g]
    {
      SettledStep(s, a, g);
    }
    var past := x.owned - Current(x);
    hide Settled;
    if x.before {
      var g :| g in past && g in s.guards && s.guards[g].fired;
      assert g in Apply(s, a).guards && Apply(s, a).guards[g].fired;
    }
  }

  lemma ArmedOk(t: State, x: Inst, g: Id)
    requires x.guard.None? && !x.leaving && g !in x.owned
    requires forall h :: h in x.owned ==> Settled(t, h)
    requires x.before <==> SomeFired(t, x.owned)
    requires g in t.guards && !t.guards[g].failed && !t.guards[g].over
    ensures InstOk(t, x.(guard := Some(g), owned := x.owned + {g}))
  {
    hide Settled, SomeFired;
    assert x.owned + {g} - {g} == x.owned;
  }

  lemma ArmedInst(s: State, a: Action)
    requires Inv(s) && a.Arm? && Enabled(s, a)
    ensures InstOk(Apply(s, a), Apply(s, a).insts[a.i])
  {
    var x := s.insts[a.i];
    assert InstOk(s, x);
    PastStep(s, a, x);
    hide SomeFired, Inv, Insts, Guards, SweepOk, InstOk;
    assert x.owned - Current(x) == x.owned;
    ArmedOk(Apply(s, a), x, a.g);
  }

  lemma FailedInst(s: State, a: Action)
    requires Inv(s) && a.SpawnFail? && Enabled(s, a)
    ensures InstOk(Apply(s, a), Apply(s, a).insts[a.i])
  {
  }

  lemma LeavingInst(s: State, a: Action)
    requires Inv(s) && a.DisarmOver? && Enabled(s, a)
    ensures InstOk(Apply(s, a), Apply(s, a).insts[a.i])
  {
  }

  lemma FoldedInst(s: State, a: Action)
    requires Inv(s) && a.DisarmFold? && Enabled(s, a)
    ensures InstOk(Apply(s, a), Apply(s, a).insts[a.i])
  {
  }

  lemma MovedInst(s: State, a: Action)
    requires Inv(s) && a.MoveTo? && Enabled(s, a)
    ensures InstOk(Apply(s, a), Apply(s, a).insts[a.i]) && InstOk(Apply(s, a), Apply(s, a).insts[a.j])
  {
  }

  lemma TouchedStep(s: State, a: Action, i: Id)
    requires Inv(s) && Enabled(s, a) && Touches(s, a, i)
    ensures i in Apply(s, a).insts && InstOk(Apply(s, a), Apply(s, a).insts[i])
  {
    hide Inv;
    match a
    case Create(_) =>
    case Arm(_, _, _, _) => ArmedInst(s, a);
    case SpawnFail(_, _) => FailedInst(s, a);
    case DisarmOver(_) => LeavingInst(s, a);
    case DisarmFold(_) => FoldedInst(s, a);
    case MoveTo(_, _) => MovedInst(s, a);
  }

  /** No two instances hold the same deadline. */
  lemma ApartStep(s: State, a: Action, i: Id, j: Id)
    requires Insts(s) && Enabled(s, a) && i != j
    requires i in Apply(s, a).insts && j in Apply(s, a).insts && Apply(s, a).insts[i].guard.Some?
    ensures Apply(s, a).insts[i].guard != Apply(s, a).insts[j].guard
  {
    if i in s.insts { assert InstOk(s, s.insts[i]); }
    if j in s.insts { assert InstOk(s, s.insts[j]); }
    hide InstOk;
  }

  lemma InstsStep(s: State, a: Action)
    requires Inv(s) && Enabled(s, a)
    ensures Insts(Apply(s, a))
  {
    var t := Apply(s, a);
    hide Apply, Enabled, InstOk, Touches;
    forall i | i in t.insts ensures InstOk(t, t.insts[i]) {
      if Touches(s, a, i) { TouchedStep(s, a, i); } else { OthersStep(s, a, i); }
    }
    forall i, j | i in t.insts && j in t.insts && i != j && t.insts[i].guard.Some?
      ensures t.insts[i].guard != t.insts[j].guard
    {
      ApartStep(s, a, i, j);
    }
  }

  lemma StepKeeps(s: State, a: Action)
    requires Inv(s) && Enabled(s, a)
    ensures Inv(Apply(s, a))
  {
    hide Guards, SweepOk, Insts, Apply, Enabled;
    GuardsStep(s, a);
    SweepStep(s, a);
    InstsStep(s, a);
  }

  lemma {:induction false} RunKeeps(s: State, tr: seq<Action>)
    requires Inv(s) && Runs(s, tr)
    ensures Inv(Exec(s, tr))
    decreases |tr|
  {
    hide Inv, Apply, Enabled;
    if tr != [] {
      StepKeeps(s, tr[0]);
      RunKeeps(Apply(s, tr[0]), tr[1..]);
    }
  }

  lemma Reached(clock: int, tr: seq<Action>)
    requires Runs(Init(clock), tr)
    ensures Inv(Exec(Init(clock), tr))
  {
    RunKeeps(Init(clock), tr);
  }

  // ---- What holds of every run ----

  /** A sweeper is never stuck: it can begin a pass, visit what the pass has left, finish a firing
      and end the pass. */
  lemma SweepGoesOn(clock: int, tr: seq<Action>, gone: bool, owns: bool)
    requires Runs(Init(clock), tr) && Exec(Init(clock), tr).sweepers > 0
    ensures var s := Exec(Init(clock), tr);
      match s.sweep
      case Resting => Enabled(s, SweepBegin(s.clock))
      case Sweeping(_, todo) =>
        (todo == {} ==> Enabled(s, SweepEnd)) && forall g <- todo :: Enabled(s, Visit(g, gone, owns))
      case Firing(_, _, _) => Enabled(s, FireEnd)
  {
    hide Exec, Runs, Insts;
    Reached(clock, tr);
  }

  /** An owner between calls can disarm exactly if its deadline is not being fired, and then is rid
      of it. */
  lemma OwnerCanDisarm(clock: int, tr: seq<Action>, i: Id)
    requires Runs(Init(clock), tr)
    requires var s := Exec(Init(clock), tr); Idle(s, i) && s.insts[i].guard.Some?
    ensures var s := Exec(Init(clock), tr);
      var g := s.insts[i].guard.value;
      && (Enabled(s, DisarmOver(i)) <==> !(s.sweep.Firing? && s.sweep.g == g))
      && (Enabled(s, DisarmOver(i)) ==>
            var u := Apply(s, DisarmOver(i));
            && g in u.guards && u.guards[g].over && Enabled(u, DisarmFold(i))
            && Apply(u, DisarmFold(i)).insts[i].guard == None)
  {
    hide Exec, Runs, Guards, SweepOk;
    Reached(clock, tr);
    var s := Exec(Init(clock), tr);
    assert InstOk(s, s.insts[i]);
  }

  lemma {:induction false} SettledRun(s: State, tr: seq<Action>, g: Id)
    requires Inv(s) && Runs(s, tr) && Settled(s, g)
    ensures g in Exec(s, tr).guards && Exec(s, tr).guards[g] == s.guards[g]
    decreases |tr|
  {
    hide Inv, Apply, Enabled;
    if tr != [] {
      StepKeeps(s, tr[0]);
      SettledStep(s, tr[0], g);
      SettledRun(Apply(s, tr[0]), tr[1..], g);
    }
  }

  /** Once a deadline is disarmed, no later step shuts its descriptor down or marks it fired. */
  lemma DisarmIsFinal(clock: int, before: seq<Action>, after: seq<Action>, g: Id)
    requires Runs(Init(clock), before) && Runs(Exec(Init(clock), before), after)
    requires g in Exec(Init(clock), before).guards && Exec(Init(clock), before).guards[g].over
    ensures g in Exec(Exec(Init(clock), before), after).guards
    ensures Exec(Exec(Init(clock), before), after).guards[g] == Exec(Init(clock), before).guards[g]
  {
    var s := Exec(Init(clock), before);
    Reached(clock, before);
    assert GuardOk(s, g, s.guards[g]);
    hide Inv, Exec, Runs;
    SettledRun(s, after, g);
  }

  /** A deadline makes at most one `shutdown` call, never before its time, never when arming it
      threw. Its `fired` flag says whether it made the call exactly if it is not in the middle of
      firing: on a bare descriptor the flag is set before the call, through a stream after it. So
      the flag is never late exactly on a bare descriptor or outside a firing, and never early
      exactly through a stream or outside a firing. */
  lemma FiresAtMostOnce(clock: int, tr: seq<Action>, g: Id)
    requires Runs(Init(clock), tr) && g in Exec(Init(clock), tr).guards
    ensures var s := Exec(Init(clock), tr); var d := s.guards[g];
            && d.shuts <= 1
            && (d.shuts == 1 || d.fired ==> d.due <= s.clock && !d.failed && g !in s.entries)
            && ((d.fired <==> d.shuts == 1) <==> !MidFire(s, g))
            && ((d.shuts == 1 ==> d.fired) <==> d.raw || !MidFire(s, g))
            && ((d.fired ==> d.shuts == 1) <==> !d.raw || !MidFire(s, g))
  {
    Reached(clock, tr);
    var s := Exec(Init(clock), tr);
    assert GuardOk(s, g, s.guards[g]);
  }

  /** When a pass ends, every deadline that was due has shut its socket down, unless it was
      disarmed, arming it threw, or its stream had let go of the socket; no deadline that was due
      stays listed, and one on a bare descriptor is never lost. */
  lemma PassFiresAllDue(clock: int, tr: seq<Action>, g: Id)
    requires Runs(Init(clock), tr) && Enabled(Exec(Init(clock), tr), SweepEnd)
    requires g in Exec(Init(clock), tr).guards
    requires Exec(Init(clock), tr).guards[g].due <= Exec(Init(clock), tr).sweep.now
    ensures var s := Exec(Init(clock), tr); var d := s.guards[g];
            && g !in s.entries && (d.over || d.failed || d.lost || (d.fired && d.shuts == 1))
            && (d.lost ==> !d.raw && d.shuts == 0)
  {
    Reached(clock, tr);
    var s := Exec(Init(clock), tr);
    assert GuardOk(s, g, s.guards[g]);
  }

  /** There is never more than one sweeper, counting one about to be started, and `running`
      says whether there is one. */
  lemma OneSweeper(clock: int, tr: seq<Action>)
    requires Runs(Init(clock), tr)
    ensures var s := Exec(Init(clock), tr); |s.spawning| + s.sweepers == if s.running then 1 else 0
  {
    Reached(clock, tr);
  }

  // ---- expired ----

  predicate Expired(s: State, i: Id)
    requires i in s.insts
  {
    s.insts[i].before
    || (s.insts[i].guard.Some? && s.insts[i].guard.value in s.guards && s.guards[s.insts[i].guard.value].fired)
  }

  /** One of the deadlines has shut its socket down. */
  ghost predicate SomeShut(s: State, gs: set<Id>) {
    exists g :: g in gs && g in s.guards && s.guards[g].shuts == 1
  }

  /** One of the deadlines that is in the middle of firing, and is on a bare descriptor or not. */
  ghost predicate FiringNow(s: State, gs: set<Id>, raw: bool) {
    exists g :: g in gs && g in s.guards && MidFire(s, g) && s.guards[g].raw == raw
  }

  /** `expired` is promised to say whether a deadline of the instance has shut the socket down. It
      says whether one has its `fired` flag set. That is the promise exactly if an earlier deadline
      had fired, or none is in the middle of firing. It is true in time exactly if none of those is
      armed through a stream, so always for an instance armed on bare descriptors only; it is not
      true too soon exactly if none of those is on a bare descriptor. */
  lemma ExpiredExactly(clock: int, tr: seq<Action>, i: Id)
    requires Runs(Init(clock), tr) && i in Exec(Init(clock), tr).insts
    ensures var s := Exec(Init(clock), tr); var x := s.insts[i];
            && (Expired(s, i) <==> SomeFired(s, x.owned))
            && ((Expired(s, i) <==> SomeShut(s, x.owned)) <==> x.before || forall g :: g in x.owned ==> !MidFire(s, g))
            && ((SomeShut(s, x.owned) ==> Expired(s, i)) <==> x.before || !FiringNow(s, x.owned, false))
            && ((Expired(s, i) ==> SomeShut(s, x.owned)) <==> x.before || !FiringNow(s, x.owned, true))
  {
    Reached(clock, tr);
    var s := Exec(Init(clock), tr);
    hide Runs, Exec;
    ExpiredIs(s, i);
    var x := s.insts[i];
    assert InstOk(s, x);
    forall g | g in x.owned ensures g in s.guards && GuardOk(s, g, s.guards[g]) {
      assert x.guard == Some(g) || Settled(s, g);
    }
    hide Inv, InstOk;
    if x.before { BeforeShut(s, i); } else { CurrentOnly(s, i); }
  }

  /** So the read that a deadline on a bare descriptor wakes finds `expired` true: an instance
      armed on bare descriptors only has expired whenever one of them has been shut down. */
  lemma RawInTime(clock: int, tr: seq<Action>, i: Id)
    requires Runs(Init(clock), tr) && i in Exec(Init(clock), tr).insts
    requires var s := Exec(Init(clock), tr); forall g :: g in s.insts[i].owned && g in s.guards ==> s.guards[g].raw
    ensures var s := Exec(Init(clock), tr); SomeShut(s, s.insts[i].owned) ==> Expired(s, i)
  {
    ExpiredExactly(clock, tr, i);
  }

  /** A deadline that fired before the current one has made its call. */
  lemma BeforeShut(s: State, i: Id)
    requires Inv(s) && i in s.insts && s.insts[i].before
    ensures Expired(s, i) && SomeShut(s, s.insts[i].owned)
  {
    var x := s.insts[i];
    assert InstOk(s, x);
    var g :| g in x.owned - Current(x) && g in s.guards && s.guards[g].fired;
    assert Settled(s, g) && GuardOk(s, g, s.guards[g]);
  }

  /** Otherwise only the current deadline matters. */
  lemma CurrentOnly(s: State, i: Id)
    requires Inv(s) && i in s.insts && !s.insts[i].before
    ensures var x := s.insts[i];
            forall g :: g in x.owned && x.guard != Some(g) ==>
              g in s.guards && !s.guards[g].fired && s.guards[g].shuts == 0 && !MidFire(s, g)
  {
    var x := s.insts[i];
    assert InstOk(s, x);
    forall g | g in x.owned && x.guard != Some(g)
      ensures g in s.guards && !s.guards[g].fired && s.guards[g].shuts == 0 && !MidFire(s, g)
    {
      assert Settled(s, g) && GuardOk(s, g, s.guards[g]);
      assert g in x.owned - Current(x);
    }
  }

  lemma ExpiredIs(s: State, i: Id)
    requires Inv(s) && i in s.insts
    ensures Expired(s, i) <==> SomeFired(s, s.insts[i].owned)
  {
  }

  /** The step takes the instance's deadlines away: it is destroyed or moved from. */
  predicate Gives(a: Action, i: Id) {
    (a.MoveTo? && a.j == i) || (a.Destroy? && a.i == i) || (a.Create? && a.i == i)
  }

  lemma OwnedStep(s: State, a: Action, i: Id, g: Id)
    requires Inv(s) && Enabled(s, a) && i in s.insts && !Gives(a, i)
    requires g in s.insts[i].owned && g in s.guards && s.guards[g].fired
    ensures i in Apply(s, a).insts && g in Apply(s, a).insts[i].owned
    ensures g in Apply(s, a).guards && Apply(s, a).guards[g].fired
  {
    hide Inv;
  }

  /** Once expired, an instance stays expired until it is destroyed or moved from. */
  lemma {:induction false} ExpiredSticks(s: State, tr: seq<Action>, i: Id)
    requires Inv(s) && Runs(s, tr) && i in s.insts && Expired(s, i)
    requires forall a <- tr :: !Gives(a, i)
    ensures i in Exec(s, tr).insts && Expired(Exec(s, tr), i)
    decreases |tr|
  {
    hide Apply, Enabled, Guards, SweepOk, Insts;
    if tr != [] {
      ExpiredIs(s, i);
      var g :| g in s.insts[i].owned && g in s.guards && s.guards[g].fired;
      OwnedStep(s, tr[0], i, g);
      StepKeeps(s, tr[0]);
      ExpiredIs(Apply(s, tr[0]), i);
      ExpiredSticks(Apply(s, tr[0]), tr[1..], i);
    }
  }

  // ---- Whether an armed deadline has a sweeper ----

  /** Whatever is listed will be swept. */
  predicate Watched(s: State) {
    s.entries != {} ==> s.running
  }

  /** Starting the sweeper fails while another deadline is already listed. */
  predicate Strands(s: State, a: Action) {
    a.SpawnFail? && s.entries != {a.g}
  }

  /** A step from a watched state leaves a watched state exactly if it does not strand. */
  lemma WatchedStep(s: State, a: Action)
    requires Inv(s) && Enabled(s, a) && Watched(s)
    ensures Watched(Apply(s, a)) <==> !Strands(s, a)
  {
  }

  predicate StrandsIn(s: State, tr: seq<Action>)
    requires Runs(s, tr)
    decreases |tr|
  {
    tr != [] && (Strands(s, tr[0]) || StrandsIn(Apply(s, tr[0]), tr[1..]))
  }

  /** Whatever is listed will be swept, now and after every step. */
  predicate AlwaysWatched(s: State, tr: seq<Action>)
    requires Runs(s, tr)
    decreases |tr|
  {
    Watched(s) && (tr == [] || AlwaysWatched(Apply(s, tr[0]), tr[1..]))
  }

  /** Over a whole run a listed deadline always has a sweeper exactly if no start of the sweeper
      fails while another deadline is listed. */
  lemma {:induction false} WatchedRunsExactly(s: State, tr: seq<Action>)
    requires Inv(s) && Watched(s) && Runs(s, tr)
    ensures AlwaysWatched(s, tr) <==> !StrandsIn(s, tr)
    decreases |tr|
  {
    hide Inv, Apply, Enabled, Watched, Strands;
    if tr != [] {
      StepKeeps(s, tr[0]);
      WatchedStep(s, tr[0]);
      if Watched(Apply(s, tr[0])) { WatchedRunsExactly(Apply(s, tr[0]), tr[1..]); }
    }
  }

  lemma {:induction false} WatchedRun(s: State, tr: seq<Action>)
    requires Inv(s) && Watched(s) && Runs(s, tr) && !StrandsIn(s, tr)
    ensures Watched(Exec(s, tr))
    decreases |tr|
  {
    hide Inv, Apply, Enabled, Watched, Strands;
    if tr != [] {
      StepKeeps(s, tr[0]);
      WatchedStep(s, tr[0]);
      WatchedRun(Apply(s, tr[0]), tr[1..]);
    }
  }

  /** In every run, an armed deadline has a sweeper at every step exactly if no start of the
      sweeper fails while another deadline is listed; and then there is one sweeper, alive or
      about to be started. */
  lemma ArmedAreWatched(clock: int, tr: seq<Action>)
    requires Runs(Init(clock), tr)
    ensures AlwaysWatched(Init(clock), tr) <==> !StrandsIn(Init(clock), tr)
    ensures !StrandsIn(Init(clock), tr) ==>
      var s := Exec(Init(clock), tr); s.entries != {} ==> s.running && |s.spawning| + s.sweepers == 1
  {
    StartInv(clock);
    WatchedRunsExactly(Init(clock), tr);
    Reached(clock, tr);
    if !StrandsIn(Init(clock), tr) { WatchedRun(Init(clock), tr); }
  }

  lemma StartInv(clock: int)
    ensures Inv(Init(clock)) && Watched(Init(clock))
  {
  }

  lemma RunsCons(s: State, a: Action, tr: seq<Action>)
    requires Enabled(s, a) && Runs(Apply(s, a), tr)
    ensures Runs(s, [a] + tr) && Exec(s, [a] + tr) == Exec(Apply(s, a), tr)
  {
  }

  /** The failing schedule: a second deadline is listed while the first one's `add` is starting
      the sweeper, and that start throws. The second is armed and nobody will sweep it. */
  lemma StrandedRun() returns (tr: seq<Action>)
    ensures Runs(Init(0), tr)
    ensures var s := Exec(Init(0), tr);
            s.insts.Keys == {0, 1} && s.insts[1].guard == Some(1) && s.entries == {1}
            && !s.running && s.spawning == {} && s.sweepers == 0
  {
    var s0 := Init(0);
    var a1, a2, a3, a4, a5 := Create(0), Create(1), Arm(0, 0, 5, true), Arm(1, 1, 5, true), SpawnFail(0, 0);
    var s1 := Apply(s0, a1);
    var s2 := Apply(s1, a2);
    var s3 := Apply(s2, a3);
    var s4 := Apply(s3, a4);
    var s5 := Apply(s4, a5);
    assert s5.entries == {1} && s5.spawning == {};
    assert s5.insts.Keys == {0, 1};
    assert Exec(s5, []) == s5;
    RunsCons(s4, a5, []);
    RunsCons(s3, a4, [a5]);
    RunsCons(s2, a3, [a4] + [a5]);
    RunsCons(s1, a2, [a3] + ([a4] + [a5]));
    RunsCons(s0, a1, [a2] + ([a3] + ([a4] + [a5])));
    tr := [a1] + ([a2] + ([a3] + ([a4] + [a5])));
  }

  /** The two runs in which `expired` is wrong for a moment: through a stream the socket has been
      shut down and `expired` is still false, so the read it wakes can find it so; on a bare
      descriptor `expired` is true and the socket has not been shut down yet. */
  lemma MidFireRun(raw: bool) returns (tr: seq<Action>)
    ensures Runs(Init(0), tr)
    ensures var s := Exec(Init(0), tr);
            && 0 in s.guards && 0 in s.insts && s.insts[0].owned == {0} && MidFire(s, 0)
            && s.guards[0].shuts == (if raw then 0 else 1) && (Expired(s, 0) <==> raw)
  {
    var a1, a2, a3, a4, a5 := Create(0), Arm(0, 0, 5, raw), SpawnOk(0), SweepBegin(7), Visit(0, false, true);
    var s0 := Init(0);
    var s1 := Apply(s0, a1);
    var s2 := Apply(s1, a2);
    var s3 := Apply(s2, a3);
    var s4 := Apply(s3, a4);
    var s5 := Apply(s4, a5);
    assert s5.insts[0].owned == {0};
    assert Exec(s5, []) == s5;
    RunsCons(s4, a5, []);
    RunsCons(s3, a4, [a5]);
    RunsCons(s2, a3, [a4] + [a5]);
    RunsCons(s1, a2, [a3] + ([a4] + [a5]));
    RunsCons(s0, a1, [a2] + ([a3] + ([a4] + [a5])));
    tr := [a1] + ([a2] + ([a3] + ([a4] + [a5])));
  }
}
