/** The admission counter of Soccer/includes/ConnectionLimiter.h: any number of `tryAcquire`
    calls racing through a weak compare-exchange loop, and slots being moved and released. */
module ConnectionLimiter {

  type Id = nat

  /** A `tryAcquire` call: holding the value it last read, or finished. */
  datatype Call = Loaded(cur: int) | Granted | Refused

  /** `held` are the slot objects that carry a ticket. */
  datatype State = State(max: nat, count: int, calls: map<Id, Call>, held: set<Id>)

  datatype Action =
    | Load(t: Id)
    | Exchange(t: Id, spurious: bool)
    | Refuse(t: Id)
    | Release(slot: Id)
    | Move(from: Id, to: Id)

  function Init(max: nat): State {
    State(max, 0, map[], {})
  }

  predicate Full(s: State, cur: int) {
    s.max != 0 && cur >= s.max
  }

  /** A granted call's slot has the call's identifier. Moving into a slot that holds a ticket is
      a release and then a move, as the move assignment does it. */
  predicate Enabled(s: State, a: Action) {
    match a
    case Load(t) => t !in s.calls && t !in s.held
    case Exchange(t, _) => t in s.calls && s.calls[t].Loaded? && !Full(s, s.calls[t].cur)
    case Refuse(t) => t in s.calls && s.calls[t].Loaded? && Full(s, s.calls[t].cur)
    case Release(slot) => slot in s.held
    case Move(from, to) => from in s.held && to !in s.held && (to in s.calls ==> !s.calls[to].Loaded?)
  }

  function Apply(s: State, a: Action): State
    requires Enabled(s, a)
  {
    match a
    case Load(t) => s.(calls := s.calls[t := Loaded(s.count)])
    case Exchange(t, spurious) =>
      if !spurious && s.count == s.calls[t].cur then
        s.(count := s.count + 1, calls := s.calls[t := Granted], held := s.held + {t})
      else s.(calls := s.calls[t := Loaded(s.count)])
    case Refuse(t) => s.(calls := s.calls[t := Refused])
    case Release(slot) => s.(count := s.count - 1, held := s.held - {slot})
    case Move(from, to) => s.(held := s.held - {from} + {to})
  }

  predicate Runs(s: State, tr: seq<Action>)
    decreases |tr|, 0
  {
    tr == [] || (Runs(s, tr[..|tr| - 1]) && Enabled(Exec(s, tr[..|tr| - 1]), tr[|tr| - 1]))
  }

  function Exec(s: State, tr: seq<Action>): State
    requires Runs(s, tr)
    decreases |tr|, 1
  {
    if tr == [] then s else Apply(Exec(s, tr[..|tr| - 1]), tr[|tr| - 1])
  }

  ghost predicate Inv(s: State) {
    && s.count == |s.held|
    && (s.max != 0 ==> s.count <= s.max)
    && (forall t :: t in s.calls && s.calls[t].Loaded? ==> t !in s.held)
  }

  lemma StepKeeps(s: State, a: Action)
    requires Inv(s) && Enabled(s, a)
    ensures Inv(Apply(s, a)) && Apply(s, a).max == s.max
  {
  }

  lemma {:induction false} RunKeeps(max: nat, tr: seq<Action>)
    requires Runs(Init(max), tr)
    ensures Inv(Exec(Init(max), tr)) && Exec(Init(max), tr).max == max
    decreases |tr|
  {
    hide Inv, Enabled, Apply;
    if tr != [] {
      RunKeeps(max, tr[..|tr| - 1]);
      StepKeeps(Exec(Init(max), tr[..|tr| - 1]), tr[|tr| - 1]);
    } else {
      Start(max);
    }
  }

  lemma Start(max: nat)
    ensures Inv(Init(max))
  {
  }

  /** In every interleaving, spurious failures included, the counter is the number of slots that
      hold a ticket and never exceeds a non-zero maximum; no ticket is left, the count is zero. */
  lemma CountIsLiveSlots(max: nat, tr: seq<Action>)
    requires Runs(Init(max), tr)
    ensures var s := Exec(Init(max), tr);
      s.count == |s.held| && (max != 0 ==> s.count <= max) && (s.held == {} <==> s.count == 0)
  {
    RunKeeps(max, tr);
  }

  predicate Reads(a: Action, t: Id) {
    (a.Load? && a.t == t) || (a.Exchange? && a.t == t)
  }

  ghost predicate ReadAt(max: nat, tr: seq<Action>, t: Id, j: nat, cur: int) {
    && j < |tr| && Runs(Init(max), tr[..j]) && Reads(tr[j], t) && Exec(Init(max), tr[..j]).count == cur
  }

  /** The value a call holds is one the counter had when that call read it. */
  lemma {:induction false} LastRead(max: nat, tr: seq<Action>, t: Id) returns (j: nat)
    requires Runs(Init(max), tr)
    requires var s := Exec(Init(max), tr); t in s.calls && s.calls[t].Loaded?
    ensures ReadAt(max, tr, t, j, Exec(Init(max), tr).calls[t].cur)
    decreases |tr|
  {
    var n := |tr| - 1;
    var pre := tr[..n];
    if Reads(tr[n], t) {
      j := n;
    } else {
      j := LastRead(max, pre, t);
      assert pre[..j] == tr[..j];
    }
  }

  /** A call is refused only if, at some read during that very call, all `max` slots were live. */
  lemma RefusedOnlyWhenFull(max: nat, tr: seq<Action>, t: Id) returns (j: nat)
    requires Runs(Init(max), tr) && Enabled(Exec(Init(max), tr), Refuse(t))
    ensures max != 0 && ReadAt(max, tr, t, j, max) && |Exec(Init(max), tr[..j]).held| == max
  {
    RunKeeps(max, tr);
    j := LastRead(max, tr, t);
    RunKeeps(max, tr[..j]);
  }

  /** A whole `tryAcquire` with nothing in between: its exchange fails `n` times for no reason. */
  function Spins(t: Id, n: nat): seq<Action> {
    [Load(t)] + seq(n, _ => Exchange(t, true))
  }

  lemma {:induction false} SpinsRead(s: State, t: Id, n: nat)
    requires Enabled(s, Load(t))
    requires s.max == 0 || s.count < s.max
    ensures Runs(s, Spins(t, n)) && Exec(s, Spins(t, n)) == s.(calls := s.calls[t := Loaded(s.count)])
  {
    var tr := Spins(t, n);
    if n == 0 {
      assert tr == [Load(t)] && tr[..0] == [];
    } else {
      SpinsRead(s, t, n - 1);
      assert tr[..|tr| - 1] == Spins(t, n - 1);
      var u := Exec(s, Spins(t, n - 1));
      assert u.calls[t := Loaded(u.count)] == u.calls;
    }
  }

  /** A call that finds fewer than `max` slots live, or no maximum, and is left alone gets one,
      however often its exchange fails spuriously. */
  lemma GrantedWhenFree(max: nat, tr: seq<Action>, t: Id, n: nat)
    requires Runs(Init(max), tr)
    requires var s := Exec(Init(max), tr); Enabled(s, Load(t)) && (max == 0 || |s.held| < max)
    ensures var s := Exec(Init(max), tr);
      var all := Spins(t, n) + [Exchange(t, false)];
      && Runs(s, all) && Exec(s, all).held == s.held + {t} && Exec(s, all).count == s.count + 1
      && t in Exec(s, all).calls && Exec(s, all).calls[t].Granted?
  {
    var s := Exec(Init(max), tr);
    RunKeeps(max, tr);
    SpinsRead(s, t, n);
    var all := Spins(t, n) + [Exchange(t, false)];
    assert all[..|all| - 1] == Spins(t, n);
  }

  /** A call that finds all `max` slots live can only be refused, and the count stays as it is. */
  lemma RefusedWhenFull(max: nat, tr: seq<Action>, t: Id)
    requires Runs(Init(max), tr)
    requires var s := Exec(Init(max), tr); Enabled(s, Load(t)) && max != 0 && |s.held| == max
    ensures var u := Apply(Exec(Init(max), tr), Load(t));
      && Enabled(u, Refuse(t)) && !Enabled(u, Exchange(t, false)) && !Enabled(u, Exchange(t, true))
      && Apply(u, Refuse(t)).count == max && Apply(u, Refuse(t)).held == u.held
  {
    RunKeeps(max, tr);
  }

  /** A slot that holds a ticket can always be released, and then there is room; and it can hand its
      ticket to an empty one, which changes no count. */
  lemma SlotsCanGo(max: nat, tr: seq<Action>, slot: Id, to: Id)
    requires Runs(Init(max), tr) && slot in Exec(Init(max), tr).held
    ensures var s := Exec(Init(max), tr);
      && Enabled(s, Release(slot)) && Apply(s, Release(slot)).held == s.held - {slot}
      && (max == 0 || |Apply(s, Release(slot)).held| < max)
      && (to !in s.held && to !in s.calls ==>
            && Enabled(s, Move(slot, to)) && Apply(s, Move(slot, to)).held == s.held - {slot} + {to}
            && Apply(s, Move(slot, to)).count == s.count)
  {
    RunKeeps(max, tr);
  }
}
