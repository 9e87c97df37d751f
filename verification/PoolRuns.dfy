/** The connection pool over whole runs: any sequence of acquires and releases, by any number
    of threads, each with whatever limits and clock it happened to read before locking. */
module PoolRuns {
  import opened ConnectionPool

  function Streams(q: seq<Idle>): set<nat> {
    set i | 0 <= i < |q| :: q[i].stream
  }

  function IdleSet(h: Hosts): set<nat> {
    set k, i | k in h && 0 <= i < |h[k]| :: h[k][i].stream
  }

  predicate Unique(q: seq<Idle>) {
    forall i, j :: 0 <= i < j < |q| ==> q[i].stream != q[j].stream
  }

  /** No connection is idle twice. */
  ghost predicate Distinct(h: Hosts) {
    && (forall k :: k in h ==> Unique(h[k]))
    && (forall k, l :: k in h && l in h && k != l ==> Streams(h[k]) !! Streams(h[l]))
  }

  /** Where every connection is: idle in the pool, in a client's hands, or closed. */
  datatype World = World(idle: Hosts, outside: set<nat>, closed: set<nat>)

  datatype Op =
    | Dial(s: nat)
    | Discard(s: nat)
    | Acquire(k: string, ageMs: int, now: int)
    | Release(k: string, s: nat, cap: nat, ageMs: int, now: int)

  /** Connections destroyed by the sweep. */
  function SweepLoss(h: Hosts, k: string, ageMs: int, now: int): set<nat> {
    if |h| >= MAX_HOSTS && k !in h then
      StaleSet(h, ageMs, now)
    else {}
  }

  function ReleaseLoss(h: Hosts, k: string, s: nat, cap: nat, ageMs: int, now: int): set<nat> {
    var q := Queue(h, k);
    SweepLoss(h, k, ageMs, now)
    + Streams(q[..StaleCount(q, ageMs, now)])
    + (if Pools(h, k, cap, ageMs, now) then {} else {s})
  }

  function AcquireLoss(h: Hosts, k: string, ageMs: int, now: int): set<nat> {
    if AcquireStep(h, k, ageMs, now).1.Some? then {} else Streams(Queue(h, k))
  }

  predicate Enabled(w: World, op: Op) {
    match op
    case Dial(s) => s !in w.outside && s !in w.closed && s !in IdleSet(w.idle)
    case Discard(s) => s in w.outside
    case Acquire(_, _, _) => true
    case Release(_, s, _, _, _) => s in w.outside
  }

  function Do(w: World, op: Op): World {
    match op
    case Dial(s) => w.(outside := w.outside + {s})
    case Discard(s) => w.(outside := w.outside - {s}, closed := w.closed + {s})
    case Acquire(k, ageMs, now) =>
      var (h, r) := AcquireStep(w.idle, k, ageMs, now);
      World(h, if r.Some? then w.outside + {r.value} else w.outside, w.closed + AcquireLoss(w.idle, k, ageMs, now))
    case Release(k, s, cap, ageMs, now) =>
      World(ReleaseStep(w.idle, k, s, cap, ageMs, now), w.outside - {s},
            w.closed + ReleaseLoss(w.idle, k, s, cap, ageMs, now))
  }

  function Known(w: World): set<nat> {
    IdleSet(w.idle) + w.outside + w.closed
  }

  ghost predicate TableInv(h: Hosts) {
    && Distinct(h)
    && (forall k :: k in h ==> h[k] != [])
    && |h| <= MAX_HOSTS
  }

  /** Every known connection is in exactly one place, and the table is in order. */
  ghost predicate Inv(w: World) {
    TableInv(w.idle) && IdleSet(w.idle) !! w.outside !! w.closed
  }

  // ---- Sets of connections -----------------------------------------------------------

  lemma Slices(q: seq<Idle>, n: nat)
    requires n <= |q|
    ensures Streams(q) == Streams(q[..n]) + Streams(q[n..])
    ensures Unique(q) ==> Unique(q[..n]) && Unique(q[n..]) && Streams(q[..n]) !! Streams(q[n..])
  {
  }

  lemma SplitAt(h: Hosts, k: string)
    ensures IdleSet(h) == IdleSet(h - {k}) + Streams(Queue(h, k))
    ensures Distinct(h) ==> Distinct(h - {k}) && Unique(Queue(h, k)) && IdleSet(h - {k}) !! Streams(Queue(h, k))
  {
    var g := h - {k};
    forall s | s in IdleSet(h) ensures s in IdleSet(g) + Streams(Queue(h, k)) {
      var l, i :| l in h && 0 <= i < |h[l]| && h[l][i].stream == s;
      if l != k { assert l in g && g[l][i].stream == s; }
    }
    if Distinct(h) && k in h {
      forall s | s in IdleSet(g) ensures s !in Streams(h[k]) {
        var l, i :| l in g && 0 <= i < |g[l]| && g[l][i].stream == s;
        assert s in Streams(h[l]);
      }
    }
  }

  lemma PutShape(h: Hosts, k: string, q: seq<Idle>)
    ensures Queue(Put(h, k, q), k) == q && Put(h, k, q) - {k} == h - {k}
    ensures forall l :: l in Put(h, k, q) ==>
              if l == k then Put(h, k, q)[l] == q != [] else l in h && Put(h, k, q)[l] == h[l]
    ensures |Put(h, k, q)| <= |h| + (if k in h || q == [] then 0 else 1)
  {
  }

  lemma StreamsIn(h: Hosts, k: string)
    requires k in h
    ensures Streams(h[k]) <= IdleSet(h)
  {
  }

  lemma PutDistinct(h: Hosts, k: string, q: seq<Idle>)
    requires Distinct(h) && Unique(q) && IdleSet(h - {k}) !! Streams(q)
    ensures Distinct(Put(h, k, q))
  {
    hide Streams, IdleSet, Unique;
    var p := Put(h, k, q);
    PutShape(h, k, q);
    forall l | l in p && l != k ensures Streams(p[l]) !! Streams(q) {
      assert l in h - {k};
      StreamsIn(h - {k}, l);
    }
  }

  /** Replacing a host's queue: what the table holds afterwards, and that it stays in order. */
  lemma PutKeeps(h: Hosts, k: string, q: seq<Idle>)
    requires TableInv(h) && Unique(q) && IdleSet(h - {k}) !! Streams(q) && (k in h || q == [] || |h| < MAX_HOSTS)
    ensures TableInv(Put(h, k, q)) && IdleSet(Put(h, k, q)) == IdleSet(h - {k}) + Streams(q)
  {
    hide Streams, IdleSet, Unique, Distinct, Put;
    PutShape(h, k, q);
    PutDistinct(h, k, q);
    SplitAt(Put(h, k, q), k);
  }

  function StaleSet(h: Hosts, ageMs: int, now: int): set<nat> {
    set l, i | l in h && 0 <= i < StaleCount(h[l], ageMs, now) :: h[l][i].stream
  }

  lemma EvictInOrder(h: Hosts, ageMs: int, now: int)
    requires TableInv(h)
    ensures TableInv(Evict(h, ageMs, now))
  {
    hide Streams, Unique, StaleCount;
    var g: Hosts := Evict(h, ageMs, now);
    forall k | k in g ensures Unique(g[k]) && Streams(g[k]) <= Streams(h[k]) {
      Slices(h[k], StaleCount(h[k], ageMs, now));
    }
    assert g.Keys <= h.Keys;
    Smaller(g.Keys, h.Keys);
  }

  /** The sweep splits the table into what it keeps and what it destroys. */
  lemma EvictKeeps(h: Hosts, ageMs: int, now: int)
    requires TableInv(h)
    ensures var g: Hosts := Evict(h, ageMs, now);
      TableInv(g) && IdleSet(h) == IdleSet(g) + StaleSet(h, ageMs, now) && IdleSet(g) !! StaleSet(h, ageMs, now)
  {
    hide StaleSet, TableInv, Evict;
    EvictInOrder(h, ageMs, now);
    TableOrder(h);
    var g: Hosts := Evict(h, ageMs, now);
    forall s | s in IdleSet(h) ensures s in IdleSet(g) + StaleSet(h, ageMs, now) {
      var l, i :| l in h && 0 <= i < |h[l]| && h[l][i].stream == s;
      KeptOrStale(h, l, i, ageMs, now);
    }
    forall s | s in StaleSet(h, ageMs, now) ensures s in IdleSet(h) {
      StaleIsIdle(h, ageMs, now);
    }
    forall s | s in IdleSet(g) ensures s !in StaleSet(h, ageMs, now) && s in IdleSet(h) {
      var k, j :| k in g && 0 <= j < |g[k]| && g[k][j].stream == s;
      EvictedAt(h, k, ageMs, now);
      KeptIsFresh(h, k, StaleCount(h[k], ageMs, now) + j, ageMs, now);
    }
  }

  lemma StaleIsIdle(h: Hosts, ageMs: int, now: int)
    ensures StaleSet(h, ageMs, now) <= IdleSet(h)
  {
  }

  lemma EvictedAt(h: Hosts, k: string, ageMs: int, now: int)
    requires k in Evict(h, ageMs, now)
    ensures k in h && Evict(h, ageMs, now)[k] == h[k][StaleCount(h[k], ageMs, now)..]
  {
  }

  lemma KeptOrStale(h: Hosts, l: string, i: nat, ageMs: int, now: int)
    requires l in h && i < |h[l]|
    ensures h[l][i].stream in IdleSet(Evict(h, ageMs, now)) || h[l][i].stream in StaleSet(h, ageMs, now)
  {
    var g: Hosts := Evict(h, ageMs, now);
    var n := StaleCount(h[l], ageMs, now);
    if i >= n { assert l in g && g[l] == h[l][n..] && g[l][i - n] == h[l][i]; }
  }

  lemma KeptIsFresh(h: Hosts, k: string, j: nat, ageMs: int, now: int)
    requires Distinct(h) && k in h && StaleCount(h[k], ageMs, now) <= j < |h[k]|
    ensures h[k][j].stream in IdleSet(h) && h[k][j].stream !in StaleSet(h, ageMs, now)
  {
    var s := h[k][j].stream;
    assert s in Streams(h[k]);
    forall l, i | l in h && 0 <= i < StaleCount(h[l], ageMs, now) ensures h[l][i].stream != s {
      assert h[l][i].stream in Streams(h[l]);
    }
  }

  lemma Smaller(a: set<string>, b: set<string>)
    requires a <= b
    ensures |a| <= |b|
  {
    assert b == a + (b - a);
  }

  // ---- Steps -------------------------------------------------------------------------

  /** A set split into parts stays split when the parts change hands. */
  lemma Handed(idle: set<nat>, rest: set<nat>, a: set<nat>, b: set<nat>, outside: set<nat>, closed: set<nat>)
    requires idle !! outside !! closed && idle == rest + (a + b) && rest !! (a + b) && a !! b
    ensures (rest + a) !! (outside + b) !! closed && rest + a + (outside + b) + closed == idle + outside + closed
    ensures (rest + a) !! outside !! (closed + b) && rest + a + outside + (closed + b) == idle + outside + closed
  {
  }

  lemma AcquireKeeps(w: World, k: string, ageMs: int, now: int)
    requires Inv(w)
    ensures Inv(Do(w, Acquire(k, ageMs, now))) && Known(Do(w, Acquire(k, ageMs, now))) == Known(w)
  {
    hide Streams, IdleSet, Unique, Distinct, Put, Stale, TableInv;
    var h, q := w.idle, Queue(w.idle, k);
    SplitAt(h, k);
    TableOrder(h);
    var rest := IdleSet(h - {k});
    NoStreams();
    if q == [] || Stale(q[|q| - 1], ageMs, now) {
      PutKeeps(h, k, []);
      assert Streams(q) == {} + Streams(q);
      Handed(IdleSet(h), rest, {}, Streams(q), w.outside, w.closed);
    } else {
      var n := |q| - 1;
      Slices(q, n);
      OneStream(q[n..]);
      assert q[n..][0] == q[n];
      PutKeeps(h, k, q[..n]);
      Handed(IdleSet(h), rest, Streams(q[..n]), Streams(q[n..]), w.outside, w.closed);
    }
  }

  lemma TableOrder(h: Hosts)
    requires TableInv(h)
    ensures Distinct(h) && |h| <= MAX_HOSTS
  {
  }

  lemma NoStreams()
    ensures Streams([]) == {} && Unique([])
  {
  }

  lemma OneStream(q: seq<Idle>)
    requires |q| == 1
    ensures Streams(q) == {q[0].stream} && Unique(q)
  {
  }

  lemma SweptKeeps(h: Hosts, k: string, ageMs: int, now: int)
    requires TableInv(h)
    ensures var g := Swept(h, k, ageMs, now);
      && TableInv(g)
      && IdleSet(h) == IdleSet(g) + SweepLoss(h, k, ageMs, now) && IdleSet(g) !! SweepLoss(h, k, ageMs, now)
      && Queue(g, k) == Queue(h, k)
  {
    hide Streams, IdleSet, Unique, Distinct, TableInv, DropStale;
    if |h| >= MAX_HOSTS && k !in h { EvictKeeps(h, ageMs, now); }
  }

  lemma ReleaseParts(h: Hosts, k: string, s: nat, cap: nat, ageMs: int, now: int)
    requires TableInv(h) && s !in IdleSet(h)
    ensures var g, q := Swept(h, k, ageMs, now), Queue(h, k);
      var n := StaleCount(q, ageMs, now);
      && TableInv(ReleaseStep(h, k, s, cap, ageMs, now))
      && IdleSet(ReleaseStep(h, k, s, cap, ageMs, now)) ==
           IdleSet(g - {k}) + (if Pools(h, k, cap, ageMs, now) then Streams(q[n..]) + {s} else Streams(q[n..]))
      && IdleSet(h) == IdleSet(g - {k}) + (Streams(q[..n]) + Streams(q[n..])) + SweepLoss(h, k, ageMs, now)
      && IdleSet(g - {k}) !! (Streams(q[..n]) + Streams(q[n..])) !! SweepLoss(h, k, ageMs, now)
      && Streams(q[..n]) !! Streams(q[n..])
  {
    hide Streams, IdleSet, Unique, Distinct, Put, Stale, TableInv, Swept, SweepLoss;
    var g := Swept(h, k, ageMs, now);
    SweptKeeps(h, k, ageMs, now);
    SweptFull(h, k, ageMs, now);
    TableOrder(g);
    SplitAt(g, k);
    var q := Queue(g, k);
    var n := StaleCount(q, ageMs, now);
    Slices(q, n);
    if k !in h && |g| >= MAX_HOSTS {
      NoStreams();
      assert q == [] && q[..n] == [] && q[n..] == [];
    } else if |q[n..]| >= cap {
      PutKeeps(g, k, q[n..]);
    } else {
      Pushed(q[n..], s, now);
      PutKeeps(g, k, q[n..] + [Idle(s, now)]);
    }
  }

  lemma ReleaseKeeps(w: World, k: string, s: nat, cap: nat, ageMs: int, now: int)
    requires Inv(w) && s in w.outside
    ensures Inv(Do(w, Release(k, s, cap, ageMs, now))) && Known(Do(w, Release(k, s, cap, ageMs, now))) == Known(w)
  {
    hide Streams, IdleSet, TableInv, Swept, SweepLoss, Pools, ReleaseStep, StaleCount;
    var h, q := w.idle, Queue(w.idle, k);
    var n := StaleCount(q, ageMs, now);
    ReleaseParts(h, k, s, cap, ageMs, now);
    Destroyed(IdleSet(h), IdleSet(Swept(h, k, ageMs, now) - {k}), Streams(q[..n]), Streams(q[n..]),
              SweepLoss(h, k, ageMs, now), w.outside, w.closed, s);
  }

  lemma Destroyed(idle: set<nat>, rest: set<nat>, stale: set<nat>, kept: set<nat>, lost: set<nat>,
                  outside: set<nat>, closed: set<nat>, s: nat)
    requires idle !! outside !! closed && s in outside
    requires idle == rest + (stale + kept) + lost && rest !! (stale + kept) !! lost && stale !! kept
    ensures s !in kept && s !in rest
    ensures (rest + (kept + {s})) !! (outside - {s}) !! (closed + (lost + stale + {}))
    ensures rest + (kept + {s}) + (outside - {s}) + (closed + (lost + stale + {})) == idle + outside + closed
    ensures (rest + kept) !! (outside - {s}) !! (closed + (lost + stale + {s}))
    ensures rest + kept + (outside - {s}) + (closed + (lost + stale + {s})) == idle + outside + closed
  {
  }

  lemma SweptFull(h: Hosts, k: string, ageMs: int, now: int)
    ensures k in h ==> k in Swept(h, k, ageMs, now)
    ensures k !in h ==> k !in Swept(h, k, ageMs, now)
  {
  }

  lemma Pushed(q: seq<Idle>, s: nat, now: int)
    requires Unique(q) && s !in Streams(q)
    ensures Unique(q + [Idle(s, now)]) && Streams(q + [Idle(s, now)]) == Streams(q) + {s}
  {
    var p := q + [Idle(s, now)];
    assert p[..|q|] == q && p[|q|..] == [Idle(s, now)];
    Slices(p, |q|);
    OneStream(p[|q|..]);
    forall i, j | 0 <= i < j < |p| ensures p[i].stream != p[j].stream {
      if j == |q| { assert q[i].stream in Streams(q); }
    }
  }

  /** Every step keeps every connection, idle, handed out or closed, in exactly one place, loses
      none, and keeps the table free of empty entries and within its bound. */
  lemma StepKeeps(w: World, op: Op)
    requires Inv(w) && Enabled(w, op)
    ensures Inv(Do(w, op)) && Known(Do(w, op)) == Known(w) + if op.Dial? then {op.s} else {}
  {
    hide IdleSet, TableInv;
    match op
    case Dial(s) =>
    case Discard(s) =>
    case Acquire(k, ageMs, now) => AcquireKeeps(w, k, ageMs, now);
    case Release(k, s, cap, ageMs, now) => ReleaseKeeps(w, k, s, cap, ageMs, now);
  }

  // ---- Runs --------------------------------------------------------------------------

  predicate Runs(w: World, ops: seq<Op>)
    decreases |ops|
  {
    ops == [] || (Enabled(w, ops[0]) && Runs(Do(w, ops[0]), ops[1..]))
  }

  function Exec(w: World, ops: seq<Op>): World
    decreases |ops|
  {
    if ops == [] then w else Exec(Do(w, ops[0]), ops[1..])
  }

  function Dialled(ops: seq<Op>): set<nat> {
    set i | 0 <= i < |ops| && ops[i].Dial? :: ops[i].s
  }

  const EMPTY := World(map[], {}, {})

  lemma {:induction false} RunKeeps(w: World, ops: seq<Op>)
    requires Inv(w) && Runs(w, ops)
    ensures Inv(Exec(w, ops)) && Known(Exec(w, ops)) == Known(w) + Dialled(ops)
    decreases |ops|
  {
    hide Inv, Known, Enabled, Do;
    if ops != [] {
      StepKeeps(w, ops[0]);
      RunKeeps(Do(w, ops[0]), ops[1..]);
      DialledCons(ops);
    } else {
      assert Dialled(ops) == {};
    }
  }

  lemma DialledCons(ops: seq<Op>)
    requires ops != []
    ensures Dialled(ops) == (if ops[0].Dial? then {ops[0].s} else {}) + Dialled(ops[1..])
  {
  }

  /** After any run from an empty pool: no host entry is empty, at most 256 hosts are held, and
      every connection ever dialled is in exactly one place: idle once, handed out, or closed. */
  lemma PoolConserves(ops: seq<Op>)
    requires Runs(EMPTY, ops)
    ensures var w := Exec(EMPTY, ops);
      && (forall k :: k in w.idle ==> w.idle[k] != [])
      && |w.idle| <= 256
      && Distinct(w.idle) && IdleSet(w.idle) !! w.outside !! w.closed
      && IdleSet(w.idle) + w.outside + w.closed == Dialled(ops)
  {
    assert IdleSet(EMPTY.idle) == {};
    RunKeeps(EMPTY, ops);
  }

  ghost predicate Capped(h: Hosts, cap: nat) {
    forall k :: k in h ==> |h[k]| <= cap
  }

  /** After a step every queue is a stretch of what it was, except that a release may have put
      its connection at the end, room being left under its cap. */
  lemma QueueAfter(w: World, op: Op, l: string) returns (i: nat, j: nat, pushed: bool)
    requires l in Do(w, op).idle
    ensures var q, after := Queue(w.idle, l), Do(w, op).idle[l];
      && i <= j <= |q|
      && (if pushed then op.Release? && op.k == l && j - i < op.cap && after == q[i..j] + [Idle(op.s, op.now)]
          else after == q[i..j])
  {
    hide StaleCount, AcquireLoss, ReleaseLoss, Stale;
    var q := Queue(w.idle, l);
    i, j, pushed := 0, |q|, false;
    match op
    case Acquire(k, ageMs, now) =>
      if l == k { j := AcquiredFrom(w.idle, k, ageMs, now); } else { AcquireOthers(w.idle, k, ageMs, now, l); }
    case Release(k, s, cap, ageMs, now) =>
      i, pushed := ReleasedTo(w.idle, k, s, cap, ageMs, now, l);
    case _ =>
  }

  lemma AcquireOthers(h: Hosts, k: string, ageMs: int, now: int, l: string)
    requires l in AcquireStep(h, k, ageMs, now).0 && l != k
    ensures l in h && AcquireStep(h, k, ageMs, now).0[l] == h[l]
  {
  }

  lemma AcquiredFrom(h: Hosts, k: string, ageMs: int, now: int) returns (j: nat)
    requires k in AcquireStep(h, k, ageMs, now).0
    ensures j <= |Queue(h, k)| && AcquireStep(h, k, ageMs, now).0[k] == Queue(h, k)[0..j]
  {
    hide Stale;
    j := |Queue(h, k)| - 1;
  }

  lemma ReleasedTo(h: Hosts, k: string, s: nat, cap: nat, ageMs: int, now: int, l: string)
    returns (i: nat, pushed: bool)
    requires l in ReleaseStep(h, k, s, cap, ageMs, now)
    ensures var q := Queue(h, l);
      i <= |q| && ReleaseStep(h, k, s, cap, ageMs, now)[l] ==
        (if pushed then q[i..|q|] + [Idle(s, now)] else q[i..|q|]) && (pushed ==> |q| - i < cap && l == k)
  {
    hide StaleCount, Stale;
    var g := Swept(h, k, ageMs, now);
    pushed := false;
    if l != k || (k !in h && |g| >= MAX_HOSTS) {
      i := if l in h && g != h then StaleCount(h[l], ageMs, now) else 0;
    } else {
      i := StaleCount(Queue(g, k), ageMs, now);
      pushed := |DropStale(Queue(g, k), ageMs, now)| < cap;
    }
  }

  lemma CapStep(w: World, op: Op, cap: nat)
    requires Capped(w.idle, cap) && (op.Release? ==> op.cap <= cap)
    ensures Capped(Do(w, op).idle, cap)
  {
    hide Do;
    forall l | l in Do(w, op).idle ensures |Do(w, op).idle[l]| <= cap {
      var i, j, pushed := QueueAfter(w, op, l);
    }
  }

  /** No host ever holds more than the largest cap any release used. */
  lemma {:induction false} CapHolds(w: World, ops: seq<Op>, cap: nat)
    requires Capped(w.idle, cap) && forall i :: 0 <= i < |ops| && ops[i].Release? ==> ops[i].cap <= cap
    ensures Capped(Exec(w, ops).idle, cap)
    decreases |ops|
  {
    hide Capped;
    if ops != [] {
      CapStep(w, ops[0], cap);
      CapHolds(Do(w, ops[0]), ops[1..], cap);
    }
  }

  // ---- Newest fresh connection -------------------------------------------------------

  /** Oldest first. */
  predicate Ascending(q: seq<Idle>) {
    forall i, j :: 0 <= i < j < |q| ==> q[i].lastUsed <= q[j].lastUsed
  }

  /** An acquire on host `k` destroys a connection that is not stale. */
  predicate LosesFresh(h: Hosts, k: string, ageMs: int, now: int) {
    && AcquireStep(h, k, ageMs, now).1.None?
    && exists i :: 0 <= i < |Queue(h, k)| && !Stale(Queue(h, k)[i], ageMs, now)
  }

  /** The age limit and the clock an acquire read. */
  datatype Limits = Limits(ageMs: int, now: int)

  /** A row of acquires on host `k`, none of which destroys a connection that is not stale. */
  predicate OnlyStaleLost(h: Hosts, k: string, rs: seq<Limits>)
    decreases |rs|
  {
    rs == [] ||
    (!LosesFresh(h, k, rs[0].ageMs, rs[0].now)
     && OnlyStaleLost(AcquireStep(h, k, rs[0].ageMs, rs[0].now).0, k, rs[1..]))
  }

  /** At `MidAge(b)` a connection last used at `b` is stale and every one used later is not. */
  function MidAge(b: int): Limits {
    Limits(1, b + 2_000_000)
  }

  lemma MidAgeSplits(c: Idle, b: int)
    ensures Stale(c, MidAge(b).ageMs, MidAge(b).now) <==> c.lastUsed <= b
  {
  }

  lemma StaleOlder(a: Idle, b: Idle, ageMs: int, now: int)
    requires a.lastUsed <= b.lastUsed && Stale(b, ageMs, now)
    ensures Stale(a, ageMs, now)
  {
  }

  lemma AcquireQueue(h: Hosts, k: string, ageMs: int, now: int)
    ensures var q, after := Queue(h, k), Queue(AcquireStep(h, k, ageMs, now).0, k);
      after == if q == [] || Stale(q[|q| - 1], ageMs, now) then [] else q[..|q| - 1]
    ensures AcquireStep(h, k, ageMs, now).1.None? <==>
      Queue(h, k) == [] || Stale(Queue(h, k)[|Queue(h, k)| - 1], ageMs, now)
  {
    hide Stale;
  }

  /** The comment in `acquire` that everything older sits in front. Whatever limits and clocks are
      read, a row of acquires on a host destroys only stale connections exactly if the host's
      queue is ordered by last use. */
  lemma AcquiresLoseOnlyStaleExactly(h: Hosts, k: string)
    ensures (forall rs :: OnlyStaleLost(h, k, rs)) <==> Ascending(Queue(h, k))
  {
    var q := Queue(h, k);
    if Ascending(q) {
      forall rs ensures OnlyStaleLost(h, k, rs) {
        OrderedLosesOnlyStale(h, k, rs);
      }
    } else {
      var i, j :| 0 <= i < j < |q| && q[i].lastUsed > q[j].lastUsed;
      var rs := PopThenLose(h, k, i, j);
    }
  }

  lemma {:induction false} OrderedLosesOnlyStale(h: Hosts, k: string, rs: seq<Limits>)
    requires Ascending(Queue(h, k))
    ensures OnlyStaleLost(h, k, rs)
    decreases |rs|
  {
    hide AcquireStep, Stale;
    if rs != [] {
      var q := Queue(h, k);
      AcquireQueue(h, k, rs[0].ageMs, rs[0].now);
      if q != [] && Stale(q[|q| - 1], rs[0].ageMs, rs[0].now) {
        forall i | 0 <= i < |q| ensures Stale(q[i], rs[0].ageMs, rs[0].now) {
          StaleOlder(q[i], q[|q| - 1], rs[0].ageMs, rs[0].now);
        }
      }
      OrderedLosesOnlyStale(AcquireStep(h, k, rs[0].ageMs, rs[0].now).0, k, rs[1..]);
    }
  }

  /** With the age limit off an acquire takes the last connection. */
  const NO_LIMIT := Limits(0, 0)

  lemma {:induction false} PopThenLose(h: Hosts, k: string, i: nat, j: nat) returns (rs: seq<Limits>)
    requires i < j < |Queue(h, k)| && Queue(h, k)[i].lastUsed > Queue(h, k)[j].lastUsed
    ensures !OnlyStaleLost(h, k, rs)
    decreases |Queue(h, k)|
  {
    var q := Queue(h, k);
    var r := if j == |q| - 1 then MidAge(q[j].lastUsed) else NO_LIMIT;
    AcquireQueue(h, k, r.ageMs, r.now);
    var next := AcquireStep(h, k, r.ageMs, r.now).0;
    hide AcquireStep;
    var more := [];
    if j == |q| - 1 {
      MidAgeSplits(q[i], q[j].lastUsed);
      MidAgeSplits(q[j], q[j].lastUsed);
    } else {
      assert Queue(next, k) == q[..|q| - 1];
      more := PopThenLose(next, k, i, j);
    }
    rs := [r] + more;
    assert rs[0] == r && rs[1..] == more;
  }

  // ---- Keeping a queue ordered -------------------------------------------------------

  /** The step, if it puts a connection on host `k`, has read a clock not before the last use of
      the connection it is put behind. */
  predicate InOrder(h: Hosts, op: Op, k: string) {
    op.Release? && op.k == k && Pools(h, k, op.cap, op.ageMs, op.now) ==>
      var q := DropStale(Queue(h, k), op.ageMs, op.now);
      q == [] || q[|q| - 1].lastUsed <= op.now
  }

  predicate AllInOrder(w: World, ops: seq<Op>, k: string)
    decreases |ops|
  {
    ops == [] || (InOrder(w.idle, ops[0], k) && AllInOrder(Do(w, ops[0]), ops[1..], k))
  }

  /** Host `k`'s queue is ordered now and after every step. */
  predicate StaysAscending(w: World, ops: seq<Op>, k: string)
    decreases |ops|
  {
    Ascending(Queue(w.idle, k)) && (ops == [] || StaysAscending(Do(w, ops[0]), ops[1..], k))
  }

  lemma SliceAscending(q: seq<Idle>, i: nat, j: nat)
    requires Ascending(q) && i <= j <= |q|
    ensures Ascending(q[i..j])
  {
  }

  lemma PushAscending(q: seq<Idle>, c: Idle)
    requires Ascending(q)
    ensures Ascending(q + [c]) <==> q == [] || q[|q| - 1].lastUsed <= c.lastUsed
  {
    var r := q + [c];
    if q != [] && q[|q| - 1].lastUsed <= c.lastUsed {
      forall i, j | 0 <= i < j < |r| ensures r[i].lastUsed <= r[j].lastUsed {
        if j == |q| { assert i == |q| - 1 || q[i].lastUsed <= q[|q| - 1].lastUsed; }
      }
    }
    if q != [] { assert r[|q| - 1] == q[|q| - 1] && r[|q|] == c; }
  }

  /** The queue of host `k` after a release to it. */
  lemma ReleaseQueue(h: Hosts, k: string, s: nat, cap: nat, ageMs: int, now: int)
    ensures var q := DropStale(Queue(h, k), ageMs, now);
      Queue(ReleaseStep(h, k, s, cap, ageMs, now), k) == if Pools(h, k, cap, ageMs, now) then q + [Idle(s, now)] else q
  {
    hide Stale;
    assert Queue(Swept(h, k, ageMs, now), k) == Queue(h, k);
  }

  /** A step keeps an ordered queue ordered exactly if it is in order: no acquire, and no release
      to another host, matters. */
  lemma AscendingStepExactly(w: World, op: Op, k: string)
    requires Ascending(Queue(w.idle, k))
    ensures Ascending(Queue(Do(w, op).idle, k)) <==> InOrder(w.idle, op, k)
  {
    var q := Queue(w.idle, k);
    if op.Release? && op.k == k {
      hide Pools, ReleaseStep;
      ReleaseQueue(w.idle, k, op.s, op.cap, op.ageMs, op.now);
      SliceAscending(q, StaleCount(q, op.ageMs, op.now), |q|);
      PushAscending(DropStale(q, op.ageMs, op.now), Idle(op.s, op.now));
    } else if k in Do(w, op).idle {
      hide Do;
      var i, j, pushed := QueueAfter(w, op, k);
      SliceAscending(q, i, j);
    }
  }

  /** Over a whole run, the queue of a host is ordered at every step exactly if every release
      that put a connection on that host was in order. */
  lemma {:induction false} OrderedRunsExactly(w: World, ops: seq<Op>, k: string)
    requires Ascending(Queue(w.idle, k))
    ensures StaysAscending(w, ops, k) <==> AllInOrder(w, ops, k)
    decreases |ops|
  {
    hide Ascending, Do, InOrder;
    if ops != [] {
      AscendingStepExactly(w, ops[0], k);
      if Ascending(Queue(Do(w, ops[0]).idle, k)) { OrderedRunsExactly(Do(w, ops[0]), ops[1..], k); }
    }
  }

  lemma {:induction false} AscendingRun(w: World, ops: seq<Op>, k: string)
    requires Ascending(Queue(w.idle, k)) && AllInOrder(w, ops, k)
    ensures Ascending(Queue(Exec(w, ops).idle, k))
    decreases |ops|
  {
    hide Ascending, Do, InOrder;
    if ops != [] {
      AscendingStepExactly(w, ops[0], k);
      AscendingRun(Do(w, ops[0]), ops[1..], k);
    }
  }

  /** The clocks that releases to host `k` read, in the order they locked, do not go back. */
  predicate NotBack(ops: seq<Op>, k: string, t: int)
    decreases |ops|
  {
    ops == [] ||
    (if ops[0].Release? && ops[0].k == k then t <= ops[0].now && NotBack(ops[1..], k, ops[0].now)
     else NotBack(ops[1..], k, t))
  }

  predicate NoneAfter(q: seq<Idle>, t: int) {
    forall i :: 0 <= i < |q| ==> q[i].lastUsed <= t
  }

  /** That is enough for a run to be in order. */
  lemma {:induction false} NotBackInOrder(w: World, ops: seq<Op>, k: string, t: int)
    requires NoneAfter(Queue(w.idle, k), t) && NotBack(ops, k, t)
    ensures AllInOrder(w, ops, k)
    decreases |ops|
  {
    if ops != [] {
      var op := ops[0];
      var u := if op.Release? && op.k == k then op.now else t;
      NoneAfterStep(w, op, k, t, u);
      hide Do, Pools;
      NotBackInOrder(Do(w, op), ops[1..], k, u);
    }
  }

  lemma NoneAfterStep(w: World, op: Op, k: string, t: int, u: int)
    requires NoneAfter(Queue(w.idle, k), t) && t <= u && (op.Release? && op.k == k ==> u == op.now)
    ensures NoneAfter(Queue(Do(w, op).idle, k), u)
  {
    hide Do;
    if k in Do(w, op).idle {
      var i, j, pushed := QueueAfter(w, op, k);
    }
  }

  /** An acquire after any run whose releases to its host were in order refines "take the newest
      fresh connection": it gives one exactly when the host has one that is not stale, it is the
      last used, nothing else is lost then, and when it gives none it discards only stale ones. */
  lemma AcquireIsNewestFresh(ops: seq<Op>, k: string, ageMs: int, now: int)
    requires Runs(EMPTY, ops) && AllInOrder(EMPTY, ops, k)
    ensures var h := Exec(EMPTY, ops).idle;
      var q := Queue(h, k);
      var (h', r) := AcquireStep(h, k, ageMs, now);
      && (r.Some? <==> exists i :: 0 <= i < |q| && !Stale(q[i], ageMs, now))
      && (r.Some? ==>
            && q != [] && r.value == q[|q| - 1].stream && !Stale(q[|q| - 1], ageMs, now)
            && (forall i :: 0 <= i < |q| ==> q[i].lastUsed <= q[|q| - 1].lastUsed)
            && Queue(h', k) == q[..|q| - 1])
      && (r.None? ==> Queue(h', k) == [] && forall i :: 0 <= i < |q| ==> Stale(q[i], ageMs, now))
      && (forall l :: l != k ==> Queue(h', l) == Queue(h, l))
  {
    hide Exec, Runs, AllInOrder;
    AscendingRun(EMPTY, ops, k);
    AcquireOrdered(Exec(EMPTY, ops).idle, k, ageMs, now);
  }

  lemma AcquireOrdered(h: Hosts, k: string, ageMs: int, now: int)
    requires Ascending(Queue(h, k))
    ensures var q := Queue(h, k);
      var (h', r) := AcquireStep(h, k, ageMs, now);
      && (r.Some? <==> exists i :: 0 <= i < |q| && !Stale(q[i], ageMs, now))
      && (r.Some? ==>
            && q != [] && r.value == q[|q| - 1].stream && !Stale(q[|q| - 1], ageMs, now)
            && (forall i :: 0 <= i < |q| ==> q[i].lastUsed <= q[|q| - 1].lastUsed)
            && Queue(h', k) == q[..|q| - 1])
      && (r.None? ==> Queue(h', k) == [] && forall i :: 0 <= i < |q| ==> Stale(q[i], ageMs, now))
      && (forall l :: l != k ==> Queue(h', l) == Queue(h, l))
  {
  }

  // ---- What a release discards -------------------------------------------------------

  /** A release, however much it sweeps to make room, discards no idle connection of any host
      that is not stale, whatever the order of the queues. */
  lemma ReleaseDiscardsOnlyStale(h: Hosts, k: string, s: nat, cap: nat, ageMs: int, now: int, l: string, i: nat)
    requires l in h && i < |h[l]| && !Stale(h[l][i], ageMs, now)
    ensures h[l][i] in Queue(ReleaseStep(h, k, s, cap, ageMs, now), l)
  {
    var q := h[l];
    var n := StaleCount(q, ageMs, now);
    assert n <= i && q[n..][i - n] == q[i];
    hide Stale, ReleaseStep, StaleCount;
    if l == k {
      ReleaseQueue(h, k, s, cap, ageMs, now);
    } else {
      ReleaseOther(h, k, s, cap, ageMs, now, l);
    }
  }

  lemma ReleaseOther(h: Hosts, k: string, s: nat, cap: nat, ageMs: int, now: int, l: string)
    requires l != k
    ensures var after := Queue(ReleaseStep(h, k, s, cap, ageMs, now), l);
      after == Queue(h, l) || after == DropStale(Queue(h, l), ageMs, now)
  {
    hide Stale, StaleCount;
  }

  /** It leaves its own host no stale connection, whatever limits and clock it reads, exactly if
      the host's queue is ordered. */
  lemma ReleaseLeavesNoStaleExactly(h: Hosts, k: string, s: nat, cap: nat)
    ensures (forall ageMs, now :: NoneStale(Queue(ReleaseStep(h, k, s, cap, ageMs, now), k), ageMs, now))
            <==> Ascending(Queue(h, k))
  {
    hide Stale, Pools, ReleaseStep;
    var q := Queue(h, k);
    if Ascending(q) {
      forall ageMs, now ensures NoneStale(Queue(ReleaseStep(h, k, s, cap, ageMs, now), k), ageMs, now) {
        ReleaseQueue(h, k, s, cap, ageMs, now);
        DropsAllStale(q, ageMs, now);
        JustUsed(s, ageMs, now);
      }
    } else {
      var i, j :| 0 <= i < j < |q| && q[i].lastUsed > q[j].lastUsed;
      var r := MidAge(q[j].lastUsed);
      ReleaseQueue(h, k, s, cap, r.ageMs, r.now);
      StaleStays(q, i, j, Idle(s, r.now));
      assert !NoneStale(Queue(ReleaseStep(h, k, s, cap, r.ageMs, r.now), k), r.ageMs, r.now);
    }
  }

  /** A fresh connection in front keeps the stale one behind it. */
  lemma StaleStays(q: seq<Idle>, i: nat, j: nat, c: Idle)
    requires i < j < |q| && q[i].lastUsed > q[j].lastUsed
    ensures var r := MidAge(q[j].lastUsed);
      var left := DropStale(q, r.ageMs, r.now);
      !NoneStale(left, r.ageMs, r.now) && !NoneStale(left + [c], r.ageMs, r.now)
  {
    var r := MidAge(q[j].lastUsed);
    MidAgeSplits(q[i], q[j].lastUsed);
    MidAgeSplits(q[j], q[j].lastUsed);
    hide Stale;
    var n := StaleCount(q, r.ageMs, r.now);
    var left := DropStale(q, r.ageMs, r.now);
    assert left[j - n] == q[j] && (left + [c])[j - n] == q[j];
  }

  predicate NoneStale(q: seq<Idle>, ageMs: int, now: int) {
    forall i :: 0 <= i < |q| ==> !Stale(q[i], ageMs, now)
  }

  lemma DropsAllStale(q: seq<Idle>, ageMs: int, now: int)
    requires Ascending(q)
    ensures NoneStale(DropStale(q, ageMs, now), ageMs, now)
  {
    hide Stale;
    var n := StaleCount(q, ageMs, now);
    forall i | n <= i < |q| ensures !Stale(q[i], ageMs, now) {
      if Stale(q[i], ageMs, now) { StaleOlder(q[n], q[i], ageMs, now); }
    }
  }

  lemma JustUsed(s: nat, ageMs: int, now: int)
    ensures !Stale(Idle(s, now), ageMs, now)
  {
  }

  /** How the order is lost: the clock is read before the mutex is taken, and a release that read
      it earlier but locked later leaves an older connection behind a newer one. An acquire that
      finds the older one stale then closes the newer one too, fresh as it is. */
  lemma ClockRaceDiscardsFresh(k: string)
    ensures var before :=
        [Dial(0), Dial(1), Release(k, 0, 16, 1000, 3_000_000_000), Release(k, 1, 16, 1000, 1_000_000_000)];
      && Runs(EMPTY, before)
      && var w := Exec(EMPTY, before);
         var z := Do(w, Acquire(k, 1000, 3_500_000_000));
         && w.idle == map[k := [Idle(0, 3_000_000_000), Idle(1, 1_000_000_000)]] && w.closed == {}
         && !Stale(w.idle[k][0], 1000, 3_500_000_000)
         && z.idle == map[] && z.closed == {0, 1}
  {
    var a, b := Idle(0, 3_000_000_000), Idle(1, 1_000_000_000);
    var r0, r1 := Release(k, 0, 16, 1000, a.lastUsed), Release(k, 1, 16, 1000, b.lastUsed);
    var w0, w1, w2 := EMPTY, World(map[], {0}, {}), World(map[], {0, 1}, {});
    var w3, w4 := World(map[k := [a]], {1}, {}), World(map[k := [a, b]], {}, {});
    assert Do(w0, Dial(0)) == w1 && Do(w1, Dial(1)) == w2;
    FirstTwo(k);
    assert w4 == Exec(w4, []);
    RunsCons(w3, r1, []);
    RunsCons(w2, r0, [r1]);
    RunsCons(w1, Dial(1), [r0] + [r1]);
    RunsCons(w0, Dial(0), [Dial(1)] + ([r0] + [r1]));
    assert [Dial(0)] + ([Dial(1)] + ([r0] + [r1])) == [Dial(0), Dial(1), r0, r1];
    LastOne(k);
  }

  lemma FirstTwo(k: string)
    ensures var a, b := Idle(0, 3_000_000_000), Idle(1, 1_000_000_000);
      && Do(World(map[], {0, 1}, {}), Release(k, 0, 16, 1000, a.lastUsed)) == World(map[k := [a]], {1}, {})
      && Do(World(map[k := [a]], {1}, {}), Release(k, 1, 16, 1000, b.lastUsed)) == World(map[k := [a, b]], {}, {})
  {
    var a, b := Idle(0, 3_000_000_000), Idle(1, 1_000_000_000);
    var h0: Hosts := map[];
    var h1: Hosts := map[k := [a]];
    PlainRelease(h0, k, 0, 16, 1000, a.lastUsed);
    PlainRelease(h1, k, 1, 16, 1000, b.lastUsed);
    hide ReleaseStep, ReleaseLoss, Stale;
    assert [] + [a] == [a] && [a] + [b] == [a, b];
    assert {0, 1} - {0} == {1} && {1} - {1} == {};
  }

  lemma LastOne(k: string)
    ensures var a, b := Idle(0, 3_000_000_000), Idle(1, 1_000_000_000);
      && !Stale(a, 1000, 3_500_000_000)
      && Do(World(map[k := [a, b]], {}, {}), Acquire(k, 1000, 3_500_000_000)) == World(map[], {}, {0, 1})
  {
    var a, b := Idle(0, 3_000_000_000), Idle(1, 1_000_000_000);
    var q := [a, b];
    assert Streams(q) == {0, 1} by {
      assert q[0].stream in Streams(q) && q[1].stream in Streams(q);
    }
  }

  lemma RunsCons(w: World, op: Op, ops: seq<Op>)
    requires Enabled(w, op) && Runs(Do(w, op), ops)
    ensures Runs(w, [op] + ops) && Exec(w, [op] + ops) == Exec(Do(w, op), ops)
  {
    assert ([op] + ops)[0] == op && ([op] + ops)[1..] == ops;
  }

  lemma PlainRelease(h: Hosts, k: string, s: nat, cap: nat, ageMs: int, now: int)
    requires (k in h || |h| < MAX_HOSTS) && |Queue(h, k)| < cap
    requires Queue(h, k) == [] || !Stale(Queue(h, k)[0], ageMs, now)
    ensures ReleaseStep(h, k, s, cap, ageMs, now) == h[k := Queue(h, k) + [Idle(s, now)]]
    ensures ReleaseLoss(h, k, s, cap, ageMs, now) == {}
  {
    assert StaleCount(Queue(h, k), ageMs, now) == 0;
    assert Streams(Queue(h, k)[..0]) == {};
  }
}
