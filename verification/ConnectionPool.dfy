/** `HttpConnectionPool` of Soccer/includes/HttpClient.h: idle keep-alive connections per host.
    A connection is named by a number, a clock reading is in nanoseconds, and every operation
    is one step under the pool's mutex with the limits and the clock it read before locking. */
module ConnectionPool {
  import opened Wrappers
  import opened RequestHead

  const MAX_HOSTS: nat := 256

  datatype Idle = Idle(stream: nat, lastUsed: int)

  type Hosts = map<string, seq<Idle>>

  /** `duration_cast` to milliseconds truncates toward zero. */
  function Millis(nanos: int): int {
    if nanos >= 0 then nanos / 1_000_000 else -((-nanos) / 1_000_000)
  }

  predicate Stale(c: Idle, ageMs: int, now: int) {
    ageMs > 0 && Millis(now - c.lastUsed) > ageMs
  }

  /** The age is compared in whole milliseconds, so a connection is stale once it has been idle a
      millisecond more than the limit. */
  lemma StaleMeaning(c: Idle, ageMs: int, now: int)
    ensures Stale(c, ageMs, now) <==> ageMs > 0 && now - c.lastUsed >= (ageMs + 1) * 1_000_000
  {
  }

  // ---- Keys --------------------------------------------------------------------------

  function KeyOf(host: string, port: nat): string {
    host + ":" + ToString(port)
  }

  lemma LastColon(a: string, p: string, b: string, q: string)
    requires a + ":" + p == b + ":" + q && ':' !in p && ':' !in q
    ensures a == b && p == q
  {
    var s := a + ":" + p;
    assert s[|a|] == ':' && s[|b|] == ':';
    assert forall i :: |a| < i < |s| ==> s[i] == p[i - |a| - 1];
    assert forall i :: |b| < i < |s| ==> s[i] == q[i - |b| - 1];
    assert |a| == |b|;
    assert s[..|a|] == a && s[..|b|] == b && s[|a| + 1..] == p && s[|b| + 1..] == q;
  }

  /** Different endpoints never share an entry, even when a host holds colons. */
  lemma KeysDiffer(host1: string, port1: nat, host2: string, port2: nat)
    requires KeyOf(host1, port1) == KeyOf(host2, port2)
    ensures host1 == host2 && port1 == port2
  {
    hide ToString;
    ToStringDigits(port1);
    ToStringDigits(port2);
    LastColon(host1, ToString(port1), host2, ToString(port2));
  }

  // ---- The steps ---------------------------------------------------------------------

  /** How many of the oldest connections have gone stale. */
  function StaleCount(q: seq<Idle>, ageMs: int, now: int): (n: nat)
    ensures n <= |q|
    ensures forall i :: 0 <= i < n ==> Stale(q[i], ageMs, now)
    ensures n < |q| ==> !Stale(q[n], ageMs, now)
  {
    if q == [] || !Stale(q[0], ageMs, now) then 0 else 1 + StaleCount(q[1..], ageMs, now)
  }

  function DropStale(q: seq<Idle>, ageMs: int, now: int): seq<Idle> {
    q[StaleCount(q, ageMs, now)..]
  }

  /** The sweep over all hosts. */
  function Evict(h: Hosts, ageMs: int, now: int): Hosts {
    map k | k in h && DropStale(h[k], ageMs, now) != [] :: DropStale(h[k], ageMs, now)
  }

  /** Store a queue, an empty one keeping no entry. */
  function Put(h: Hosts, k: string, q: seq<Idle>): Hosts {
    if q == [] then h - {k} else h[k := q]
  }

  function Queue(h: Hosts, k: string): seq<Idle> {
    if k in h then h[k] else []
  }

  function AcquireStep(h: Hosts, k: string, ageMs: int, now: int): (Hosts, Option<nat>) {
    var q := Queue(h, k);
    if q == [] then (Put(h, k, []), None)
    else if Stale(q[|q| - 1], ageMs, now) then (Put(h, k, []), None)
    else (Put(h, k, q[..|q| - 1]), Some(q[|q| - 1].stream))
  }

  /** The table a release works on: swept first when it is full and the host is new. */
  function Swept(h: Hosts, k: string, ageMs: int, now: int): Hosts {
    if |h| >= MAX_HOSTS && k !in h then Evict(h, ageMs, now) else h
  }

  /** Whether the released connection is kept. */
  predicate Pools(h: Hosts, k: string, cap: nat, ageMs: int, now: int) {
    var g := Swept(h, k, ageMs, now);
    (k in h || |g| < MAX_HOSTS) && |DropStale(Queue(g, k), ageMs, now)| < cap
  }

  function ReleaseStep(h: Hosts, k: string, s: nat, cap: nat, ageMs: int, now: int): Hosts {
    var g := Swept(h, k, ageMs, now);
    if k !in h && |g| >= MAX_HOSTS then g
    else
      var q := DropStale(Queue(g, k), ageMs, now);
      Put(g, k, if |q| >= cap then q else q + [Idle(s, now)])
  }

  /** An acquire hands out the newest connection of the host exactly if it is not stale, and then
      takes just that one; otherwise the host is gone. Other hosts are not touched. */
  lemma AcquireExactly(h: Hosts, k: string, ageMs: int, now: int)
    ensures var q, r := Queue(h, k), AcquireStep(h, k, ageMs, now);
      && (forall l :: l != k ==> Queue(r.0, l) == Queue(h, l))
      && (if q != [] && !(ageMs > 0 && now - q[|q| - 1].lastUsed >= (ageMs + 1) * 1_000_000)
          then r.1 == Some(q[|q| - 1].stream) && Queue(r.0, k) == q[..|q| - 1]
          else r.1 == None && k !in r.0)
  {
    if Queue(h, k) != [] { StaleMeaning(Queue(h, k)[|Queue(h, k)| - 1], ageMs, now); }
  }

  predicate OldestStale(q: seq<Idle>, n: nat, ageMs: int, now: int) {
    n <= |q| && forall i :: 0 <= i < n ==> Stale(q[i], ageMs, now)
  }

  /** What is left of the queue once the stale ones in front are dropped is shorter than `cap`
      exactly if enough of the oldest are stale. */
  lemma RoomExactly(q: seq<Idle>, cap: nat, ageMs: int, now: int)
    ensures |DropStale(q, ageMs, now)| < cap <==>
      exists n: nat :: OldestStale(q, n, ageMs, now) && |q| - n < cap
  {
    hide Stale;
    assert OldestStale(q, StaleCount(q, ageMs, now), ageMs, now);
  }

  /** A host survives the sweep exactly if one of its connections is not stale. */
  lemma SurvivesExactly(q: seq<Idle>, ageMs: int, now: int)
    ensures DropStale(q, ageMs, now) != [] <==> exists i :: 0 <= i < |q| && !Stale(q[i], ageMs, now)
  {
    hide Stale;
  }

  /** The hosts with a connection that is not stale. */
  ghost function LiveHosts(h: Hosts, ageMs: int, now: int): set<string> {
    set l | l in h && exists i :: 0 <= i < |h[l]| && !Stale(h[l][i], ageMs, now)
  }

  /** A released connection is pooled exactly if its host has an entry or there is room for one,
      in a full table after the hosts with nothing but stale connections are out, and enough of
      the host's oldest are stale to stay under the cap. */
  lemma PoolsExactly(h: Hosts, k: string, cap: nat, ageMs: int, now: int)
    ensures Pools(h, k, cap, ageMs, now) <==>
      && (k in h || |h| < 256 || |LiveHosts(h, ageMs, now)| < 256)
      && exists n: nat :: OldestStale(Queue(h, k), n, ageMs, now) && |Queue(h, k)| - n < cap
  {
    hide Stale, DropStale;
    RoomExactly(Queue(h, k), cap, ageMs, now);
    SweptSize(h, ageMs, now);
    assert Queue(Swept(h, k, ageMs, now), k) == Queue(h, k);
  }

  lemma SweptSize(h: Hosts, ageMs: int, now: int)
    ensures |Evict(h, ageMs, now)| == |LiveHosts(h, ageMs, now)|
    ensures forall k :: k !in h ==> k !in Evict(h, ageMs, now)
  {
    hide Stale, DropStale;
    var g: Hosts := Evict(h, ageMs, now);
    forall l | l in h
      ensures DropStale(h[l], ageMs, now) != [] <==> exists i :: 0 <= i < |h[l]| && !Stale(h[l][i], ageMs, now)
    {
      SurvivesExactly(h[l], ageMs, now);
    }
    assert g.Keys == LiveHosts(h, ageMs, now);
    assert |g| == |g.Keys|;
  }

  /** A connection that is pooled is the next one handed out for its host, until it is stale. */
  lemma ReleasedComesBack(h: Hosts, k: string, s: nat, cap: nat, ageMs: int, now: int, laterAge: int, later: int)
    requires Pools(h, k, cap, ageMs, now)
    ensures AcquireStep(ReleaseStep(h, k, s, cap, ageMs, now), k, laterAge, later).1 ==
            if laterAge > 0 && later - now >= (laterAge + 1) * 1_000_000 then None else Some(s)
  {
    hide DropStale, AcquireStep, Evict;
    var g := Swept(h, k, ageMs, now);
    var after := ReleaseStep(h, k, s, cap, ageMs, now);
    assert Queue(after, k) == DropStale(Queue(g, k), ageMs, now) + [Idle(s, now)];
    AcquireExactly(after, k, laterAge, later);
  }

  class HttpConnectionPool {
    var idle: Hosts
    var maxIdlePerHost: nat
    var maxIdleAgeMs: int

    constructor ()
      ensures idle == map[] && maxIdlePerHost == 16 && maxIdleAgeMs == 30000
    {
      idle, maxIdlePerHost, maxIdleAgeMs := map[], 16, 30000;
    }

    method Acquire(host: string, port: nat, now: int) returns (r: Option<nat>)
      modifies this`idle
      ensures (idle, r) == AcquireStep(old(idle), KeyOf(host, port), maxIdleAgeMs, now)
    {
      var k := KeyOf(host, port);
      r := None;
      if k !in idle {
        assert idle - {k} == idle;
        return;
      }
      var q := idle[k];
      if q != [] {
        var c := q[|q| - 1];
        q := q[..|q| - 1];
        if Stale(c, maxIdleAgeMs, now) {
          q := [];
        } else {
          r := Some(c.stream);
        }
      }
      if q == [] { idle := idle - {k}; } else { idle := idle[k := q]; }
    }

    /** Skip connections that look dead. `dead` answers the peek, `clock` the successive
        readings; the connection returned is the newest live one, all newer ones being dead. */
    method AcquireLive(host: string, port: nat, dead: nat -> bool, clock: nat -> int) returns (r: Option<nat>)
      modifies this`idle
      ensures forall k :: k in idle ==> k in old(idle) && (k != KeyOf(host, port) ==> idle[k] == old(idle)[k])
      ensures forall k :: k in old(idle) && k != KeyOf(host, port) ==> k in idle
      ensures var q := old(Queue(idle, KeyOf(host, port)));
        match r
        case Some(s) => exists n: nat :: LiveAt(q, n, s, dead) && Queue(idle, KeyOf(host, port)) == q[..n]
        case None => KeyOf(host, port) !in idle && exists n: nat :: NoneLive(q, n, dead, maxIdleAgeMs, clock)
    {
      hide KeyOf;
      ghost var k := KeyOf(host, port);
      ghost var q := Queue(idle, k);
      var i: nat := 0;
      while true
        invariant Queue(idle, k) <= q
        invariant forall j :: |Queue(idle, k)| <= j < |q| ==> dead(q[j].stream)
        invariant forall x :: x in idle ==> x in old(idle) && (x != k ==> idle[x] == old(idle)[x])
        invariant forall x :: x in old(idle) && x != k ==> x in idle
        decreases |Queue(idle, k)|
      {
        ghost var before := Queue(idle, k);
        r := Acquire(host, port, clock(i));
        if r.None? {
          assert NoneLive(q, |before|, dead, maxIdleAgeMs, clock);
          return;
        }
        if !dead(r.value) {
          assert LiveAt(q, |before| - 1, r.value, dead);
          return;
        }
        i := i + 1;
      }
    }

    method Release(host: string, port: nat, s: nat, now: int)
      modifies this`idle
      ensures idle == ReleaseStep(old(idle), KeyOf(host, port), s, maxIdlePerHost, maxIdleAgeMs, now)
    {
      hide KeyOf, Evict, DropStale, Stale;
      var k := KeyOf(host, port);
      if |idle| >= MAX_HOSTS && k !in idle {
        SweepHosts(now);
        if |idle| >= MAX_HOSTS { return; }
      }
      var q := if k in idle then idle[k] else [];
      q := DropOldest(q, maxIdleAgeMs, now);
      if |q| >= maxIdlePerHost {
        if q == [] { idle := idle - {k}; } else { idle := idle[k := q]; }
        return;
      }
      idle := idle[k := q + [Idle(s, now)]];
    }

    /** The loop over all hosts, in whatever order the table yields them. */
    method SweepHosts(now: int)
      modifies this`idle
      ensures idle == Evict(old(idle), maxIdleAgeMs, now)
    {
      var todo := idle.Keys;
      ghost var h := idle;
      while todo != {}
        invariant todo <= h.Keys && todo <= idle.Keys <= h.Keys
        invariant forall k :: k in todo ==> idle[k] == h[k]
        invariant forall k :: k in h && k !in todo ==>
          if DropStale(h[k], maxIdleAgeMs, now) == [] then k !in idle
          else k in idle && idle[k] == DropStale(h[k], maxIdleAgeMs, now)
        decreases |todo|
      {
        hide DropStale;
        var k :| k in todo;
        var q := DropOldest(idle[k], maxIdleAgeMs, now);
        if q == [] { idle := idle - {k}; } else { idle := idle[k := q]; }
        todo := todo - {k};
      }
    }

    static method DropOldest(q0: seq<Idle>, ageMs: int, now: int) returns (q: seq<Idle>)
      ensures q == DropStale(q0, ageMs, now)
    {
      q := q0;
      while ageMs > 0 && q != [] && Millis(now - q[0].lastUsed) > ageMs
        invariant DropStale(q, ageMs, now) == DropStale(q0, ageMs, now)
        decreases |q|
      {
        assert q[1..][StaleCount(q[1..], ageMs, now)..] == q[StaleCount(q, ageMs, now)..];
        q := q[1..];
      }
    }
  }

  ghost predicate LiveAt(q: seq<Idle>, n: nat, s: nat, dead: nat -> bool) {
    n < |q| && q[n].stream == s && !dead(s) && forall i :: n < i < |q| ==> dead(q[i].stream)
  }

  /** All but the oldest `n` are dead, and the newest of those, if any, was found stale. */
  ghost predicate NoneLive(q: seq<Idle>, n: nat, dead: nat -> bool, ageMs: int, clock: nat -> int) {
    && n <= |q|
    && (forall i :: n <= i < |q| ==> dead(q[i].stream))
    && (n > 0 ==> exists j :: Stale(q[n - 1], ageMs, clock(j)))
  }
}
