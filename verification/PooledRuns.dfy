/** Pooled requests over whole runs: any number of clients taking connections from the pool or
    dialling them, each running one exchange over its connection and giving it back or dropping
    it. What the pool demands of its callers (Soccer/includes/HttpClient.h, lines 439-442): a
    connection in it stands at a message boundary. */
module PooledRuns {
  import opened Wrappers
  import opened BufferedReading
  import opened HttpResponse
  import opened ResponseGrammar
  import opened PooledRequest
  import P = PoolRuns
  import C = ConnectionPool

  datatype Endpoint = Endpoint(host: string, port: nat) {
    function Key(): string { C.KeyOf(host, port) }
  }

  /** A connection: where it was dialled to, the bytes its peer ever sends and how they end, how
      far they have been pulled off the socket, and the requests answered over it, oldest first,
      true for a HEAD. */
  datatype Conn = Conn(to: Endpoint, sent: string, breaks: bool, pos: nat, asked: seq<bool>) {
    function Chan(): Channel { Channel(MAX_LINE, breaks) }
  }

  /** Where the responses to `asked`, read one after another from `p` on, end; none if one of
      them is not there or ends the connection. */
  function After(sent: string, ch: Channel, p: nat, asked: seq<bool>): Option<nat>
    decreases |asked|
  {
    if p > |sent| then None
    else if asked == [] then Some(p)
    else
      var o := Respond(sent[p..], ch, asked[0]);
      if o.Parsed? && o.reusable then After(sent, ch, p + o.consumed, asked[1..]) else None
  }

  /** Exactly the responses to the requests asked over it have been taken off the connection. */
  predicate Boundary(c: Conn) {
    After(c.sent, c.Chan(), 0, c.asked) == Some(c.pos)
  }

  /** What one exchange does to a connection; `clean` is whether it may be released. */
  predicate Served(c: Conn, headRequest: bool, d: Conn, clean: bool) {
    && d.to == c.to && d.sent == c.sent && d.breaks == c.breaks && c.pos <= d.pos <= |c.sent|
    && (var o := Respond(c.sent[c.pos..], c.Chan(), headRequest);
        clean <==> o.Parsed? && o.reusable && d.pos == c.pos + o.consumed)
    && d.asked == if clean then c.asked + [headRequest] else c.asked
  }

  /** The exchange of `pooledRequest` is such a step. */
  method Serve(stream: TcpStream, headRequest: bool, ghost to: Endpoint, ghost asked: seq<bool>) returns (clean: bool)
    requires stream.Valid()
    modifies stream
    ensures stream.Valid()
    ensures var done := if clean then asked + [headRequest] else asked;
      Served(Conn(to, stream.sent, stream.breaks, old(stream.pos), asked), headRequest,
             Conn(to, stream.sent, stream.breaks, stream.pos, done), clean)
  {
    hide Respond, Seen, Unseen, AtBoundary;
    var res, saw;
    res, clean, saw := PooledRequest.Exchange(stream, headRequest);
  }

  // ---- Boundaries --------------------------------------------------------------------

  lemma {:induction false} AfterAppend(sent: string, ch: Channel, p: nat, asked: seq<bool>, h: bool, q: nat)
    requires After(sent, ch, p, asked) == Some(q) && q <= |sent|
    ensures var o := Respond(sent[q..], ch, h);
      After(sent, ch, p, asked + [h]) ==
      if o.Parsed? && o.reusable && q + o.consumed <= |sent| then Some(q + o.consumed) else None
    decreases |asked|
  {
    hide Respond;
    if asked == [] {
      assert asked + [h] == [h] && [h][1..] == [];
    } else {
      var o := Respond(sent[p..], ch, asked[0]);
      assert (asked + [h])[0] == asked[0] && (asked + [h])[1..] == asked[1..] + [h];
      AfterAppend(sent, ch, p + o.consumed, asked[1..], h, q);
    }
  }

  lemma ServedKeeps(c: Conn, headRequest: bool, d: Conn)
    requires Boundary(c) && Served(c, headRequest, d, true)
    ensures Boundary(d)
  {
    hide Respond;
    AfterAppend(c.sent, c.Chan(), 0, c.asked, headRequest, c.pos);
  }

  // ---- Runs --------------------------------------------------------------------------

  /** `wants` is the endpoint of the request a client took or dialled a connection for; `waiting`
      are the connections so taken and not yet used, `ready` those whose exchange ended clean. */
  datatype State = State(
    pool: P.World,
    conns: map<nat, Conn>,
    wants: map<nat, Endpoint>,
    waiting: set<nat>,
    ready: set<nat>)

  datatype Action =
    | Dial(s: nat, e: Endpoint, sent: string, breaks: bool)
    | Acquire(e: Endpoint, ageMs: int, now: int)
    | Use(s: nat, headRequest: bool, after: Conn, clean: bool)
    | Release(s: nat, cap: nat, ageMs: int, now: int)
    | Discard(s: nat)

  const START := State(P.EMPTY, map[], map[], {}, {})

  predicate Enabled(s: State, a: Action) {
    match a
    case Dial(c, _, _, _) => P.Enabled(s.pool, P.Dial(c))
    case Acquire(_, _, _) => true
    case Use(c, headRequest, after, clean) =>
      c in s.waiting && c in s.conns && Served(s.conns[c], headRequest, after, clean)
    case Release(c, _, _, _) => c in s.ready && c in s.pool.outside && c in s.wants
    case Discard(c) => c in s.pool.outside
  }

  /** What the pool hands out for an endpoint. */
  function Offer(s: State, e: Endpoint, ageMs: int, now: int): Option<nat> {
    C.AcquireStep(s.pool.idle, e.Key(), ageMs, now).1
  }

  function Taken(s: State, e: Endpoint, ageMs: int, now: int): State {
    match Offer(s, e, ageMs, now)
    case None => s
    case Some(c) => s.(wants := s.wants[c := e], waiting := s.waiting + {c})
  }

  /** A request takes, dials and gives back under the one endpoint it is for. */
  function Apply(s: State, a: Action): State
    requires Enabled(s, a)
  {
    match a
    case Dial(c, e, sent, breaks) =>
      State(P.Do(s.pool, P.Dial(c)), s.conns[c := Conn(e, sent, breaks, 0, [])], s.wants[c := e],
            s.waiting + {c}, s.ready)
    case Acquire(e, ageMs, now) =>
      Taken(s, e, ageMs, now).(pool := P.Do(s.pool, P.Acquire(e.Key(), ageMs, now)))
    case Use(c, _, after, clean) =>
      s.(conns := s.conns[c := after], waiting := s.waiting - {c}, ready := if clean then s.ready + {c} else s.ready)
    case Release(c, cap, ageMs, now) =>
      s.(pool := P.Do(s.pool, P.Release(s.wants[c].Key(), c, cap, ageMs, now)), ready := s.ready - {c})
    case Discard(c) =>
      s.(pool := P.Do(s.pool, P.Discard(c)), waiting := s.waiting - {c}, ready := s.ready - {c})
  }

  predicate Runs(s: State, t: seq<Action>)
    decreases |t|
  {
    t == [] || (Enabled(s, t[0]) && Runs(Apply(s, t[0]), t[1..]))
  }

  function Exec(s: State, t: seq<Action>): State
    requires Runs(s, t)
    decreases |t|
  {
    if t == [] then s else Exec(Apply(s, t[0]), t[1..])
  }

  function Idle(s: State): set<nat> {
    P.IdleSet(s.pool.idle)
  }

  ghost predicate Inv(s: State) {
    && P.Inv(s.pool)
    && s.waiting !! s.ready && s.waiting + s.ready <= s.pool.outside
    && (forall c :: c in Idle(s) + s.waiting + s.ready ==> c in s.conns && Boundary(s.conns[c]))
    && (forall c :: c in s.waiting + s.ready ==> c in s.conns && c in s.wants && s.wants[c] == s.conns[c].to)
    && Filed(s.pool.idle, s.conns)
  }

  /** Every idle connection is filed under the endpoint it was dialled to. */
  ghost predicate Filed(h: C.Hosts, conns: map<nat, Conn>) {
    forall k, i :: k in h && 0 <= i < |h[k]| ==> FiledAs(h[k][i].stream, k, conns)
  }

  predicate FiledAs(c: nat, k: string, conns: map<nat, Conn>) {
    c in conns && conns[c].to.Key() == k
  }

  lemma FiledStep(w: P.World, op: P.Op, conns: map<nat, Conn>)
    requires Filed(w.idle, conns) && (op.Release? ==> FiledAs(op.s, op.k, conns))
    ensures Filed(P.Do(w, op).idle, conns)
  {
    hide P.Do, FiledAs;
    var h: C.Hosts := P.Do(w, op).idle;
    forall k: string, i: nat | k in h && i < |h[k]| ensures FiledAs(h[k][i].stream, k, conns) {
      var a, b, pushed := P.QueueAfter(w, op, k);
      var q := C.Queue(w.idle, k);
      if i < b - a { assert h[k][i] == q[a + i] && k in w.idle; }
    }
  }

  /** A new or used connection changes nothing for the idle ones. */
  lemma FiledSame(h: C.Hosts, conns: map<nat, Conn>, c: nat, x: Conn)
    requires Filed(h, conns) && (c in P.IdleSet(h) ==> c in conns && conns[c].to == x.to)
    ensures Filed(h, conns[c := x])
  {
    forall k, i | k in h && 0 <= i < |h[k]| ensures FiledAs(h[k][i].stream, k, conns[c := x]) {
      assert FiledAs(h[k][i].stream, k, conns);
      assert h[k][i].stream in P.IdleSet(h);
    }
  }

  /** What the pool offers for an endpoint was dialled to it: no two endpoints share a key. */
  lemma OfferedFor(s: State, e: Endpoint, ageMs: int, now: int)
    requires Filed(s.pool.idle, s.conns) && Offer(s, e, ageMs, now).Some?
    ensures var c := Offer(s, e, ageMs, now).value; c in s.conns && s.conns[c].to == e
  {
    hide C.Stale, C.KeyOf;
    var q := s.pool.idle[e.Key()];
    var c := q[|q| - 1].stream;
    assert FiledAs(c, e.Key(), s.conns);
    C.KeysDiffer(s.conns[c].to.host, s.conns[c].to.port, e.host, e.port);
  }

  /** What a step of the pool does to the connections outside and idle. */
  lemma PoolStep(w: P.World, op: P.Op)
    requires P.Inv(w) && P.Enabled(w, op)
    ensures P.Inv(P.Do(w, op))
    ensures var z := P.Do(w, op);
      match op
      case Dial(s) => s !in w.outside && s !in P.IdleSet(w.idle) && z.outside == w.outside + {s} && z.idle == w.idle
      case Discard(s) => z.outside == w.outside - {s} && z.idle == w.idle
      case Acquire(k, ageMs, now) =>
        var r := C.AcquireStep(w.idle, k, ageMs, now).1;
        && P.IdleSet(z.idle) <= P.IdleSet(w.idle)
        && (r.Some? ==> r.value in P.IdleSet(w.idle) && z.outside == w.outside + {r.value})
        && (r.None? ==> z.outside == w.outside)
      case Release(_, s, _, _, _) =>
        z.outside == w.outside - {s} && P.IdleSet(z.idle) <= P.IdleSet(w.idle) + {s}
  {
    hide P.Inv, P.IdleSet, C.AcquireStep, C.ReleaseStep, P.ReleaseLoss, P.AcquireLoss, C.Stale;
    P.StepKeeps(w, op);
    Apart(w);
    Apart(P.Do(w, op));
    if op.Acquire? { Given(w.idle, op.k, op.ageMs, op.now); }
  }

  lemma Apart(w: P.World)
    requires P.Inv(w)
    ensures P.IdleSet(w.idle) !! w.outside !! w.closed
  {
  }

  lemma Given(h: C.Hosts, k: string, ageMs: int, now: int)
    ensures var r := C.AcquireStep(h, k, ageMs, now).1; r.Some? ==> r.value in P.IdleSet(h)
  {
    hide C.Stale;
    if k in h && h[k] != [] {
      assert h[k][|h[k]| - 1].stream in P.IdleSet(h);
    }
  }

  lemma DialKeeps(s: State, c: nat, e: Endpoint, sent: string, breaks: bool)
    requires Inv(s) && Enabled(s, Dial(c, e, sent, breaks))
    ensures Inv(Apply(s, Dial(c, e, sent, breaks)))
  {
    hide P.Inv, P.IdleSet, P.Do, P.Enabled, C.AcquireStep, C.KeyOf, Boundary, Filed;
    Apart(s.pool);
    PoolStep(s.pool, P.Dial(c));
    Fresh(e, sent, breaks);
    FiledSame(s.pool.idle, s.conns, c, Conn(e, sent, breaks, 0, []));
  }

  lemma AcquireKeeps(s: State, e: Endpoint, ageMs: int, now: int)
    requires Inv(s)
    ensures Inv(Apply(s, Acquire(e, ageMs, now)))
  {
    hide P.Inv, P.IdleSet, P.Do, P.Enabled, C.AcquireStep, C.KeyOf, Boundary, Filed;
    Apart(s.pool);
    var op := P.Acquire(e.Key(), ageMs, now);
    PoolEnabled(s.pool, op);
    PoolStep(s.pool, op);
    FiledStep(s.pool, op, s.conns);
    if Offer(s, e, ageMs, now).Some? { OfferedFor(s, e, ageMs, now); }
  }

  lemma UseKeeps(s: State, c: nat, headRequest: bool, after: Conn, clean: bool)
    requires Inv(s) && Enabled(s, Use(c, headRequest, after, clean))
    ensures Inv(Apply(s, Use(c, headRequest, after, clean)))
  {
    hide P.Inv, P.IdleSet, P.Do, P.Enabled, C.AcquireStep, C.KeyOf, Boundary, Filed, Respond;
    Apart(s.pool);
    SameEndpoint(s.conns[c], headRequest, after, clean);
    if clean { ServedKeeps(s.conns[c], headRequest, after); }
    FiledSame(s.pool.idle, s.conns, c, after);
  }

  lemma SameEndpoint(c: Conn, headRequest: bool, d: Conn, clean: bool)
    requires Served(c, headRequest, d, clean)
    ensures d.to == c.to
  {
  }

  lemma ReleaseKeeps(s: State, c: nat, cap: nat, ageMs: int, now: int)
    requires Inv(s) && Enabled(s, Release(c, cap, ageMs, now))
    ensures Inv(Apply(s, Release(c, cap, ageMs, now)))
  {
    hide P.Inv, P.IdleSet, P.Do, P.Enabled, C.AcquireStep, C.KeyOf, Boundary, Filed;
    Apart(s.pool);
    var op := P.Release(s.wants[c].Key(), c, cap, ageMs, now);
    PoolEnabled(s.pool, op);
    PoolStep(s.pool, op);
    FiledStep(s.pool, op, s.conns);
  }

  lemma DiscardKeeps(s: State, c: nat)
    requires Inv(s) && Enabled(s, Discard(c))
    ensures Inv(Apply(s, Discard(c)))
  {
    hide P.Inv, P.IdleSet, P.Do, P.Enabled, C.AcquireStep, C.KeyOf, Boundary, Filed;
    PoolEnabled(s.pool, P.Discard(c));
    PoolStep(s.pool, P.Discard(c));
  }

  lemma StepKeeps(s: State, a: Action)
    requires Inv(s) && Enabled(s, a)
    ensures Inv(Apply(s, a))
  {
    hide Inv, Apply, Enabled;
    match a
    case Dial(c, e, sent, breaks) => DialKeeps(s, c, e, sent, breaks);
    case Acquire(e, ageMs, now) => AcquireKeeps(s, e, ageMs, now);
    case Use(c, headRequest, after, clean) => UseKeeps(s, c, headRequest, after, clean);
    case Release(c, cap, ageMs, now) => ReleaseKeeps(s, c, cap, ageMs, now);
    case Discard(c) => DiscardKeeps(s, c);
  }

  lemma PoolEnabled(w: P.World, op: P.Op)
    requires !op.Dial? && (op.Discard? || op.Release? ==> op.s in w.outside)
    ensures P.Enabled(w, op)
  {
  }

  lemma Fresh(e: Endpoint, sent: string, breaks: bool)
    ensures Boundary(Conn(e, sent, breaks, 0, []))
  {
  }

  lemma {:induction false} RunKeeps(s: State, t: seq<Action>)
    requires Inv(s) && Runs(s, t)
    ensures Inv(Exec(s, t))
    decreases |t|
  {
    hide Inv, Enabled, Apply;
    if t != [] {
      StepKeeps(s, t[0]);
      RunKeeps(Apply(s, t[0]), t[1..]);
    }
  }

  /** In every run, every connection in the pool, and every one a client has taken from it and not
      used yet, stands at a message boundary: exactly the responses to the requests asked over it
      have been taken off it, so the next answer read from it is the next response on it. */
  lemma IdleAtBoundary(t: seq<Action>, c: nat)
    requires Runs(START, t)
    requires var s := Exec(START, t); c in Idle(s) || c in s.waiting
    ensures var s := Exec(START, t); c in s.conns && Boundary(s.conns[c])
  {
    hide Runs, Exec, Boundary;
    StartInv();
    RunKeeps(START, t);
  }

  /** In every run, the connection that an acquire for an endpoint gives was dialled to that
      endpoint. */
  lemma AcquireReachesEndpoint(t: seq<Action>, e: Endpoint, ageMs: int, now: int)
    requires Runs(START, t) && Offer(Exec(START, t), e, ageMs, now).Some?
    ensures var s := Exec(START, t);
      var c := Offer(s, e, ageMs, now).value;
      c in s.conns && s.conns[c].to == e && Boundary(s.conns[c])
  {
    hide Runs, Exec, Boundary, C.KeyOf;
    StartInv();
    RunKeeps(START, t);
    OfferedFor(Exec(START, t), e, ageMs, now);
    Given(Exec(START, t).pool.idle, e.Key(), ageMs, now);
  }

  lemma StartInv()
    ensures Inv(START)
  {
    hide Boundary;
    assert P.IdleSet(P.EMPTY.idle) == {};
  }

  // ---- In terms of the grammar -------------------------------------------------------

  function Texts(xs: seq<ResponseGrammar.Exchange>): string {
    if xs == [] then "" else xs[0].Text() + Texts(xs[1..])
  }

  /** An exchange that answers the request and leaves the connection open. */
  ghost predicate Answers(x: ResponseGrammar.Exchange, headRequest: bool, breaks: bool) {
    x.Valid(headRequest, "", breaks) && !x.body.UntilClose?
  }

  /** What has been taken off a connection at a boundary is whole exchanges, one for each request
      asked over it. */
  lemma {:induction false} WholeExchanges(sent: string, ch: Channel, p: nat, asked: seq<bool>, q: nat)
    returns (xs: seq<ResponseGrammar.Exchange>)
    requires After(sent, ch, p, asked) == Some(q) && MAX_HEAD <= ch.maxLine
    ensures |xs| == |asked| && forall i :: 0 <= i < |xs| ==> Answers(xs[i], asked[i], ch.breaks)
    ensures p <= q <= |sent| && sent[p..q] == Texts(xs)
    decreases |asked|
  {
    hide Respond, After, Answers, ResponseGrammar.Exchange.Text;
    AfterFirst(sent, ch, p, asked);
    xs := [];
    if asked == [] {
      assert sent[p..q] == "";
    } else {
      var o := Respond(sent[p..], ch, asked[0]);
      var more := WholeExchanges(sent, ch, p + o.consumed, asked[1..], q);
      var x := OneExchange(sent[p..], ch, asked[0]);
      xs := [x] + more;
      assert xs[0] == x && xs[1..] == more;
      Spliced(sent, p, p + o.consumed, q);
    }
  }

  /** So in every run the bytes taken off a connection in the pool are whole exchanges, one for
      each request asked over it, in order. */
  lemma IdleTookWholeExchanges(t: seq<Action>, c: nat) returns (xs: seq<ResponseGrammar.Exchange>)
    requires Runs(START, t) && c in Idle(Exec(START, t))
    ensures var s := Exec(START, t);
      && c in s.conns && s.conns[c].pos <= |s.conns[c].sent|
      && var x := s.conns[c];
         && |xs| == |x.asked| && (forall i :: 0 <= i < |xs| ==> Answers(xs[i], x.asked[i], x.breaks))
         && x.sent[..x.pos] == Texts(xs)
  {
    IdleAtBoundary(t, c);
    hide Runs, Exec, Idle, After, Texts, Answers;
    var x := Exec(START, t).conns[c];
    xs := WholeExchanges(x.sent, x.Chan(), 0, x.asked, x.pos);
    assert x.sent[0..x.pos] == x.sent[..x.pos];
  }

  lemma AfterFirst(sent: string, ch: Channel, p: nat, asked: seq<bool>)
    requires After(sent, ch, p, asked).Some?
    ensures p <= |sent|
    ensures asked == [] ==> After(sent, ch, p, asked) == Some(p)
    ensures asked != [] ==>
      var o := Respond(sent[p..], ch, asked[0]);
      o.Parsed? && o.reusable && After(sent, ch, p, asked) == After(sent, ch, p + o.consumed, asked[1..])
  {
    hide Respond;
  }

  lemma Spliced(s: string, p: nat, m: nat, q: nat)
    requires p <= m <= q <= |s|
    ensures s[p..q] == s[p..][..m - p] + s[m..q]
  {
  }

  lemma OneExchange(s: string, ch: Channel, headRequest: bool) returns (x: ResponseGrammar.Exchange)
    requires MAX_HEAD <= ch.maxLine
    requires var o := Respond(s, ch, headRequest); o.Parsed? && o.reusable && o.consumed <= |s|
    ensures Answers(x, headRequest, ch.breaks) && s[..Respond(s, ch, headRequest).consumed] == x.Text()
  {
    hide Respond, Heads;
    x := ExchangeOf(s, ch, headRequest);
    var o := Respond(s, ch, headRequest);
    assert o.consumed == |x.Text()|;
    assert (x.Text() + o.rest)[..|x.Text()|] == x.Text();
  }
}
