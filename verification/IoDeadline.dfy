/** `DeadlineSweeper` and `IoDeadline` of Soccer/includes/IoDeadline.h as objects: `sweepOnce`, one
    pass over the armed deadlines that fires what is due and compacts the list in place; `add`;
    and an owner's arming, disarming and moving. */
module IoDeadline {
  import DeadlineRuns

  class DeadlineGuard {
    var over: bool
    var fired: bool

    constructor ()
      ensures !over && !fired
    {
      over, fired := false, false;
    }
  }

  /** The socket slot a stream-armed deadline watches: gone with its stream, else owning `fd`. */
  class SocketSlot {
    var gone: bool
    var fd: int
    var shutDown: bool

    /** Shut the socket down if the slot still owns `f`. */
    method ShutdownIf(f: int) returns (done: bool)
      modifies this`shutDown
      ensures done <==> !gone && fd == f
      ensures shutDown == (old(shutDown) || done)
    {
      done := !gone && fd == f;
      if done { shutDown := true; }
    }
  }

  /** `watch` is set for an entry armed through a stream; the raw `fd` is never touched then. */
  datatype Entry = Entry(g: DeadlineGuard, fd: int, due: int, watch: SocketSlot?)

  predicate Dropped(e: Entry, now: int)
    reads e.g`over, (if e.watch != null then {e.watch} else {})`gone, (if e.watch != null then {e.watch} else {})`fd
  {
    e.g.over || (e.watch != null && e.watch.gone) || e.due <= now
  }

  /** The entry shuts a socket down in a pass at `now`. */
  predicate Fires(e: Entry, now: int)
    reads e.g`over, (if e.watch != null then {e.watch} else {})`gone, (if e.watch != null then {e.watch} else {})`fd
  {
    !e.g.over && e.due <= now && (e.watch != null ==> !e.watch.gone && e.watch.fd == e.fd)
  }

  /** The entry as a deadline of the runs, with `n` sockets shut down for it. */
  ghost function View(e: Entry, n: nat): DeadlineRuns.Guard
    reads e.g
  {
    DeadlineRuns.Guard(e.due, e.watch == null, e.g.over, e.g.fired, n, false, false)
  }

  /** A visit is the visit of the runs, its firing included: the entry is dropped, marked fired and
      shut down exactly as there. */
  lemma VisitIsRunVisit(e: Entry, now: int, n: nat)
    ensures var one := DeadlineRuns.VisitOne(View(e, n), now, e.watch != null && e.watch.gone,
                                             e.watch != null && e.watch.fd == e.fd);
      && (0 !in one.entries <==> Dropped(e, now))
      && one.guards[0].(lost := false) ==
         View(e, n).(fired := e.g.fired || Fires(e, now), shuts := n + if Fires(e, now) then 1 else 0)
  {
  }

  // ---- Picking entries ---------------------------------------------------------------

  /** Of the first `n` entries those picked, in order. */
  function Picked(es: seq<Entry>, pick: seq<bool>, n: nat): seq<Entry>
    requires n <= |es| == |pick|
  {
    if n == 0 then [] else Picked(es, pick, n - 1) + if pick[n - 1] then [es[n - 1]] else []
  }

  ghost function PickedBefore(pick: seq<bool>, n: nat): set<nat>
    requires n <= |pick|
  {
    set j: nat | j < n && pick[j]
  }

  lemma PickedBeforeNext(pick: seq<bool>, n: nat)
    requires n < |pick|
    ensures |PickedBefore(pick, n + 1)| == |PickedBefore(pick, n)| + if pick[n] then 1 else 0
  {
    if pick[n] {
      assert PickedBefore(pick, n + 1) == PickedBefore(pick, n) + {n};
    } else {
      assert PickedBefore(pick, n + 1) == PickedBefore(pick, n);
    }
  }

  /** Every picked entry is there, behind exactly those picked before it, and nothing else is. */
  lemma {:induction false} PickedExactly(es: seq<Entry>, pick: seq<bool>, n: nat)
    requires n <= |es| == |pick|
    ensures |Picked(es, pick, n)| == |PickedBefore(pick, n)|
    ensures forall i :: 0 <= i < n && pick[i] ==>
      |PickedBefore(pick, i)| < |Picked(es, pick, n)| && Picked(es, pick, n)[|PickedBefore(pick, i)|] == es[i]
  {
    if n > 0 {
      hide PickedBefore;
      PickedExactly(es, pick, n - 1);
      PickedBeforeNext(pick, n - 1);
    } else {
      assert PickedBefore(pick, 0) == {};
    }
  }

  lemma {:induction false} PickedIn(es: seq<Entry>, pick: seq<bool>, n: nat, e: Entry)
    requires n <= |es| == |pick|
    ensures e in Picked(es, pick, n) <==> exists i :: 0 <= i < n && pick[i] && es[i] == e
  {
    if n > 0 { PickedIn(es, pick, n - 1, e); }
  }

  lemma {:induction false} PickedSame(es: seq<Entry>, pick: seq<bool>, fs: seq<Entry>, qick: seq<bool>, n: nat)
    requires n <= |es| == |pick| && n <= |fs| == |qick| && es[..n] == fs[..n] && pick[..n] == qick[..n]
    ensures Picked(es, pick, n) == Picked(fs, qick, n)
  {
    if n > 0 {
      assert es[n - 1] == es[..n][n - 1] == fs[..n][n - 1] == fs[n - 1];
      assert pick[n - 1] == pick[..n][n - 1] == qick[..n][n - 1] == qick[n - 1];
      assert es[..n - 1] == es[..n][..n - 1] == fs[..n][..n - 1] == fs[..n - 1];
      assert pick[..n - 1] == pick[..n][..n - 1] == qick[..n][..n - 1] == qick[..n - 1];
      PickedSame(es, pick, fs, qick, n - 1);
    }
  }

  ghost function Count(es: seq<Entry>, e: Entry): nat { multiset(es)[e] }

  lemma CountNext(es: seq<Entry>, pick: seq<bool>, n: nat, e: Entry)
    requires n < |es| == |pick|
    ensures Count(Picked(es, pick, n + 1), e) == Count(Picked(es, pick, n), e) + if pick[n] && es[n] == e then 1 else 0
    ensures Count(es[..n + 1], e) == Count(es[..n], e) + if es[n] == e then 1 else 0
  {
    assert es[..n + 1] == es[..n] + [es[n]];
  }

  lemma CountNone(es: seq<Entry>, pick: seq<bool>, e: Entry)
    requires |es| == |pick|
    ensures Count(Picked(es, pick, 0), e) == 0 == Count(es[..0], e)
  {
    assert es[..0] == [];
  }

  /** Two disjoint picks: together no entry more often than it was there, and one that is always
      in either, exactly as often. */
  lemma {:induction false} PickedCounts(es: seq<Entry>, a: seq<bool>, b: seq<bool>, n: nat, e: Entry)
    requires n <= |es| == |a| == |b| && forall i :: 0 <= i < n ==> !(a[i] && b[i])
    ensures Count(Picked(es, a, n), e) + Count(Picked(es, b, n), e) <= Count(es[..n], e)
    ensures (forall i :: 0 <= i < n && es[i] == e ==> a[i] || b[i]) ==>
      Count(Picked(es, a, n), e) + Count(Picked(es, b, n), e) == Count(es[..n], e)
  {
    hide Count, Picked;
    if n == 0 {
      CountNone(es, a, e);
      CountNone(es, b, e);
    } else {
      PickedCounts(es, a, b, n - 1, e);
      CountNext(es, a, n - 1, e);
      CountNext(es, b, n - 1, e);
    }
  }

  /** One of the first `n` entries fires for guard `g`. */
  predicate FiredBy(es: seq<Entry>, fire: seq<bool>, n: nat, g: DeadlineGuard)
    requires n <= |es| == |fire|
  {
    n > 0 && ((fire[n - 1] && es[n - 1].g == g) || FiredBy(es, fire, n - 1, g))
  }

  lemma {:induction false} FiredByMeaning(es: seq<Entry>, fire: seq<bool>, n: nat, g: DeadlineGuard)
    requires n <= |es| == |fire|
    ensures FiredBy(es, fire, n, g) <==> exists i :: 0 <= i < n && fire[i] && es[i].g == g
  {
    if n > 0 { FiredByMeaning(es, fire, n - 1, g); }
  }

  /** Before the `i`-th entry is visited: those that stayed are in front, the rest is as it was. */
  ghost predicate InPlace(list: seq<Entry>, keep: nat, i: nat, es: seq<Entry>, stay: seq<bool>) {
    && keep <= i <= |list| == |es| == |stay|
    && list[..keep] == Picked(es, stay, i) && list[i..] == es[i..]
  }

  lemma NextInPlace(list: seq<Entry>, keep: nat, i: nat, es: seq<Entry>, stay: seq<bool>)
    requires InPlace(list, keep, i, es, stay) && i < |list|
    ensures list[i] == es[i]
  {
    assert list[i] == list[i..][0] == es[i..][0];
  }

  /** An entry that stays moves to the front, behind those that stayed before it. */
  method Compact(list: seq<Entry>, keep: nat, i: nat, dropIt: bool, ghost es: seq<Entry>, ghost stay: seq<bool>)
    returns (l: seq<Entry>, k: nat)
    requires InPlace(list, keep, i, es, stay) && i < |list| == |stay| && dropIt == !stay[i]
    ensures InPlace(l, k, i + 1, es, stay) && |l| == |list| && k <= |l|
  {
    l, k := list, keep;
    NextInPlace(list, keep, i, es, stay);
    if !dropIt {
      if k != i { l := l[k := l[i]]; }
      k := k + 1;
      assert l[..k] == list[..keep] + [list[i]];
    }
    assert l[i + 1..] == list[i..][1..];
  }

  /** What has been shut down in a pass before the `i`-th entry is visited. */
  ghost predicate ShutBy(shuts: seq<Entry>, before: seq<Entry>, i: nat, es: seq<Entry>, fire: seq<bool>) {
    i <= |es| == |fire| && shuts == before + Picked(es, fire, i)
  }

  lemma ShutNext(shuts: seq<Entry>, before: seq<Entry>, i: nat, es: seq<Entry>, fire: seq<bool>)
    requires ShutBy(shuts, before, i, es, fire) && i < |es|
    ensures |es| == |fire| && ShutBy(shuts + if fire[i] then [es[i]] else [], before, i + 1, es, fire)
  {
  }

  /** Which entries stay in a pass at `now`, and which of the others fire. */
  lemma {:induction false} Judged(es: seq<Entry>, now: int) returns (stay: seq<bool>, fire: seq<bool>)
    ensures |stay| == |fire| == |es|
    ensures forall i :: 0 <= i < |es| ==> (stay[i] <==> !Dropped(es[i], now)) && (fire[i] <==> Fires(es[i], now))
  {
    stay, fire := [], [];
    if es != [] {
      var n := |es| - 1;
      stay, fire := Judged(es[..n], now);
      assert forall i :: 0 <= i < n ==> es[..n][i] == es[i];
      stay, fire := stay + [!Dropped(es[n], now)], fire + [Fires(es[n], now)];
    }
  }

  class DeadlineSweeper {
    var entries: seq<Entry>
    var running: bool
    /** The entries a socket has been shut down for, in order. */
    ghost var shuts: seq<Entry>

    /** One entry, under its guard's mutex. */
    method Visit(e: Entry, now: int) returns (dropIt: bool, ghost fires: bool)
      modifies e.g`fired, this`shuts, (if e.watch != null then {e.watch} else {})`shutDown
      ensures dropIt <==> Dropped(e, now)
      ensures fires <==> Fires(e, now)
      ensures e.g.fired == (old(e.g.fired) || fires)
      ensures shuts == old(shuts) + if fires then [e] else []
      ensures e.watch != null ==> e.watch.shutDown == (old(e.watch.shutDown) || fires)
    {
      dropIt, fires := false, Fires(e, now);
      if e.g.over {
        dropIt := true;
      } else if e.watch != null && e.watch.gone {
        dropIt := true;
      } else if e.due <= now {
        if e.watch != null {
          var done := e.watch.ShutdownIf(e.fd);
          if done {
            shuts := shuts + [e];
            e.g.fired := true;
          }
        } else {
          e.g.fired := true;
          shuts := shuts + [e];
        }
        dropIt := true;
      }
    }

    /** The loop of a pass: visits every entry and moves those that stay to the front. */
    method VisitAll(now: int, ghost stay: seq<bool>, ghost fire: seq<bool>)
      requires |stay| == |fire| == |entries|
      requires forall i :: 0 <= i < |entries| ==>
        (stay[i] <==> !Dropped(entries[i], now)) && (fire[i] <==> Fires(entries[i], now))
      modifies this`entries, this`shuts, (set e | e in entries :: e.g)`fired
      modifies (set e | e in entries && e.watch != null :: e.watch)`shutDown
      ensures entries == Picked(old(entries), stay, |stay|)
      ensures shuts == old(shuts) + Picked(old(entries), fire, |fire|)
      ensures forall i :: 0 <= i < |fire| ==>
        (old(entries)[i].g.fired <==> old(entries[i].g.fired) || FiredBy(old(entries), fire, |fire|, old(entries)[i].g))
    {
      ghost var es := entries;
      var list, keep := entries, 0;
      assert InPlace(list, keep, 0, es, stay) && ShutBy(shuts, shuts, 0, es, fire);
      hide InPlace, ShutBy;
      for i := 0 to |list|
        invariant |list| == |es| && 0 <= keep <= |list| && entries == es
        invariant InPlace(list, keep, i, es, stay) && ShutBy(shuts, old(shuts), i, es, fire)
        invariant forall j :: 0 <= j < |es| ==>
          (es[j].g.fired <==> old(es[j].g.fired) || FiredBy(es, fire, i, es[j].g))
      {
        var e := list[i];
        NextInPlace(list, keep, i, es, stay);
        ShutNext(shuts, old(shuts), i, es, fire);
        var dropIt, fires := Visit(e, now);
        assert fires == fire[i] && dropIt == !stay[i];
        list, keep := Compact(list, keep, i, dropIt, es, stay);
      }
      entries := list[..keep];
      Passed(list, keep, shuts, old(shuts), es, stay, fire);
    }

    /** One pass. Exactly the entries that are over, orphaned or due leave the list and the rest
        keep their order; a guard is marked fired exactly when one of its entries fires; only
        those entries shut anything down; and the sweeper stops running when nothing is left. */
    method SweepOnce(now: int) returns (more: bool, ghost stay: seq<bool>, ghost fire: seq<bool>)
      modifies this, (set e | e in entries :: e.g)`fired
      modifies (set e | e in entries && e.watch != null :: e.watch)`shutDown
      ensures |stay| == |fire| == |old(entries)|
      ensures forall i :: 0 <= i < |stay| ==> var e := old(entries)[i];
        (stay[i] <==> !e.g.over && now < e.due && (e.watch != null ==> !e.watch.gone))
      ensures forall i :: 0 <= i < |fire| ==> var e := old(entries)[i];
        (fire[i] <==> !e.g.over && e.due <= now && (e.watch != null ==> !e.watch.gone && e.watch.fd == e.fd))
      ensures entries == Picked(old(entries), stay, |stay|)
      ensures shuts == old(shuts) + Picked(old(entries), fire, |fire|)
      ensures forall i :: 0 <= i < |fire| ==> var g := old(entries)[i].g;
        (g.fired <==> old(entries[i].g.fired) || exists j :: 0 <= j < |fire| && fire[j] && old(entries)[j].g == g)
      ensures more <==> entries != []
      ensures running == (old(running) && more)
    {
      hide Picked, FiredBy;
      ghost var es := entries;
      stay, fire := Judged(es, now);
      VisitAll(now, stay, fire);
      forall j | 0 <= j < |es| ensures FiredBy(es, fire, |es|, es[j].g) <==>
          exists k :: 0 <= k < |es| && fire[k] && es[k].g == es[j].g {
        FiredByMeaning(es, fire, |es|, es[j].g);
      }
      more := entries != [];
      if !more { running := false; }
    }

    /** How often a socket has been shut down for the entry, and how often it still waits. */
    ghost function Tally(e: Entry): nat
      reads this
    {
      Count(shuts, e) + Count(entries, e)
    }

    /** A pass, deadline by deadline: what is shut down was armed, is not over and is due; a flag
        once set stays, and none is set that is over; and a live deadline on a bare descriptor
        waits exactly until it is due, and then is fired and shut down once. */
    method Pass(now: int) returns (more: bool)
      modifies this, (set e | e in entries :: e.g)`fired
      modifies (set e | e in entries && e.watch != null :: e.watch)`shutDown
      ensures old(shuts) <= shuts && forall e :: e in entries ==> e in old(entries)
      ensures forall k :: |old(shuts)| <= k < |shuts| ==>
        var e := shuts[k]; e in old(entries) && !e.g.over && e.due <= now
      ensures forall e :: e in old(entries) ==>
        (old(e.g.fired) ==> e.g.fired) && (e.g.fired && e.g.over ==> old(e.g.fired))
      ensures forall e :: e in old(entries) + old(shuts) && !e.g.over && e.watch == null ==> Tally(e) == old(Tally(e))
      ensures forall e :: e in old(entries) && !e.g.over && e.watch == null ==>
        (e in entries <==> now < e.due) && (e in entries || (e in shuts && e.g.fired))
      ensures more <==> entries != []
    {
      hide Picked;
      ghost var es, was := entries, shuts;
      ghost var stay, fire;
      more, stay, fire := SweepOnce(now);
      forall e | e in es + was
        ensures e in entries <==> exists i :: 0 <= i < |es| && stay[i] && es[i] == e
        ensures e in shuts <==> e in was || exists i :: 0 <= i < |es| && fire[i] && es[i] == e
        ensures !e.g.over && e.watch == null ==> Tally(e) == Count(was, e) + Count(es, e)
      {
        PickedIn(es, stay, |es|, e);
        PickedIn(es, fire, |es|, e);
        PickedCounts(es, stay, fire, |es|, e);
        assert es[..|es|] == es;
      }
      forall k | |was| <= k < |shuts| ensures var e := shuts[k]; e in es && !e.g.over && e.due <= now {
        PickedIn(es, fire, |es|, shuts[k]);
      }
      forall e | e in entries ensures e in es {
        PickedIn(es, stay, |es|, e);
      }
    }

    /** The passes at the times `nows`, up to the one that leaves nothing. Whatever is shut down was
        armed, is not over and has come due; a deadline that is over keeps its flag; a live one on
        a bare descriptor is, as often as it was armed, shut down or still waiting, and it waits
        only while no pass has come at or after its time. */
    method SweepLoop(nows: seq<int>)
      modifies this, (set e | e in entries :: e.g)`fired
      modifies (set e | e in entries && e.watch != null :: e.watch)`shutDown
      ensures old(shuts) <= shuts && forall e :: e in entries ==> e in old(entries)
      ensures forall k :: |old(shuts)| <= k < |shuts| ==>
        var e := shuts[k]; e in old(entries) && !e.g.over && exists j :: 0 <= j < |nows| && e.due <= nows[j]
      ensures forall e :: e in old(entries) && e.g.over ==> e.g.fired == old(e.g.fired)
      ensures forall e :: e in old(entries) && !e.g.over && e.watch == null ==>
        && Tally(e) == old(Tally(e))
        && (e in entries ==> forall j :: 0 <= j < |nows| ==> nows[j] < e.due)
        && (e !in entries ==> e.g.fired)
    {
      hide Tally;
      var i := 0;
      while i < |nows|
        invariant i <= |nows| && old(shuts) <= shuts && forall e :: e in entries ==> e in old(entries)
        invariant forall k :: |old(shuts)| <= k < |shuts| ==>
          var e := shuts[k]; e in old(entries) && !e.g.over && exists j :: 0 <= j < |nows| && e.due <= nows[j]
        invariant forall e :: e in old(entries) && e.g.over ==> e.g.fired == old(e.g.fired)
        invariant forall e :: e in old(entries) && !e.g.over && e.watch == null ==>
          && Tally(e) == old(Tally(e))
          && (e in entries ==> forall j :: 0 <= j < i ==> nows[j] < e.due)
          && (e in entries || (e in shuts && e.g.fired))
      {
        var more := Pass(nows[i]);
        i := i + 1;
        if !more { break; }
      }
    }

    /** Arm an entry. `spawns` says whether `coSpawn` succeeds; if the sweeper must be started
        and is not, the entry is taken out again, `running` is withdrawn and the call throws. */
    method Add(e: Entry, spawns: bool) returns (threw: bool)
      modifies this`entries, this`running
      ensures threw <==> !old(running) && !spawns
      ensures !threw ==> running && entries == old(entries) + [e]
      ensures threw ==> !running && entries == Without(old(entries), e.g)
    {
      entries := entries + [e];
      var spawn := !running;
      running := true;
      threw := spawn && !spawns;
      if threw {
        running := false;
        WithoutAppend(old(entries), e);
        Erase(e.g);
      }
    }

    /** `std::erase_if` on a guard's entries. */
    method Erase(g: DeadlineGuard)
      modifies this`entries
      ensures entries == Without(old(entries), g)
    {
      var left := [];
      for i := 0 to |entries|
        invariant entries == old(entries) && left == Picked(entries, OfOthers(entries, g), i)
      {
        if entries[i].g != g { left := left + [entries[i]]; }
      }
      entries := left;
    }
  }

  lemma Passed(list: seq<Entry>, keep: nat, shuts: seq<Entry>, before: seq<Entry>,
               es: seq<Entry>, stay: seq<bool>, fire: seq<bool>)
    requires InPlace(list, keep, |es|, es, stay) && ShutBy(shuts, before, |es|, es, fire)
    ensures keep <= |list| && |es| == |stay| == |fire|
    ensures list[..keep] == Picked(es, stay, |es|) && shuts == before + Picked(es, fire, |es|)
  {
  }

  /** Which entries belong to other guards. */
  function OfOthers(es: seq<Entry>, g: DeadlineGuard): seq<bool> {
    seq(|es|, i requires 0 <= i < |es| => es[i].g != g)
  }

  /** The entries of other guards, in order. */
  function Without(es: seq<Entry>, g: DeadlineGuard): seq<Entry> {
    Picked(es, OfOthers(es, g), |es|)
  }

  lemma WithoutAppend(es: seq<Entry>, e: Entry)
    ensures Without(es + [e], e.g) == Without(es, e.g)
  {
    var more := es + [e];
    assert more[..|es|] == es[..|es|];
    assert OfOthers(more, e.g)[..|es|] == OfOthers(es, e.g)[..|es|];
    PickedSame(more, OfOthers(more, e.g), es, OfOthers(es, e.g), |es|);
  }

  /** The `IoDeadline` object of one owner. */
  class Deadline {
    var guard: DeadlineGuard?
    var firedBefore: bool

    constructor ()
      ensures guard == null && !Expired()
    {
      guard, firedBefore := null, false;
    }

    predicate Expired()
      reads this, guard
    {
      firedBefore || (guard != null && guard.fired)
    }

    /** Sets `over` first and reads `fired` after, so that no firing is missed. */
    method Disarm()
      modifies this, (if guard != null then {guard} else {})`over
      ensures guard == null && (old(guard) != null ==> old(guard).over)
      ensures Expired() == old(Expired())
    {
      if guard == null { return; }
      guard.over := true;
      if guard.fired { firedBefore := true; }
      guard := null;
    }

    /** A new deadline replaces the earlier one, which is over whatever happens; a limit that is
        not positive, a bad descriptor and a failed start leave nothing armed. */
    method Arm(sweeper: DeadlineSweeper, fd: int, limit: int, now: int, watch: SocketSlot?, spawns: bool)
      returns (threw: bool)
      modifies this, (if guard != null then {guard} else {})`over, sweeper`entries, sweeper`running
      ensures Expired() == old(Expired())
      ensures old(guard) != null ==> old(guard).over
      ensures threw <==> limit > 0 && fd >= 0 && !old(sweeper.running) && !spawns
      ensures guard != null <==> limit > 0 && fd >= 0 && !threw
      ensures guard != null ==> fresh(guard) && !guard.over && sweeper.running
      ensures guard != null ==> sweeper.entries == old(sweeper.entries) + [Entry(guard, fd, now + limit, watch)]
      ensures guard == null ==> sweeper.entries == old(sweeper.entries) && sweeper.running == old(sweeper.running)
    {
      Disarm();
      threw := false;
      if limit <= 0 || fd < 0 { return; }
      var g := new DeadlineGuard();
      guard := g;
      threw := sweeper.Add(Entry(g, fd, now + limit, watch), spawns);
      if threw {
        NoneOf(old(sweeper.entries), g, |old(sweeper.entries)|);
        assert old(sweeper.entries)[..|old(sweeper.entries)|] == old(sweeper.entries);
        guard := null;
      }
    }

    /** Move assignment: whatever had expired on either side has expired here, and the other
        instance is empty. */
    method MoveFrom(o: Deadline)
      modifies this, o, (if guard != null then {guard} else {})`over
      ensures this == o ==> guard == old(guard) && Expired() == old(Expired())
      ensures this != o ==> guard == old(o.guard) && o.guard == null && !o.Expired()
      ensures this != o ==> Expired() == old(Expired() || o.Expired())
      ensures this != o && old(guard) != null ==> old(guard).over
    {
      if this != o {
        Disarm();
        guard := o.guard;
        firedBefore := firedBefore || o.firedBefore;
        o.firedBefore := false;
        o.guard := null;
      }
    }
  }

  /** What an owner is promised: once disarmed, a deadline that has not fired never does, and no
      later pass shuts anything down for it. */
  method DisarmThenSweep(d: Deadline, s: DeadlineSweeper, nows: seq<int>)
    requires d.guard != null
    modifies d, d.guard`over, s, (set e | e in s.entries :: e.g)`fired
    modifies (set e | e in s.entries && e.watch != null :: e.watch)`shutDown
    ensures old(s.shuts) <= s.shuts && old(d.guard).fired == old(d.guard.fired)
    ensures forall k :: |old(s.shuts)| <= k < |s.shuts| ==> s.shuts[k].g != old(d.guard)
  {
    d.Disarm();
    s.SweepLoop(nows);
  }

  lemma {:induction false} NoneOf(es: seq<Entry>, g: DeadlineGuard, n: nat)
    requires n <= |es| && forall e <- es :: e.g != g
    ensures Picked(es, OfOthers(es, g), n) == es[..n]
  {
    if n > 0 {
      NoneOf(es, g, n - 1);
      assert es[..n] == es[..n - 1] + [es[n - 1]];
    }
  }
}
