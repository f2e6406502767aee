/** How long a row can stay in the table past its expiry, in runs of the concurrent protocol
    with a sweeper among its threads. */
module Lingering {
  import opened Common
  import opened Table
  import opened Machine
  import opened Safety
  import opened Readers
  import opened Refinement
  import opened Settings

  // ---- Rows come from commits ------------------------------------------------------

  /** The event is an INSERT or an UPDATE that puts `u` into the table. */
  predicate Stores(s: System, e: Event, u: Upload) {
    StoredBy(s, e).Some? && StoredBy(s, e).value.0 == u
  }

  /** What the clock showed when the run last stored `u`. */
  function StoredTime(s: System, es: seq<Event>, u: Upload): Option<int>
    decreases |es|
  {
    if es == [] then None
    else
      var t := Exec(s, es[..|es| - 1]);
      if Stores(t, es[|es| - 1], u) then Some(t.now) else StoredTime(s, es[..|es| - 1], u)
  }

  /** `u` was stored in the run, when the clock showed `from` or later. */
  predicate StoredSince(s: System, es: seq<Event>, u: Upload, from: int) {
    StoredTime(s, es, u).Some? && StoredTime(s, es, u).value >= from
  }

  /** A row after an event was there before it, or the event stored it. */
  lemma RowsFrom(s: System, e: Event, slug: string)
    requires Safe(s) && slug in Apply(s, e).store.rows
    ensures var u := Apply(s, e).store.rows[slug];
            (slug in s.store.rows && s.store.rows[slug] == u) || Stores(s, e, u)
  {
    hide Apply, StoredBy, Safe;
    OnlyCommitStores(s, e, slug);
  }

  lemma {:induction false} ClockForward(s: System, es: seq<Event>)
    ensures Exec(s, es).now >= s.now
    decreases |es|
  {
    if es != [] {
      ClockForward(s, es[..|es| - 1]);
    }
  }

  lemma {:induction false} StoredPast(s: System, es: seq<Event>, u: Upload)
    ensures StoredTime(s, es, u).Some? ==> StoredTime(s, es, u).value <= Exec(s, es).now
    decreases |es|
  {
    if es != [] {
      StoredPast(s, es[..|es| - 1], u);
    }
  }

  lemma StoredEarlier(s: System, es: seq<Event>, u: Upload, from: int)
    requires es != [] && StoredSince(s, es[..|es| - 1], u, from)
    ensures StoredSince(s, es, u, from)
  {
    StoredPast(s, es[..|es| - 1], u);
  }

  lemma StoredSooner(s: System, es: seq<Event>, u: Upload, from: int, sooner: int)
    requires StoredSince(s, es, u, from) && sooner <= from
    ensures StoredSince(s, es, u, sooner)
  {
  }

  lemma StoredLast(s: System, es: seq<Event>, u: Upload, from: int)
    requires es != [] && Stores(Exec(s, es[..|es| - 1]), es[|es| - 1], u) && Exec(s, es[..|es| - 1]).now >= from
    ensures StoredSince(s, es, u, from)
  {
  }

  lemma {:induction false} StoredConcat(s: System, es: seq<Event>, fs: seq<Event>, u: Upload)
    requires StoredTime(Exec(s, es), fs, u).Some?
    ensures StoredTime(s, es + fs, u) == StoredTime(Exec(s, es), fs, u)
    decreases |fs|
  {
    var k := |fs| - 1;
    ExecConcat(s, es, fs[..k]);
    assert (es + fs)[..|es + fs| - 1] == es + fs[..k];
    if !Stores(Exec(s, es + fs[..k]), fs[k], u) {
      StoredConcat(s, es, fs[..k], u);
    }
  }

  /** A row after a run was there before its last event, or was stored in it. */
  lemma OlderOrStored(s: System, es: seq<Event>, slug: string)
    requires Safe(s) && es != [] && slug in Exec(s, es).store.rows
    ensures var t := Exec(s, es[..|es| - 1]);
            var u := Exec(s, es).store.rows[slug];
            || StoredSince(s, es, u, s.now)
            || (slug in t.store.rows && t.store.rows[slug] == u && !StoredSince(s, es[..|es| - 1], u, s.now))
  {
    var pre := es[..|es| - 1];
    var u := Exec(s, es).store.rows[slug];
    SafeRun(s, pre);
    ClockForward(s, pre);
    RowsFrom(Exec(s, pre), es[|es| - 1], slug);
    if Stores(Exec(s, pre), es[|es| - 1], u) {
      StoredLast(s, es, u, s.now);
    } else if StoredSince(s, pre, u, s.now) {
      StoredEarlier(s, es, u, s.now);
    }
  }

  /** What StoredSince says: an INSERT or UPDATE by some thread, at event `i` and no earlier
      than `from`, left `u` in the table. */
  lemma {:induction false} StoredWhen(s: System, es: seq<Event>, u: Upload, from: int) returns (i: nat)
    requires Safe(s) && StoredSince(s, es, u, from)
    ensures i < |es| && es[i].Run?
    ensures var t := Exec(s, es[..i]);
            && from <= t.now && es[i].id in t.threads && t.threads[es[i].id].Commit?
            && u.slug in Apply(t, es[i]).store.rows && Apply(t, es[i]).store.rows[u.slug] == u
    decreases |es|
  {
    i := |es| - 1;
    var pre := es[..i];
    SafeRun(s, pre);
    if !Stores(Exec(s, pre), es[i], u) {
      assert forall j | 0 <= j < |pre| :: pre[..j] == es[..j] && pre[j] == es[j];
      i := StoredWhen(s, pre, u, from);
    }
  }

  // ---- One pass --------------------------------------------------------------------

  /** The listing and the DELETEs of the pass by thread `id` all go through, and nothing
      cancels it. Removing a file may fail, and other threads may do anything. */
  predicate Diligent(s: System, e: Event, id: nat) {
    && Live(e)
    && (e.Run? && e.id == id && id in s.threads && (s.threads[id].List? || s.threads[id].Sweeping?) ==>
          e.c.ok && !e.c.cancelled)
  }

  predicate Sweeps(s: System, id: nat) {
    id in s.threads && IsSweep(s.threads[id])
  }

  /** The pass goes on through the whole of `es`. */
  ghost predicate GoesOn(s: System, es: seq<Event>, id: nat) {
    forall i | 0 <= i < |es| :: Diligent(Exec(s, es[..i]), es[i], id) && Sweeps(Exec(s, es[..i]), id)
  }

  /** The run `es` is one whole pass of the sweep by thread `id`: from before its listing to
      when it is through its list. */
  ghost predicate WholePass(s: System, es: seq<Event>, id: nat) {
    GoesOn(s, es, id) && id in s.threads && s.threads[id].List? && !Sweeps(Exec(s, es), id)
  }

  // ---- A pass can always be completed ----------------------------------------------

  lemma GoesOnThrough(s: System, e: Event, fs: seq<Event>, id: nat)
    requires Diligent(s, e, id) && Sweeps(s, id) && GoesOn(Apply(s, e), fs, id)
    ensures GoesOn(s, [e] + fs, id) && Exec(s, [e] + fs) == Exec(Apply(s, e), fs)
  {
    var es := [e] + fs;
    ExecAppend(s, [], e);
    assert [] + [e] == [e];
    forall i | 0 <= i < |es|
      ensures Diligent(Exec(s, es[..i]), es[i], id) && Sweeps(Exec(s, es[..i]), id)
    {
      if i == 0 {
        assert es[..0] == [];
      } else {
        assert es[..i] == [e] + fs[..i - 1];
        ExecConcat(s, [e], fs[..i - 1]);
      }
    }
    ExecConcat(s, [e], fs);
  }

  function Step(slug: string): Choice {
    Choice(true, false, ANY_SLUG, ANY_SCRATCH, 0, slug)
  }

  lemma OneRowLess(todo: Rows, slug: string)
    requires slug in todo
    ensures |todo - {slug}| < |todo|
  {
    assert (todo - {slug}).Keys == todo.Keys - {slug};
    assert |todo - {slug}| == |(todo - {slug}).Keys| < |todo.Keys| == |todo|;
  }

  lemma RowStep(s: System, id: nat, slug: string)
    requires id in s.threads && s.threads[id].Sweeping? && slug in s.threads[id].todo
    ensures var t := Apply(s, Run(id, Step(slug)));
            && id in t.threads && (t.threads[id].Sweeping? || t.threads[id].SweepFile?)
            && t.threads[id].todo == s.threads[id].todo - {slug}
  {
  }

  lemma FileStep(s: System, id: nat, slug: string)
    requires id in s.threads && s.threads[id].SweepFile?
    ensures var t := Apply(s, Run(id, Step(slug)));
            && id in t.threads && t.threads[id].Sweeping? && t.threads[id].todo == s.threads[id].todo
  {
  }

  lemma SweepOn(s: System, id: nat) returns (es: seq<Event>)
    requires id in s.threads && s.threads[id].Sweeping?
    ensures GoesOn(s, es, id) && !Sweeps(Exec(s, es), id)
    decreases |s.threads[id].todo|
  {
    var todo := s.threads[id].todo;
    if todo == map[] {
      es := [Run(id, Step(""))];
      ExecAppend(s, [], es[0]);
      assert [] + es == es;
      GoesOnThrough(s, es[0], [], id);
    } else {
      hide Apply, GoesOn, Exec;
      var slug :| slug in todo;
      var e := Run(id, Step(slug));
      var t := Apply(s, e);
      RowStep(s, id, slug);
      OneRowLess(todo, slug);
      if t.threads[id].Sweeping? {
        var fs := SweepOn(t, id);
        GoesOnThrough(s, e, fs, id);
        es := [e] + fs;
      } else {
        FileStep(t, id, slug);
        var fs := SweepOn(Apply(t, e), id);
        GoesOnThrough(t, e, fs, id);
        GoesOnThrough(s, e, [e] + fs, id);
        es := [e] + ([e] + fs);
      }
    }
  }

  /** From any state, whatever the sweeper finds, a pass can be brought to its end. */
  lemma PassExists(s: System, id: nat) returns (es: seq<Event>)
    requires id in s.threads && s.threads[id].List?
    ensures WholePass(s, es, id)
  {
    var e := Run(id, Step(""));
    var fs := SweepOn(Apply(s, e), id);
    GoesOnThrough(s, e, fs, id);
    es := [e] + fs;
  }

  // ---- What a pass clears ----------------------------------------------------------

  /** The pass will still come to the row of `slug`. */
  predicate Ahead(s: System, id: nat, slug: string) {
    && id in s.threads
    && match s.threads[id]
       case List => true
       case Sweeping(todo, _) => slug in todo
       case SweepFile(_, todo, _) => slug in todo
       case _ => false
  }

  /** A row that was due when the pass began, that the pass was still to come to, and that
      comes through an event, is still ahead of it. */
  lemma StaysAhead(s: System, e: Event, id: nat, slug: string, start: int)
    requires Safe(s) && Diligent(s, e, id) && Sweeps(s, id) && Ahead(s, id, slug) && start <= s.now
    requires slug in s.store.rows && slug in Apply(s, e).store.rows
    requires Apply(s, e).store.rows[slug] == s.store.rows[slug] && Expired(s.store.rows[slug], start)
    ensures Ahead(Apply(s, e), id, slug)
  {
  }

  lemma {:induction false} PassCovers(s: System, es: seq<Event>, id: nat, slug: string)
    requires Safe(s) && id in s.threads && s.threads[id].List?
    requires GoesOn(s, es, id)
    requires slug in Exec(s, es).store.rows && Expired(Exec(s, es).store.rows[slug], s.now)
    ensures Ahead(Exec(s, es), id, slug) || StoredSince(s, es, Exec(s, es).store.rows[slug], s.now)
    decreases |es|
  {
    if es != [] {
      var k := |es| - 1;
      var pre, e := es[..k], es[k];
      var u := Exec(s, es).store.rows[slug];
      OlderOrStored(s, es, slug);
      if !StoredSince(s, es, u, s.now) {
        SafeRun(s, pre);
        ClockForward(s, pre);
        assert forall i | 0 <= i < k :: pre[..i] == es[..i];
        PassCovers(s, pre, id, slug);
        StaysAhead(Exec(s, pre), e, id, slug, s.now);
      }
    }
  }

  /** When a whole pass is over, every row in the table that had expired by its start was put
      there while it ran. Rows that expire meanwhile are left to the next pass. */
  lemma PassClears(s: System, es: seq<Event>, id: nat, slug: string)
    requires Safe(s) && WholePass(s, es, id) && slug in Exec(s, es).store.rows
    ensures var u := Exec(s, es).store.rows[slug];
            u.uploadedAt + u.ttl <= s.now ==> StoredSince(s, es, u, s.now)
  {
    if Expired(Exec(s, es).store.rows[slug], s.now) {
      PassCovers(s, es, id, slug);
    }
  }

  /** ... and that stays so, whatever happens afterwards, crashes and further boots included. */
  lemma {:induction false} StaysClear(s: System, es: seq<Event>, id: nat, more: seq<Event>, slug: string)
    requires Safe(s) && WholePass(s, es, id) && slug in Exec(s, es + more).store.rows
    ensures var u := Exec(s, es + more).store.rows[slug];
            u.uploadedAt + u.ttl <= s.now ==> StoredSince(s, es + more, u, s.now)
    decreases |more|
  {
    if more == [] {
      assert es + more == es;
      PassClears(s, es, id, slug);
    } else {
      var k := |more| - 1;
      var fs := es + more;
      assert fs[..|fs| - 1] == es + more[..k] && fs[|fs| - 1] == more[k];
      hide WholePass, StoredSince;
      OlderOrStored(s, fs, slug);
      if !StoredSince(s, fs, Exec(s, fs).store.rows[slug], s.now) {
        StaysClear(s, es, id, more[..k], slug);
      }
    }
  }

  // ---- The ticker ------------------------------------------------------------------

  /** A pass of the sweeper in a run: by thread `id`, from event `start` to event `end`. */
  datatype Pass = Pass(id: nat, start: nat, end: nat)

  ghost predicate PassIn(s: System, es: seq<Event>, p: Pass) {
    && p.start <= p.end <= |es|
    && WholePass(Exec(s, es[..p.start]), es[p.start..p.end], p.id)
  }

  function TimeAt(s: System, es: seq<Event>, i: nat): int
    requires i <= |es|
  {
    Exec(s, es[..i]).now
  }

  /** The sweeper's loop: pass after pass, none taking longer than `longest`, each begun no
      later than `interval` after the one before it ended; the run ends no later than the
      next pass would. */
  ghost predicate Ticking(s: System, es: seq<Event>, ps: seq<Pass>, interval: nat, longest: nat) {
    && (forall k | 0 <= k < |ps| :: PassIn(s, es, ps[k])
          && TimeAt(s, es, ps[k].end) <= TimeAt(s, es, ps[k].start) + longest)
    && (forall k | 0 <= k < |ps| - 1 :: ps[k].end <= ps[k + 1].start
          && TimeAt(s, es, ps[k + 1].start) <= TimeAt(s, es, ps[k].end) + interval)
    && (ps != [] ==> Exec(s, es).now <= TimeAt(s, es, ps[|ps| - 1].end) + interval + longest)
  }

  lemma ClockBetween(s: System, es: seq<Event>, i: nat, j: nat)
    requires i <= j <= |es|
    ensures TimeAt(s, es, i) <= TimeAt(s, es, j)
  {
    assert es[..j] == es[..i] + es[i..j];
    ExecConcat(s, es[..i], es[i..j]);
    ClockForward(Exec(s, es[..i]), es[i..j]);
  }

  /** The last pass to have ended by event `j`. */
  lemma {:induction false} LastPass(ps: seq<Pass>, j: nat) returns (k: nat)
    requires ps != [] && ps[0].end <= j
    ensures k < |ps| && ps[k].end <= j && (k + 1 < |ps| ==> j < ps[k + 1].end)
    decreases |ps|
  {
    k := |ps| - 1;
    if ps[k].end > j {
      k := LastPass(ps[..k], j);
    }
  }

  /** Not long ago: the time since the last ended pass began is bounded. */
  lemma SinceLastPass(s: System, es: seq<Event>, ps: seq<Pass>, interval: nat, longest: nat, j: nat) returns (p: Pass)
    requires Ticking(s, es, ps, interval, longest) && ps != [] && ps[0].end <= j <= |es|
    ensures PassIn(s, es, p) && p.start <= p.end <= j
    ensures TimeAt(s, es, j) <= TimeAt(s, es, p.start) + interval + 2 * longest
  {
    var k := LastPass(ps, j);
    p := ps[k];
    assert PassIn(s, es, ps[k]);
    hide PassIn, TimeAt;
    if k + 1 < |ps| {
      assert PassIn(s, es, ps[k + 1]);
      ClockBetween(s, es, j, PassEnd(s, es, ps[k + 1]));
    } else {
      ClockBetween(s, es, j, |es|);
      WholeTime(s, es);
    }
  }

  lemma WholeTime(s: System, es: seq<Event>)
    ensures TimeAt(s, es, |es|) == Exec(s, es).now
  {
    assert es[..|es|] == es;
  }

  /** The end of a pass, within the run. */
  function PassEnd(s: System, es: seq<Event>, p: Pass): (i: nat)
    requires p.end <= |es|
    ensures i == p.end
  {
    p.end
  }

  lemma StoredInPart(s: System, es: seq<Event>, i: nat, j: nat, u: Upload, from: int)
    requires i <= j <= |es| && StoredSince(Exec(s, es[..i]), es[i..j], u, from)
    ensures StoredSince(s, es[..j], u, from)
  {
    StoredConcat(s, es[..i], es[i..j], u);
    assert es[..j] == es[..i] + es[i..j];
  }

  /** The lingering bound, over every run of a process with any threads beside its sweeper,
      and at every instant `j` from the end of the first pass on: with the configured sweep
      cadence, a row is less than minTTL and two passes past its expiry, or was put into the
      table less than that ago. With instantaneous passes that is one cadence. */
  lemma NoRowLingers(s: System, es: seq<Event>, ps: seq<Pass>, cfg: Config, longest: nat, j: nat, slug: string)
    requires Safe(s) && ConfigOk(cfg) && Ticking(s, es, ps, cfg.minTTL, longest)
    requires ps != [] && ps[0].end <= j <= |es| && slug in Exec(s, es[..j]).store.rows
    ensures var t := Exec(s, es[..j]);
            var u := t.store.rows[slug];
            var bound := cfg.minTTL + 2 * longest;
            t.now < u.uploadedAt + u.ttl + bound || StoredSince(s, es[..j], u, t.now - bound)
  {
    hide Ticking, PassIn, StoredSince, Safe, Exec;
    var p := SinceLastPass(s, es, ps, cfg.minTTL, longest, j);
    SinceThatPass(s, es, p, j, slug);
    var u := Exec(s, es[..j]).store.rows[slug];
    var start := TimeAt(s, es, p.start);
    if Expired(u, start) {
      StoredSooner(s, es[..j], u, start, TimeAt(s, es, j) - (cfg.minTTL + 2 * longest));
    }
  }

  lemma SinceThatPass(s: System, es: seq<Event>, p: Pass, j: nat, slug: string)
    requires Safe(s) && PassIn(s, es, p) && p.end <= j <= |es| && slug in Exec(s, es[..j]).store.rows
    ensures var u := Exec(s, es[..j]).store.rows[slug];
            Expired(u, TimeAt(s, es, p.start)) ==> StoredSince(s, es[..j], u, TimeAt(s, es, p.start))
  {
    hide WholePass, StoredSince, Exec, Safe;
    var t0 := Exec(s, es[..p.start]);
    var pass, more := es[p.start..p.end], es[p.end..j];
    assert es[p.start..j] == pass + more && es[..j] == es[..p.start] + es[p.start..j];
    SafeRun(s, es[..p.start]);
    ExecConcat(s, es[..p.start], es[p.start..j]);
    StaysClear(t0, pass, p.id, more, slug);
    var u := Exec(s, es[..j]).store.rows[slug];
    if Expired(u, t0.now) {
      StoredInPart(s, es, p.start, j, u, t0.now);
    }
  }

  // ---- Every stored TTL is in range ------------------------------------------------

  /** Every request of the run got its TTL from the configuration. */
  predicate Admitted(es: seq<Event>, cfg: Config) {
    forall e | e in es && e.Spawn? ::
      match e.th
      case Create(job) => cfg.minTTL <= job.req.ttl <= cfg.maxTTL
      case Find(_, ToReplace(req)) => cfg.minTTL <= req.ttl <= cfg.maxTTL
      case _ => true
  }

  /** So no row stored in the run has a TTL outside the range. */
  lemma StoredTTLs(s: System, es: seq<Event>, cfg: Config, slug: string)
    requires Safe(s) && s.threads == map[] && Admitted(es, cfg) && slug in Exec(s, es).store.rows
    ensures var u := Exec(s, es).store.rows[slug];
            || (slug in s.store.rows && u == s.store.rows[slug])
            || cfg.minTTL <= u.ttl <= cfg.maxTTL
  {
    RowProvenance(s, es, slug);
    if LastStored(s, es, slug).Some? {
      var i := LastStoredAt(s, es, slug);
      var t := Exec(s, es[..i]);
      SafeRun(s, es[..i]);
      RequestsArrive(s, es[..i], es[i].id);
      assert forall x :: x in es[..i] ==> x in es;
      assert JobOf(t.threads[es[i].id]).Some?;
    }
  }

  lemma FirstPassWithin(s: System, es: seq<Event>, ps: seq<Pass>, interval: nat, longest: nat)
    requires Ticking(s, es, ps, interval, longest) && ps != []
    ensures ps[0].end <= |es| && es[..|es|] == es
  {
    assert PassIn(s, es, ps[0]);
  }

  /** So an upload never outlasts its expiry by more than its own TTL and two passes, counted
      from when it was put into the table if that was later; unless it was there before the
      configuration that would not admit it. */
  lemma LingersNoLongerThanItLived(s: System, es: seq<Event>, ps: seq<Pass>, cfg: Config, longest: nat, slug: string)
    requires Safe(s) && s.threads == map[] && Admitted(es, cfg)
    requires ConfigOk(cfg) && Ticking(s, es, ps, cfg.minTTL, longest) && ps != []
    requires slug in Exec(s, es).store.rows
    ensures var t := Exec(s, es);
            var u := t.store.rows[slug];
            var bound := u.ttl + 2 * longest;
            || t.now < u.uploadedAt + u.ttl + bound || StoredSince(s, es, u, t.now - bound)
            || (slug in s.store.rows && u == s.store.rows[slug] && u.ttl < cfg.minTTL)
  {
    hide Exec, StoredSince, Ticking, Admitted, Safe;
    FirstPassWithin(s, es, ps, cfg.minTTL, longest);
    StoredTTLs(s, es, cfg, slug);
    NoRowLingers(s, es, ps, cfg, longest, |es|, slug);
    var t := Exec(s, es);
    var u := t.store.rows[slug];
    var bound := cfg.minTTL + 2 * longest;
    if cfg.minTTL <= u.ttl && !(t.now < u.uploadedAt + u.ttl + bound) {
      StoredSooner(s, es, u, t.now - bound, t.now - (u.ttl + 2 * longest));
    }
  }
}
