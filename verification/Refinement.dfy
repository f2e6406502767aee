/** Refinement, one slug at a time: as long as no two threads work on that slug at once, and
    whatever happens on others, the interleaved protocol implements the slug's entry of a map
    from slug to (row, bytes) on which each handler acts atomically. */
module Refinement {
  import opened Common
  import opened Names
  import opened Table
  import opened Machine
  import opened Safety
  import opened Phases

  predicate Claims(s: System, id: nat, slug: string) {
    id in s.threads && Claimed(s.threads[id], slug).Some?
  }

  /** No two threads work on `slug`. A sweep works on all it listed, an upload on the slug it
      drew, and a handler that gave up after a storage failure on what it left behind. */
  ghost predicate ExclusiveAt(s: System, slug: string) {
    forall i, j :: Claims(s, i, slug) && Claims(s, j, slug) ==> i == j
  }

  ghost function ClaimAt(s: System, slug: string): Option<Phase> {
    if exists id :: Claims(s, id, slug) then
      var id :| Claims(s, id, slug);
      Claimed(s.threads[id], slug)
    else None
  }

  ghost function PhaseAt(s: System, slug: string): Phase {
    Now(s.store, ClaimAt(s, slug), slug)
  }

  /** The slug's row and files are in the phase its thread claims; if nobody works on it, it
      has a row iff it has a file, then exactly one, at the row's disk name. */
  ghost predicate PhasedAt(s: System, slug: string) {
    Holds(s.store, slug, PhaseAt(s, slug))
  }

  /** The abstract map. */
  ghost function View(s: System, slug: string): Option<Item> {
    PhaseView(s.store, PhaseAt(s, slug))
  }

  function EventOp(s: System, e: Event): Op {
    if e.Run? && e.id in s.threads then OpOf(s.store, s.threads[e.id], e.c) else Nop
  }

  // ---- What can bring two threads to one slug --------------------------------------

  /** The event is a lookup, an INSERT or a sweep's listing that hits `slug`. */
  predicate TakesUp(s: System, e: Event, slug: string) {
    && e.Run? && e.id in s.threads && e.c.ok
    && match s.threads[e.id]
       case Find(sl, intent) => sl == slug && !intent.ToServe? && GetBySlug(s.store.rows, slug, s.now).Some?
       case Commit(job, _, _, _) => job.prev.None? && e.c.slug == slug && slug !in s.store.rows
       case List => slug in ExpiredRows(s.store.rows, s.now)
       case _ => false
  }

  /** ... while another thread is working on it. */
  ghost predicate Contends(s: System, e: Event, slug: string) {
    TakesUp(s, e, slug) && exists j :: j != e.id && Claims(s, j, slug)
  }

  lemma OtherClaims(s: System, id: nat, c: Choice, slug: string)
    requires id in s.threads
    ensures var s' := Apply(s, Run(id, c));
            var n := StepThread(s.store, s.threads[id], s.now, c);
            && s'.store == n.store
            && (forall j | j != id :: Claims(s, j, slug) <==> Claims(s', j, slug))
            && (forall j | j != id && j in s.threads :: j in s'.threads && s'.threads[j] == s.threads[j])
            && (Claims(s', id, slug) <==> PhaseOf(n.th, slug).Some?)
            && (Claims(s', id, slug) ==> Claimed(s'.threads[id], slug) == PhaseOf(n.th, slug))
  {
  }

  lemma LookupTakesUp(s: System, id: nat, c: Choice, slug: string)
    requires RowsOk(s.store.rows) && ValidSlug(slug) && id in s.threads
    requires s.threads[id].Find? || s.threads[id].List?
    ensures PhaseOf(StepThread(s.store, s.threads[id], s.now, c).th, slug).Some? <==> TakesUp(s, Run(id, c), slug)
  {
  }

  lemma CommitTakesUp(s: System, id: nat, c: Choice, slug: string)
    requires ValidSlug(slug) && id in s.threads && s.threads[id].Commit? && !Claims(s, id, slug)
    ensures PhaseOf(StepThread(s.store, s.threads[id], s.now, c).th, slug).Some? <==> TakesUp(s, Run(id, c), slug)
  {
  }

  lemma OthersKeepOff(st: Store, th: Thread, now: int, c: Choice, slug: string)
    requires ThreadOk(th, now) && Claimed(th, slug).None?
    requires !th.Find? && !th.List? && !th.Commit?
    ensures PhaseOf(StepThread(st, th, now, c).th, slug).None?
  {
  }

  lemma TakesUpIff(s: System, id: nat, c: Choice, slug: string)
    requires Safe(s) && ValidSlug(slug) && id in s.threads && !Claims(s, id, slug)
    ensures PhaseOf(StepThread(s.store, s.threads[id], s.now, c).th, slug).Some? <==> TakesUp(s, Run(id, c), slug)
  {
    var th := s.threads[id];
    if th.Find? || th.List? {
      LookupTakesUp(s, id, c, slug);
    } else if th.Commit? {
      CommitTakesUp(s, id, c, slug);
    } else {
      OthersKeepOff(s.store, th, s.now, c, slug);
    }
  }

  /** Exactly these events end exclusive work on a slug. */
  lemma ContendsExactly(s: System, e: Event, slug: string)
    requires Safe(s) && ValidSlug(slug) && ExclusiveAt(s, slug)
    ensures ExclusiveAt(Apply(s, e), slug) <==> !Contends(s, e, slug)
  {
    var s' := Apply(s, e);
    if e.Run? && e.id in s.threads {
      OtherClaims(s, e.id, e.c, slug);
      if !Claims(s, e.id, slug) {
        TakesUpIff(s, e.id, e.c, slug);
      } else {
        assert forall j | j != e.id :: !Claims(s, j, slug) && !Claims(s', j, slug);
      }
    } else {
      assert forall j :: Claims(s', j, slug) ==> Claims(s, j, slug);
    }
  }

  // ---- One event -------------------------------------------------------------------

  lemma ClaimIs(s: System, id: nat, slug: string)
    requires ExclusiveAt(s, slug) && Claims(s, id, slug)
    ensures ClaimAt(s, slug) == Claimed(s.threads[id], slug)
  {
  }

  lemma ClaimSame(s: System, s': System, slug: string)
    requires ExclusiveAt(s, slug) && ExclusiveAt(s', slug)
    requires forall id :: Claims(s, id, slug) <==> Claims(s', id, slug)
    requires forall id | Claims(s, id, slug) && Claims(s', id, slug) ::
               Claimed(s.threads[id], slug) == Claimed(s'.threads[id], slug)
    ensures ClaimAt(s, slug) == ClaimAt(s', slug)
  {
    if id :| Claims(s, id, slug) {
      ClaimIs(s, id, slug);
      ClaimIs(s', id, slug);
    }
  }

  ghost predicate RefinedAt(s: System, e: Event, slug: string) {
    && PhasedAt(Apply(s, e), slug)
    && View(Apply(s, e), slug) == Effect(EventOp(s, e), slug, View(s, slug))
  }

  lemma RunWorked(s: System, id: nat, c: Choice, slug: string)
    requires Safe(s) && ExclusiveAt(s, slug) && PhasedAt(s, slug) && id in s.threads && ValidSlug(slug)
    requires ExclusiveAt(Apply(s, Run(id, c)), slug)
    requires Claims(s, id, slug) || Claims(Apply(s, Run(id, c)), id, slug)
    ensures RefinedAt(s, Run(id, c), slug)
  {
    var s' := Apply(s, Run(id, c));
    OtherClaims(s, id, c, slug);
    assert forall j | j != id :: !Claims(s, j, slug) && !Claims(s', j, slug);
    if Claims(s, id, slug) {
      ClaimIs(s, id, slug);
    }
    if Claims(s', id, slug) {
      ClaimIs(s', id, slug);
    }
    Worked(s.store, s.threads[id], s.now, c, slug);
  }

  lemma RunElsewhere(s: System, id: nat, c: Choice, slug: string)
    requires Safe(s) && ExclusiveAt(s, slug) && PhasedAt(s, slug) && id in s.threads && ValidSlug(slug)
    requires ExclusiveAt(Apply(s, Run(id, c)), slug)
    requires !Claims(s, id, slug) && !Claims(Apply(s, Run(id, c)), id, slug)
    ensures RefinedAt(s, Run(id, c), slug)
  {
    var s' := Apply(s, Run(id, c));
    OtherClaims(s, id, c, slug);
    Elsewhere(s.store, s.threads[id], s.now, c, slug);
    ClaimSame(s, s', slug);
    PhaseAtOk(s, slug);
    Framed(s.store, s'.store, slug, PhaseAt(s, slug));
  }

  lemma PhaseAtOk(s: System, slug: string)
    requires Safe(s) && ValidSlug(slug)
    ensures PhaseOk(PhaseAt(s, slug), slug)
  {
    if id :| Claims(s, id, slug) && ClaimAt(s, slug) == Claimed(s.threads[id], slug) {
      assert ThreadOk(s.threads[id], s.now);
    }
  }

  /** What the operation of an event finds in the map: an upload nothing, a replace or a
      delete the very row it looked up, a sweep the row it listed, expired. */
  predicate Finds(s: System, e: Event, slug: string, was: Option<Item>) {
    Touches(EventOp(s, e), slug) ==>
      match s.threads[e.id]
      case Promote(job, _, _) =>
        if job.prev.None? then was.None? else was.Some? && was.value.u == job.prev.value
      case DropRow(u) => was.Some? && was.value.u == u
      case Sweeping(todo, _) => was.Some? && was.value.u == todo[slug] && Expired(was.value.u, s.now)
      case _ => false
  }

  lemma FindsItsOwn(s: System, e: Event, slug: string)
    requires Safe(s) && ValidSlug(slug) && ExclusiveAt(s, slug)
    ensures Finds(s, e, slug, View(s, slug))
  {
    if Touches(EventOp(s, e), slug) {
      assert ThreadOk(s.threads[e.id], s.now) && Claims(s, e.id, slug);
      ClaimIs(s, e.id, slug);
    }
  }

  predicate Touches(op: Op, slug: string) {
    (op.Put? || op.Del?) && op.slug == slug
  }

  predicate Live(e: Event) {
    e.Spawn? || e.Run? || e.Tick?
  }

  /** One event of the live system is one atomic operation on the slug's entry of the
      abstract map, made on the version its thread looked up, and keeps the slug in phase.
      What is done on other slugs is not assumed to be orderly. */
  lemma StepRefines(s: System, e: Event, slug: string)
    requires Safe(s) && ValidSlug(slug) && ExclusiveAt(s, slug) && PhasedAt(s, slug)
    requires Live(e) && !Contends(s, e, slug)
    ensures ExclusiveAt(Apply(s, e), slug) && PhasedAt(Apply(s, e), slug)
    ensures View(Apply(s, e), slug) == Effect(EventOp(s, e), slug, View(s, slug))
    ensures Finds(s, e, slug, View(s, slug))
  {
    FindsItsOwn(s, e, slug);
    ContendsExactly(s, e, slug);
    if e.Run? && e.id in s.threads {
      if Claims(s, e.id, slug) || Claims(Apply(s, e), e.id, slug) {
        RunWorked(s, e.id, e.c, slug);
      } else {
        RunElsewhere(s, e.id, e.c, slug);
      }
    } else if !e.Run? {
      ClaimSame(s, Apply(s, e), slug);
    }
  }

  // ---- Whole runs ------------------------------------------------------------------

  /** A run of one process lifetime in which nobody takes up `slug` while another works on it. */
  ghost predicate OrderlyAt(s: System, es: seq<Event>, slug: string) {
    forall i | 0 <= i < |es| :: Live(es[i]) && !Contends(Exec(s, es[..i]), es[i], slug)
  }

  /** What the handlers of the run did, as operations on the abstract map. */
  function Replay(s: System, es: seq<Event>, slug: string, was: Option<Item>): Option<Item>
    decreases |es|
  {
    if es == [] then was
    else
      var k := |es| - 1;
      Effect(EventOp(Exec(s, es[..k]), es[k]), slug, Replay(s, es[..k], slug, was))
  }

  lemma OrderlyPrefix(s: System, es: seq<Event>, slug: string, k: nat)
    requires OrderlyAt(s, es, slug) && k <= |es|
    ensures OrderlyAt(s, es[..k], slug)
  {
    assert forall i | 0 <= i < k :: es[..k][..i] == es[..i];
  }

  /** The main refinement theorem, over every interleaving and every pattern of storage
      failures, and with any races on other slugs: the run keeps the slug in phase and its
      abstract entry is what replaying the atomic operations gives. No update is lost: each
      operation is made on the version of the entry that its thread looked up. */
  lemma {:induction false} RunRefines(s: System, es: seq<Event>, slug: string)
    requires Safe(s) && ValidSlug(slug) && ExclusiveAt(s, slug) && PhasedAt(s, slug) && OrderlyAt(s, es, slug)
    ensures ExclusiveAt(Exec(s, es), slug) && PhasedAt(Exec(s, es), slug)
    ensures View(Exec(s, es), slug) == Replay(s, es, slug, View(s, slug))
    ensures NoLostUpdate(s, es, slug)
    decreases |es|
  {
    if es != [] {
      var k := |es| - 1;
      OrderlyPrefix(s, es, slug, k);
      RunRefines(s, es[..k], slug);
      SafeRun(s, es[..k]);
      StepRefines(Exec(s, es[..k]), es[k], slug);
      NoneLostMore(s, es, slug);
    }
  }

  /** Every operation of the run finds, in the map as replayed so far, what its thread did. */
  ghost predicate NoLostUpdate(s: System, es: seq<Event>, slug: string) {
    forall i | 0 <= i < |es| ::
      Finds(Exec(s, es[..i]), es[i], slug, Replay(s, es[..i], slug, View(s, slug)))
  }

  lemma NoneLostMore(s: System, es: seq<Event>, slug: string)
    requires es != [] && NoLostUpdate(s, es[..|es| - 1], slug)
    requires var pre := es[..|es| - 1];
             Finds(Exec(s, pre), es[|es| - 1], slug, Replay(s, pre, slug, View(s, slug)))
    ensures NoLostUpdate(s, es, slug)
  {
    var pre := es[..|es| - 1];
    hide Finds, Replay, Exec;
    forall i | 0 <= i < |es|
      ensures Finds(Exec(s, es[..i]), es[i], slug, Replay(s, es[..i], slug, View(s, slug)))
    {
      assert i < |pre| ==> pre[..i] == es[..i] && pre[i] == es[i];
    }
  }

  /** Operations on other slugs do not interfere: two orderly runs from one state that do the
      same things to `slug`, in the same order, leave it the same entry. */
  lemma NonInterference(s: System, es: seq<Event>, fs: seq<Event>, slug: string)
    requires Safe(s) && ValidSlug(slug) && ExclusiveAt(s, slug) && PhasedAt(s, slug)
    requires OrderlyAt(s, es, slug) && OrderlyAt(s, fs, slug) && OpsAt(s, es, slug) == OpsAt(s, fs, slug)
    ensures View(Exec(s, es), slug) == View(Exec(s, fs), slug)
  {
    RunRefines(s, es, slug);
    RunRefines(s, fs, slug);
    ReplayIsOps(s, es, slug, View(s, slug));
    ReplayIsOps(s, fs, slug, View(s, slug));
  }

  /** The operations of a run on one slug, in order. */
  function OpsAt(s: System, es: seq<Event>, slug: string): seq<Op>
    decreases |es|
  {
    if es == [] then []
    else
      var k := |es| - 1;
      var op := EventOp(Exec(s, es[..k]), es[k]);
      OpsAt(s, es[..k], slug) + if Touches(op, slug) then [op] else []
  }

  /** An entry after operations on it: the last one decides. */
  function LastOp(ops: seq<Op>, was: Option<Item>): Option<Item> {
    if ops == [] then was
    else if ops[|ops| - 1].Put? then Some(ops[|ops| - 1].item) else None
  }

  lemma {:induction false} ReplayIsOps(s: System, es: seq<Event>, slug: string, was: Option<Item>)
    ensures Replay(s, es, slug, was) == LastOp(OpsAt(s, es, slug), was)
    decreases |es|
  {
    if es != [] {
      ReplayIsOps(s, es[..|es| - 1], slug, was);
    }
  }

  // ---- Sizes -----------------------------------------------------------------------

  /** The recorded size is that of the bytes. */
  predicate Sound(item: Option<Item>) {
    item.Some? ==> |item.value.bytes| == item.value.u.size
  }

  lemma PutsAreSound(s: System, e: Event)
    requires Safe(s)
    ensures EventOp(s, e).Put? ==> Sound(Some(EventOp(s, e).item))
  {
    if e.Run? && e.id in s.threads {
      assert ThreadOk(s.threads[e.id], s.now);
    }
  }

  /** A size that is right stays right, and any upload or replace that completes makes it so. */
  lemma {:induction false} SizesStayRight(s: System, es: seq<Event>, slug: string)
    requires Safe(s) && ValidSlug(slug) && ExclusiveAt(s, slug) && PhasedAt(s, slug) && OrderlyAt(s, es, slug)
    ensures Sound(View(s, slug)) || OpsAt(s, es, slug) != [] ==> Sound(View(Exec(s, es), slug))
    decreases |es|
  {
    if es != [] {
      var k := |es| - 1;
      OrderlyPrefix(s, es, slug, k);
      SizesStayRight(s, es[..k], slug);
      RunRefines(s, es[..k], slug);
      SafeRun(s, es[..k]);
      StepRefines(Exec(s, es[..k]), es[k], slug);
      PutsAreSound(Exec(s, es[..k]), es[k]);
    }
  }

  // ---- At rest ---------------------------------------------------------------------

  /** A slug nobody works on, in the table and in the directory: a row iff a file, the file
      at the row's disk name and no other, of the recorded size if the entry is sound. The
      abstract entry is then just that. */
  lemma Settles(s: System, slug: string)
    requires Safe(s) && ValidSlug(slug) && PhasedAt(s, slug) && forall id :: !Claims(s, id, slug)
    ensures slug in s.store.rows <==> exists n :: n in s.store.files && Belongs(n, slug)
    ensures slug in s.store.rows ==>
              var u := s.store.rows[slug];
              && HasFile(s.store, u)
              && (forall n | n in s.store.files && Belongs(n, slug) :: n == DiskName(u))
              && View(s, slug) == Some(Item(u, s.store.files[DiskName(u)].content))
              && (Sound(View(s, slug)) <==> |s.store.files[DiskName(u)].content| == u.size)
    ensures slug !in s.store.rows ==> View(s, slug) == None
  {
    assert PhaseAt(s, slug) == Resting(s.store.rows, slug);
    if slug in s.store.rows {
      DiskNameBelongs(s.store.rows[slug], slug);
    }
  }

  // ---- All slugs at once -----------------------------------------------------------

  /** The per-slug theorem for a run that is orderly at every slug. */
  lemma RunRefinesEverywhere(s: System, es: seq<Event>)
    requires Safe(s)
    requires forall slug | ValidSlug(slug) :: ExclusiveAt(s, slug) && PhasedAt(s, slug) && OrderlyAt(s, es, slug)
    ensures forall slug | ValidSlug(slug) ::
              PhasedAt(Exec(s, es), slug) && View(Exec(s, es), slug) == Replay(s, es, slug, View(s, slug))
  {
    forall slug | ValidSlug(slug)
      ensures PhasedAt(Exec(s, es), slug) && View(Exec(s, es), slug) == Replay(s, es, slug, View(s, slug))
    {
      RunRefines(s, es, slug);
    }
  }
}
