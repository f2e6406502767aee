/** The protocol seen from one slug: the phases its row and files pass through, which thread
    has the slug in which phase, and what one step does to it. */
module Phases {
  import opened Common
  import opened Names
  import opened Table
  import opened Machine
  import opened Safety

  // ---- What a phase says about the store -------------------------------------------

  predicate HasRow(st: Store, u: Upload) {
    u.slug in st.rows && st.rows[u.slug] == u
  }

  /** There is a file at the name of `u`. */
  predicate HasFile(st: Store, u: Upload) {
    IsFile(st.files, DiskName(u))
  }

  /** Every slug-shaped name of `slug` in the directory is one of `names`. */
  ghost predicate OnlyFiles(st: Store, slug: string, names: set<string>) {
    forall n | n in st.files && Belongs(n, slug) :: n in names
  }

  ghost predicate Holds(st: Store, slug: string, ph: Phase) {
    match ph
    case Absent => slug !in st.rows && OnlyFiles(st, slug, {})
    case Settled(u) => HasRow(st, u) && HasFile(st, u) && OnlyFiles(st, slug, {DiskName(u)})
    case RowOnly(u) => HasRow(st, u) && OnlyFiles(st, slug, {})
    case FileOnly(u) => slug !in st.rows && HasFile(st, u) && OnlyFiles(st, slug, {DiskName(u)})
    case Swapping(o, u) => HasRow(st, u) && HasFile(st, o) && OnlyFiles(st, slug, {DiskName(o)})
    case Trailing(o, u) =>
      HasRow(st, u) && HasFile(st, u) && HasFile(st, o) && OnlyFiles(st, slug, {DiskName(o), DiskName(u)})
  }

  /** The phase of a slug no thread is working on: whatever its row says. */
  function Resting(rows: Rows, slug: string): Phase {
    if slug in rows then Settled(rows[slug]) else Absent
  }

  /** The part of the protocol state that belongs to `slug` in what thread `th` is doing. */
  function PhaseOf(th: Option<Thread>, slug: string): Option<Phase> {
    match th
    case None => None
    case Some(t) => Claimed(t, slug)
  }

  function JobPhase(job: Job, slug: string): Option<Phase> {
    if job.prev.Some? && job.prev.value.slug == slug then Some(Settled(job.prev.value)) else None
  }

  function When(u: Upload, slug: string, ph: Phase): Option<Phase> {
    if u.slug == slug then Some(ph) else None
  }

  function Claimed(th: Thread, slug: string): Option<Phase> {
    match th
    case Create(job) => JobPhase(job, slug)
    case Streaming(job, _, _) => JobPhase(job, slug)
    case Commit(job, _, _, _) => JobPhase(job, slug)
    case Promote(job, _, u) => When(u, slug, if job.prev.None? then RowOnly(u) else Swapping(job.prev.value, u))
    case Rollback(_, _, u) => When(u, slug, RowOnly(u))
    case Discard(_, dangling) => if dangling.Some? then When(dangling.value, slug, RowOnly(dangling.value)) else None
    case Clean(o, u) => When(u, slug, Trailing(o, u))
    case DropRow(u) => When(u, slug, Settled(u))
    case DropFile(u) => When(u, slug, FileOnly(u))
    case Sweeping(todo, left) =>
      if slug in todo then Some(Settled(todo[slug])) else if slug in left then Some(left[slug]) else None
    case SweepFile(u, todo, left) =>
      if slug == u.slug then Some(FileOnly(u))
      else if slug in todo then Some(Settled(todo[slug])) else if slug in left then Some(left[slug]) else None
    case Abandoned(left) => if slug in left then Some(left[slug]) else None
    case _ => None
  }

  // ---- The abstract map ------------------------------------------------------------

  datatype Item = Item(u: Upload, bytes: Bytes)

  function Content(files: Files, n: string): Bytes {
    if IsFile(files, n) then files[n].content else []
  }

  /** The upload a slug stands for. Replace takes effect at its rename, delete and sweep at
      their row, upload at its rename. */
  function PhaseView(st: Store, ph: Phase): Option<Item> {
    match ph
    case Absent => None
    case Settled(u) => Some(Item(u, Content(st.files, DiskName(u))))
    case RowOnly(_) => None
    case FileOnly(_) => None
    case Swapping(o, _) => Some(Item(o, Content(st.files, DiskName(o))))
    case Trailing(_, u) => Some(Item(u, Content(st.files, DiskName(u))))
  }

  datatype Op = Nop | Put(slug: string, item: Item) | Del(slug: string)

  function Effect(op: Op, slug: string, was: Option<Item>): Option<Item> {
    match op
    case Nop => was
    case Put(s, item) => if s == slug then Some(item) else was
    case Del(s) => if s == slug then None else was
  }

  /** The abstract operation a thread step performs. */
  function OpOf(st: Store, th: Thread, c: Choice): Op {
    match th
    case Promote(job, p, u) =>
      if c.ok && CanRename(st.files, p, DiskName(u)) then Put(u.slug, Item(u, job.req.body)) else Nop
    case DropRow(u) => if c.ok then Del(u.slug) else Nop
    case Sweeping(todo, _) =>
      if !c.cancelled && c.pick in todo && c.ok && c.pick in st.rows then Del(c.pick) else Nop
    case _ => Nop
  }

  // ---- One slug, one step ----------------------------------------------------------

  /** Nothing about `slug` differs between the two stores. */
  ghost predicate SameAt(st: Store, st': Store, slug: string) {
    && (slug in st.rows <==> slug in st'.rows)
    && (slug in st.rows ==> st.rows[slug] == st'.rows[slug])
    && (forall n | Belongs(n, slug) :: n in st.files <==> n in st'.files)
    && (forall n | Belongs(n, slug) && n in st.files && n in st'.files :: st.files[n] == st'.files[n])
  }

  lemma Framed(st: Store, st': Store, slug: string, ph: Phase)
    requires ValidSlug(slug) && PhaseOk(ph, slug) && SameAt(st, st', slug)
    ensures Holds(st, slug, ph) ==> Holds(st', slug, ph)
    ensures PhaseView(st, ph) == PhaseView(st', ph)
  {
    if ph.Settled? || ph.RowOnly? || ph.FileOnly? || ph.Swapping? || ph.Trailing? {
      DiskNameBelongs(ph.u, slug);
    }
    if ph.Swapping? || ph.Trailing? {
      DiskNameBelongs(ph.prev, slug);
    }
  }

  /** What `slug` is in, given what the thread working on it says, if there is one. */
  function Now(st: Store, claim: Option<Phase>, slug: string): Phase {
    if claim.Some? then claim.value else Resting(st.rows, slug)
  }

  // The store changes a step can make, one lemma each.

  lemma ScratchChange(st: Store, files': Files, p: string, slug: string)
    requires IsScratch(p) && files' - {p} == st.files - {p}
    ensures SameAt(st, st.(files := files'), slug)
  {
    ScratchBelongsToNone(p, slug);
    forall n | Belongs(n, slug)
      ensures n in st.files <==> n in files'
      ensures n in st.files && n in files' ==> st.files[n] == files'[n]
    {
      assert n in st.files - {p} <==> n in st.files;
      assert n in files' - {p} <==> n in files';
    }
  }

  lemma OtherFileRemoved(st: Store, u: Upload, slug: string)
    requires UploadOk(u) && u.slug != slug
    ensures SameAt(st, st.(files := st.files - {DiskName(u)}), slug)
  {
    DiskNameBelongs(u, slug);
  }

  lemma OtherPromoted(st: Store, p: string, u: Upload, slug: string)
    requires UploadOk(u) && u.slug != slug && IsScratch(p) && p in st.files
    ensures SameAt(st, st.(files := Renamed(st.files, p, DiskName(u))), slug)
  {
    DiskNameBelongs(u, slug);
    ScratchBelongsToNone(p, slug);
  }

  lemma FileRemoved(st: Store, u: Upload)
    requires Holds(st, u.slug, FileOnly(u))
    ensures Holds(st.(files := st.files - {DiskName(u)}), u.slug, Absent)
  {
  }

  lemma OldFileRemoved(st: Store, o: Upload, u: Upload)
    requires o.slug == u.slug && o.ext != u.ext && Holds(st, u.slug, Trailing(o, u))
    ensures var st' := st.(files := st.files - {DiskName(o)});
            Holds(st', u.slug, Settled(u)) && PhaseView(st', Settled(u)) == PhaseView(st, Trailing(o, u))
  {
    SameSlugSameName(o, u);
  }

  /** The rename: to a free name, over the old file, or beside it. */
  lemma Promoted(st: Store, p: string, u: Upload, was: Phase, nxt: Phase)
    requires UploadOk(u) && IsScratch(p) && IsFile(st.files, p)
    requires Holds(st, u.slug, was)
    requires match was
      case RowOnly(v) => v == u && nxt == Settled(u)
      case Swapping(o, v) => v == u && UploadOk(o) && o.slug == u.slug
                             && nxt == (if o.ext == u.ext then Settled(u) else Trailing(o, u))
      case _ => false
    ensures CanRename(st.files, p, DiskName(u))
    ensures var st' := st.(files := Renamed(st.files, p, DiskName(u)));
            && Holds(st', u.slug, nxt)
            && PhaseView(st', nxt) == Some(Item(u, st.files[p].content))
  {
    ScratchBelongsToNone(p, u.slug);
    DiskNameBelongs(u, u.slug);
    if was.Swapping? {
      DiskNameBelongs(was.prev, u.slug);
      SameSlugSameName(was.prev, u);
    }
  }

  lemma RowsElsewhere(st: Store, th: Thread, now: int, c: Choice, slug: string)
    requires ThreadOk(th, now)
    requires Claimed(th, slug).None? && PhaseOf(StepThread(st, th, now, c).th, slug).None?
    ensures var rows' := StepThread(st, th, now, c).store.rows;
            && (slug in st.rows <==> slug in rows')
            && (slug in st.rows ==> st.rows[slug] == rows'[slug])
    ensures forall was :: Effect(OpOf(st, th, c), slug, was) == was
  {
  }

  /** A step of a thread that works on `slug` neither before nor after touches nothing of it. */
  lemma Elsewhere(st: Store, th: Thread, now: int, c: Choice, slug: string)
    requires ValidSlug(slug) && RowsOk(st.rows) && ThreadOk(th, now) && OwnsScratch(st.files, th)
    requires Claimed(th, slug).None? && PhaseOf(StepThread(st, th, now, c).th, slug).None?
    ensures SameAt(st, StepThread(st, th, now, c).store, slug)
    ensures forall was :: Effect(OpOf(st, th, c), slug, was) == was
  {
    var files' := StepThread(st, th, now, c).store.files;
    RowsElsewhere(st, th, now, c, slug);
    hide Effect, OpOf, RowsOk;
    match th
    case Create(_) => ScratchChange(st, files', c.scratch, slug);
    case Streaming(_, p, _) => ScratchChange(st, files', p, slug);
    case Promote(_, p, u) => OtherPromoted(st, p, u, slug);
    case Discard(p, _) => ScratchChange(st, files', p, slug);
    case Clean(o, _) => OtherFileRemoved(st, o, slug);
    case DropFile(u) => OtherFileRemoved(st, u, slug);
    case SweepFile(u, _, _) => OtherFileRemoved(st, u, slug);
    case _ =>
  }

  ghost predicate Ready(st: Store, th: Thread, now: int, slug: string) {
    && ValidSlug(slug) && RowsOk(st.rows) && ThreadOk(th, now) && OwnsScratch(st.files, th)
    && Holds(st, slug, Now(st, Claimed(th, slug), slug))
  }

  /** The step takes `slug` to the phase the thread then claims, and does to its item what
      the abstract operation does. */
  ghost predicate Moves(st: Store, th: Thread, now: int, c: Choice, slug: string) {
    var n := StepThread(st, th, now, c);
    var ph := Now(n.store, PhaseOf(n.th, slug), slug);
    && Holds(n.store, slug, ph)
    && PhaseView(n.store, ph) == Effect(OpOf(st, th, c), slug, PhaseView(st, Now(st, Claimed(th, slug), slug)))
  }

  lemma MovesScratch(st: Store, th: Thread, now: int, c: Choice, slug: string)
    requires Ready(st, th, now, slug) && Claimed(th, slug).Some?
    requires th.Create? || th.Streaming? || th.Discard?
    ensures Moves(st, th, now, c, slug)
  {
    var n := StepThread(st, th, now, c);
    ScratchChange(st, n.store.files, if th.Create? then c.scratch else th.scratch, slug);
    assert SameAt(st, n.store, slug);
    hide SameAt;
    Framed(st, n.store, slug, Claimed(th, slug).value);
  }

  lemma MovesFind(st: Store, th: Thread, now: int, c: Choice, slug: string)
    requires Ready(st, th, now, slug)
    requires th.Find? || th.List?
    ensures Moves(st, th, now, c, slug)
  {
  }

  lemma MovesCommit(st: Store, th: Thread, now: int, c: Choice, slug: string)
    requires Ready(st, th, now, slug)
    requires Claimed(th, slug).Some? || PhaseOf(StepThread(st, th, now, c).th, slug).Some?
    requires th.Commit?
    ensures Moves(st, th, now, c, slug)
  {
  }

  lemma MovesRow(st: Store, th: Thread, now: int, c: Choice, slug: string)
    requires Ready(st, th, now, slug) && Claimed(th, slug).Some?
    requires th.Rollback? || th.DropRow?
    ensures Moves(st, th, now, c, slug)
  {
  }

  lemma MovesListed(st: Store, th: Thread, now: int, c: Choice, slug: string)
    requires Ready(st, th, now, slug)
    requires th.Sweeping? && c.pick == slug && slug in th.todo
    ensures Moves(st, th, now, c, slug)
  {
  }

  lemma MovesCancelled(st: Store, th: Thread, now: int, c: Choice, slug: string)
    requires Ready(st, th, now, slug) && Claimed(th, slug).Some?
    requires th.Sweeping? && c.cancelled && slug in th.todo
    ensures Moves(st, th, now, c, slug)
  {
  }

  lemma UnpickedKept(st: Store, th: Thread, now: int, c: Choice, slug: string)
    requires th.Sweeping? && ThreadOk(th, now) && (c.pick != slug || slug !in th.todo)
    requires c.cancelled ==> slug !in th.todo
    ensures var n := StepThread(st, th, now, c);
            && PhaseOf(n.th, slug) == Claimed(th, slug) && SameAt(st, n.store, slug)
            && forall was :: Effect(OpOf(st, th, c), slug, was) == was
  {
  }

  lemma MovesUnpicked(st: Store, th: Thread, now: int, c: Choice, slug: string)
    requires Ready(st, th, now, slug)
    requires Claimed(th, slug).Some? || PhaseOf(StepThread(st, th, now, c).th, slug).Some?
    requires th.Sweeping? && (c.pick != slug || slug !in th.todo)
    ensures Moves(st, th, now, c, slug)
  {
    if c.cancelled && slug in th.todo {
      MovesCancelled(st, th, now, c, slug);
    } else {
      UnpickedKept(st, th, now, c, slug);
      var n := StepThread(st, th, now, c);
      var ph := Claimed(th, slug).value;
      hide StepThread, SameAt, Claimed, Effect, OpOf;
      Framed(st, n.store, slug, ph);
    }
  }

  lemma MovesClean(st: Store, th: Thread, now: int, c: Choice, slug: string)
    requires Ready(st, th, now, slug) && Claimed(th, slug).Some?
    requires th.Clean?
    ensures Moves(st, th, now, c, slug)
  {
    OldFileRemoved(st, th.prev, th.u);
  }

  lemma MovesFile(st: Store, th: Thread, now: int, c: Choice, slug: string)
    requires Ready(st, th, now, slug) && Claimed(th, slug).Some?
    requires th.DropFile? || th.SweepFile?
    ensures Moves(st, th, now, c, slug)
  {
    if th.u.slug == slug {
      FileRemoved(st, th.u);
    } else {
      MovesOtherFile(st, th, now, c, slug);
    }
  }

  lemma MovesOtherFile(st: Store, th: Thread, now: int, c: Choice, slug: string)
    requires Ready(st, th, now, slug) && Claimed(th, slug).Some?
    requires th.SweepFile? && th.u.slug != slug
    ensures Moves(st, th, now, c, slug)
  {
    var ph := Claimed(th, slug).value;
    var n := StepThread(st, th, now, c);
    OtherFileRemoved(st, th.u, slug);
    assert SameAt(st, n.store, slug) && PhaseOf(n.th, slug) == Some(ph) && OpOf(st, th, c) == Nop;
    hide SameAt, StepThread, Claimed;
    Framed(st, n.store, slug, ph);
  }

  lemma MovesPromote(st: Store, th: Thread, now: int, c: Choice, slug: string)
    requires Ready(st, th, now, slug) && Claimed(th, slug).Some?
    requires th.Promote?
    ensures Moves(st, th, now, c, slug)
  {
    var was := Claimed(th, slug).value;
    Promoted(st, th.scratch, th.u, was,
             if was.RowOnly? || was.prev.ext == th.u.ext then Settled(th.u) else Trailing(was.prev, th.u));
  }

  lemma MovesIdle(st: Store, th: Thread, now: int, c: Choice, slug: string)
    requires Ready(st, th, now, slug)
    requires th.Open? || th.Replied? || th.Abandoned?
    ensures Moves(st, th, now, c, slug)
  {
  }

  lemma Worked(st: Store, th: Thread, now: int, c: Choice, slug: string)
    requires Ready(st, th, now, slug)
    requires Claimed(th, slug).Some? || PhaseOf(StepThread(st, th, now, c).th, slug).Some?
    ensures Moves(st, th, now, c, slug)
  {
    hide Moves, Ready;
    match th
    case Find(_, _) => MovesFind(st, th, now, c, slug);
    case List => MovesFind(st, th, now, c, slug);
    case Create(_) => MovesScratch(st, th, now, c, slug);
    case Streaming(_, _, _) => MovesScratch(st, th, now, c, slug);
    case Discard(_, _) => MovesScratch(st, th, now, c, slug);
    case Commit(_, _, _, _) => MovesCommit(st, th, now, c, slug);
    case Rollback(_, _, _) => MovesRow(st, th, now, c, slug);
    case DropRow(_) => MovesRow(st, th, now, c, slug);
    case Promote(_, _, _) => MovesPromote(st, th, now, c, slug);
    case Clean(_, _) => MovesClean(st, th, now, c, slug);
    case DropFile(_) => MovesFile(st, th, now, c, slug);
    case SweepFile(_, _, _) => MovesFile(st, th, now, c, slug);
    case Sweeping(todo, _) =>
      if c.pick == slug && slug in todo {
        MovesListed(st, th, now, c, slug);
      } else {
        MovesUnpicked(st, th, now, c, slug);
      }
    case _ => MovesIdle(st, th, now, c, slug);
  }
}
