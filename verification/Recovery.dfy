/** Crashes: what process death followed by boot makes of each slug, and runs of any number
    of process lifetimes. */
module Recovery {
  import opened Common
  import opened Names
  import opened Table
  import opened Booting
  import opened Machine
  import opened Safety
  import opened Phases
  import opened Refinement

  /** The process dies in `s`, and `down` later the next one has booted. */
  function Reboot(s: System, down: nat): System {
    System(Boot(s.store, s.now + down), map[], s.now + down)
  }

  // ---- A reboot is a run -----------------------------------------------------------

  function Repairs(rs: seq<Removal>): seq<Event> {
    if rs == [] then [] else [Repair(rs[0])] + Repairs(rs[1..])
  }

  lemma {:induction false} RepairsAreRemovals(s: System, rs: seq<Removal>)
    requires s.threads == map[]
    ensures Then(s, Repairs(rs)) == s.(store := Removals(s.store, s.now, rs))
    decreases |rs|
  {
    if rs != [] {
      var s' := Apply(s, Repair(rs[0]));
      assert Repairs(rs)[1..] == Repairs(rs[1..]);
      RepairsAreRemovals(s', rs[1..]);
    }
  }

  /** Death, downtime and boot are events like any others, so whatever holds in every run
      holds across reboots. */
  lemma RebootIsRun(s: System, down: nat) returns (es: seq<Event>)
    ensures Exec(s, es) == Reboot(s, down)
    ensures es != [] && es[0] == Crash && forall e | e in es :: !e.Spawn? && !e.Run?
  {
    hide Boot;
    var d := System(s.store, map[], s.now + down);
    var rs := BootByRemovals(s.store, s.now + down);
    var pre := [Crash, Tick(down)];
    ThenTwo(s, Crash, Tick(down));
    ThenIsRun(s, pre);
    RepairsAreRemovals(d, rs);
    ThenIsRun(d, Repairs(rs));
    ExecConcat(s, pre, Repairs(rs));
    es := pre + Repairs(rs);
    RepairsOnly(rs);
  }

  lemma {:induction false} RepairsOnly(rs: seq<Removal>)
    ensures forall e | e in Repairs(rs) :: e.Repair?
  {
    if rs != [] {
      RepairsOnly(rs[1..]);
    }
  }

  // ---- From any state at all -------------------------------------------------------

  /** A file at one of the slug's names that boot leaves although no row owns it: a young one
      that looks like scratch. Directories are left too. */
  predicate Stray(st: Store, n: string, slug: string, now: int) {
    && n in st.files && Belongs(n, slug)
    && (st.files[n].Dir?
        || (IsPartial(n) && !Stale(st.files, n, now)
            && !(slug in st.rows && n == DiskName(st.rows[slug]))))
  }

  function Strays(st: Store, slug: string, now: int): set<string> {
    set n | n in st.files && Stray(st, n, slug, now)
  }

  lemma KnownIff(rows: Rows, slug: string, n: string)
    requires RowsOk(rows) && Belongs(n, slug)
    ensures n in Known(rows) <==> slug in rows && n == DiskName(rows[slug])
  {
    if n in Known(rows) {
      var s :| s in rows && DiskName(rows[s]) == n;
      DiskNameBelongs(rows[s], slug);
    }
  }

  /** Among the slug's names, boot keeps the file of a surviving row and the strays. */
  lemma BootKeeps(st: Store, slug: string, n: string, now: int)
    requires RowsOk(st.rows) && Belongs(n, slug)
    ensures n in Boot(st, now).files <==>
            (RowSurvives(st, slug, now) && n == DiskName(st.rows[slug])) || Stray(st, n, slug, now)
  {
    BootConverges(st, now);
    KnownIff(st.rows, slug, n);
    if slug in st.rows {
      DiskNameBelongs(st.rows[slug], slug);
    }
  }

  /** What the directory and the table say of the slug, once boot has run. */
  function Kept(st: Store, slug: string, now: int): Option<Item> {
    if RowSurvives(st, slug, now)
    then Some(Item(st.rows[slug], Content(st.files, DiskName(st.rows[slug]))))
    else None
  }

  /** A slug at rest in `d` is in phase iff `d` holds nothing of it but its row's file. */
  lemma RestsIff(d: Store, st: Store, slug: string, now: int)
    requires RowsOk(d.rows) && ValidSlug(slug)
    requires slug in d.rows ==> DiskName(d.rows[slug]) in d.files
    requires forall n | Belongs(n, slug) ::
               n in d.files <==> (slug in d.rows && n == DiskName(d.rows[slug])) || Stray(st, n, slug, now)
    requires forall n | n in d.files :: n in st.files && d.files[n] == st.files[n]
    requires slug in d.rows ==> slug in st.rows && st.rows[slug] == d.rows[slug]
    ensures Holds(d, slug, Resting(d.rows, slug)) <==> Strays(st, slug, now) == {}
  {
    assert forall n :: n in Strays(st, slug, now) <==> Stray(st, n, slug, now);
    if slug in d.rows {
      var n := DiskName(d.rows[slug]);
      DiskNameBelongs(d.rows[slug], slug);
      if d.files[n].Dir? {
        assert Stray(st, n, slug, now);
      }
    }
  }

  lemma BootRests(st: Store, d: Store, slug: string, now: int)
    requires RowsOk(st.rows) && ValidSlug(slug) && d == Boot(st, now)
    ensures Holds(d, slug, Resting(d.rows, slug)) <==> Strays(st, slug, now) == {}
  {
    BootConverges(st, now);
    forall n | Belongs(n, slug)
      ensures n in d.files <==> (slug in d.rows && n == DiskName(d.rows[slug])) || Stray(st, n, slug, now)
    {
      BootKeeps(st, slug, n, now);
    }
    RestsIff(d, st, slug, now);
  }

  lemma BootShows(st: Store, slug: string, now: int)
    ensures PhaseView(Boot(st, now), Resting(Boot(st, now).rows, slug)) == Kept(st, slug, now)
  {
    BootConverges(st, now);
    assert RowSurvives(st, slug, now) ==> FileSurvives(st, DiskName(st.rows[slug]), now) by {
      assert slug in st.rows ==> DiskName(st.rows[slug]) in Known(st.rows);
    }
  }

  lemma SafeReboot(s: System, down: nat)
    requires Safe(s)
    ensures Safe(Reboot(s, down))
  {
    BootConverges(s.store, s.now + down);
  }

  lemma NobodyWorks(b: System, slug: string)
    requires b.threads == map[]
    ensures ExclusiveAt(b, slug)
    ensures PhasedAt(b, slug) <==> Holds(b.store, slug, Resting(b.store.rows, slug))
    ensures View(b, slug) == PhaseView(b.store, Resting(b.store.rows, slug))
  {
    assert forall id :: !Claims(b, id, slug);
    assert ClaimAt(b, slug) == None;
  }

  lemma RowsSafe(s: System)
    requires Safe(s)
    ensures RowsOk(s.store.rows)
  {
  }

  /** Whatever raced, failed or crashed before, the next boot puts a slug back in phase, with
      nobody working on it, unless it has a stray. So no damage to the protocol state
      outlasts a reboot. */
  lemma BootSettles(s: System, down: nat, slug: string)
    requires Safe(s) && ValidSlug(slug)
    ensures var b := Reboot(s, down);
            && Safe(b) && ExclusiveAt(b, slug)
            && (PhasedAt(b, slug) <==> Strays(s.store, slug, b.now) == {})
            && View(b, slug) == Kept(s.store, slug, b.now)
  {
    hide Boot, Safe, ExclusiveAt, PhasedAt, View, Kept, Holds, Resting, PhaseView, Strays, RowsOk;
    var b := Reboot(s, down);
    RowsSafe(s);
    SafeReboot(s, down);
    NobodyWorks(b, slug);
    BootRests(s.store, b.store, slug, b.now);
    BootShows(s.store, slug, b.now);
  }

  // ---- Exact outcomes by phase -----------------------------------------------------

  /** Boot takes the committed file of `u` for abandoned scratch: its extension ends in
      ".partial" and it is five minutes old. */
  predicate Reaped(st: Store, u: Upload, now: int) {
    Stale(st.files, DiskName(u), now)
  }

  /** The entry after a crash in phase `ph` and a boot at `now`, given the entry before. */
  function AfterCrash(st: Store, ph: Phase, now: int, was: Option<Item>): Option<Item> {
    match ph
    case Absent => was
    case RowOnly(_) => was
    case FileOnly(_) => was
    case Settled(u) => if Reaped(st, u, now) then None else was
    case Trailing(_, u) => if Reaped(st, u, now) then None else was
    case Swapping(o, u) =>
      if o.ext != u.ext || Reaped(st, u, now) || was.None? then None else Some(Item(u, was.value.bytes))
  }

  /** The crash changes the entry: a replace with another row stood between its UPDATE and
      its rename, or the file is reaped. */
  predicate Damaged(st: Store, ph: Phase, now: int) {
    match ph
    case Settled(u) => Reaped(st, u, now)
    case Trailing(_, u) => Reaped(st, u, now)
    case Swapping(o, u) => o != u || Reaped(st, u, now)
    case _ => false
  }

  /** The upload whose file, if any, is not the row's. */
  function Leaving(ph: Phase): Option<Upload> {
    match ph
    case FileOnly(u) => Some(u)
    case Swapping(o, u) => if o.ext == u.ext then None else Some(o)
    case Trailing(o, _) => Some(o)
    case _ => None
  }

  /** The crash leaves that file without a row, and boot does not touch it: it looks like
      scratch and is younger than five minutes. */
  function Litter(st: Store, ph: Phase, now: int): set<string> {
    match Leaving(ph)
    case Some(u) => if IsPartial(u.ext) && !Reaped(st, u, now) then {DiskName(u)} else {}
    case None => {}
  }

  /** A file of the slug other than its row's is a stray iff it is a young scratch-like one. */
  lemma StrayFile(st: Store, slug: string, u: Upload, now: int)
    requires RowsOk(st.rows) && UploadOk(u) && u.slug == slug && HasFile(st, u)
    requires slug in st.rows ==> st.rows[slug].ext != u.ext
    ensures DiskName(u) in Strays(st, slug, now) <==> IsPartial(u.ext) && !Reaped(st, u, now)
  {
    DiskNameBelongs(u, slug);
    PartialByExtension(slug, u.ext);
    if slug in st.rows {
      SameSlugSameName(st.rows[slug], u);
    }
  }

  lemma OwnedNotStray(st: Store, slug: string, now: int)
    requires slug in st.rows && HasFile(st, st.rows[slug])
    ensures DiskName(st.rows[slug]) !in Strays(st, slug, now)
  {
  }

  /** The files of a slug in phase: that of its row and that of the upload being removed. */
  lemma FilesAre(st: Store, slug: string, ph: Phase, n: string)
    requires PhaseOk(ph, slug) && Holds(st, slug, ph) && n in st.files && Belongs(n, slug)
    ensures || (slug in st.rows && n == DiskName(st.rows[slug]) && HasFile(st, st.rows[slug]))
            || (Leaving(ph).Some? && n == DiskName(Leaving(ph).value))
  {
    if ph.Swapping? {
      SameSlugSameName(ph.prev, ph.u);
    }
  }

  lemma SurvivesIff(st: Store, slug: string, ph: Phase, now: int)
    requires RowsOk(st.rows) && ValidSlug(slug) && PhaseOk(ph, slug) && Holds(st, slug, ph)
    ensures RowSurvives(st, slug, now) <==>
            match ph
            case Settled(u) => !Reaped(st, u, now)
            case Trailing(_, u) => !Reaped(st, u, now)
            case Swapping(o, u) => o.ext == u.ext && !Reaped(st, u, now)
            case _ => false
  {
    if ph.RowOnly? || ph.Swapping? || ph.Trailing? {
      DiskNameBelongs(ph.u, slug);
    }
    if ph.Swapping? {
      SameSlugSameName(ph.prev, ph.u);
    }
  }

  lemma KeptIs(st: Store, slug: string, ph: Phase, now: int)
    requires RowsOk(st.rows) && ValidSlug(slug) && PhaseOk(ph, slug) && Holds(st, slug, ph)
    ensures Kept(st, slug, now) == AfterCrash(st, ph, now, PhaseView(st, ph))
    ensures Kept(st, slug, now) == PhaseView(st, ph) <==> !Damaged(st, ph, now)
  {
    SurvivesIff(st, slug, ph, now);
    if ph.Swapping? {
      SameSlugSameName(ph.prev, ph.u);
    }
  }

  lemma CrashLeaves(s: System, slug: string, now: int)
    requires Safe(s) && ValidSlug(slug) && PhasedAt(s, slug)
    ensures var ph := PhaseAt(s, slug);
            && Kept(s.store, slug, now) == AfterCrash(s.store, ph, now, View(s, slug))
            && (Kept(s.store, slug, now) == View(s, slug) <==> !Damaged(s.store, ph, now))
  {
    PhaseAtOk(s, slug);
    KeptIs(s.store, slug, PhaseAt(s, slug), now);
  }

  lemma CrashLitters(s: System, slug: string, now: int)
    requires Safe(s) && ValidSlug(slug) && PhasedAt(s, slug)
    ensures Strays(s.store, slug, now) == Litter(s.store, PhaseAt(s, slug), now)
  {
    var st, ph := s.store, PhaseAt(s, slug);
    PhaseAtOk(s, slug);
    if Leaving(ph).Some? {
      StrayFile(st, slug, Leaving(ph).value, now);
    }
    forall n | n in Strays(st, slug, now)
      ensures n in Litter(st, ph, now)
    {
      FilesAre(st, slug, ph, n);
      if slug in st.rows && n == DiskName(st.rows[slug]) {
        OwnedNotStray(st, slug, now);
      }
    }
  }

  /** A crash at any moment, whatever failed before it and whatever happens on other slugs.
      Upload, delete and sweep come out in full or not at all, a replace old or new, with
      exactly these exceptions: between a replace's UPDATE and its rename the slug is left
      with the new row over the old bytes if the extension is unchanged, and with nothing if
      it changed; and a file that looks like old scratch is lost with its row. The slug is
      back in phase but for litter. */
  lemma CrashRecovery(s: System, down: nat, slug: string)
    requires Safe(s) && ValidSlug(slug) && PhasedAt(s, slug)
    ensures var b := Reboot(s, down);
            var ph := PhaseAt(s, slug);
            && Safe(b) && ExclusiveAt(b, slug)
            && View(b, slug) == AfterCrash(s.store, ph, b.now, View(s, slug))
            && (View(b, slug) == View(s, slug) <==> !Damaged(s.store, ph, b.now))
            && (PhasedAt(b, slug) <==> Litter(s.store, ph, b.now) == {})
  {
    hide Boot, Safe, ExclusiveAt, PhasedAt;
    BootSettles(s, down, slug);
    CrashLeaves(s, slug, s.now + down);
    CrashLitters(s, slug, s.now + down);
  }

  // ---- A slug a handler gave up on -------------------------------------------------

  // Until the next boot such a slug stays claimed, so another handler at it contends and the
  // theorems on orderly runs do not apply. This is what the next one makes of it. Where no
  // row is left (FileOnly), lookups find nothing and change nothing.

  /** The files of a slug are exactly those at `names`. */
  ghost predicate ExactFiles(st: Store, slug: string, names: set<string>) {
    OnlyFiles(st, slug, names) && forall n | n in names :: IsFile(st.files, n)
  }

  /** What an abandoned slug keeps beside the file of a new row `w`. */
  function Beside(ph: Phase, w: Upload): set<string> {
    match Leaving(ph)
    case Some(o) => if o.ext != w.ext then {DiskName(o)} else {}
    case None => {}
  }

  /** The file under the abandoned row's own name, if there is one. */
  function Under(ph: Phase): set<string> {
    if ph.Trailing? || (ph.Swapping? && ph.prev.ext == ph.u.ext) then {DiskName(ph.u)} else {}
  }

  predicate AbandonedRow(ph: Phase) {
    ph.RowOnly? || ph.Swapping? || ph.Trailing?
  }

  /** The slug after a replace has done its UPDATE and its rename. */
  lemma Overwritten(st: Store, ph: Phase, w: Upload, p: string)
    requires PhaseOk(ph, w.slug) && Holds(st, w.slug, ph) && AbandonedRow(ph)
    requires UploadOk(w) && IsScratch(p) && IsFile(st.files, p)
    ensures CanRename(st.files, p, DiskName(w))
    ensures var d := Store(st.rows[w.slug := w], Renamed(st.files, p, DiskName(w)));
            && HasRow(d, w) && HasFile(d, w) && d.files[DiskName(w)] == st.files[p]
            && ExactFiles(d, w.slug, {DiskName(w)} + Beside(ph, w) + Under(ph))
  {
    DiskNameBelongs(w, w.slug);
    ScratchBelongsToNone(p, w.slug);
    DiskNameBelongs(ph.u, w.slug);
    SameSlugSameName(ph.u, w);
    if !ph.RowOnly? {
      DiskNameBelongs(ph.prev, w.slug);
      SameSlugSameName(ph.prev, w);
      SameSlugSameName(ph.prev, ph.u);
    }
  }

  lemma Cleaned(d: Store, u: Upload, w: Upload, names: set<string>)
    requires u.slug == w.slug && HasRow(d, w) && HasFile(d, w) && DiskName(u) != DiskName(w)
    requires ExactFiles(d, w.slug, names)
    ensures var c := d.(files := d.files - {DiskName(u)});
            && HasRow(c, w) && HasFile(c, w) && c.files[DiskName(w)] == d.files[DiskName(w)]
            && ExactFiles(c, w.slug, names - {DiskName(u)})
  {
  }

  /** The next replace, if nothing fails, puts the row and the bytes right whatever was left
      there; a file under a third extension stays until boot. */
  lemma NextReplace(st: Store, ph: Phase, req: Request, p: string, at: int, cs: seq<Turn>)
    returns (w: Upload)
    requires AbandonedRow(ph) && PhaseOk(ph, ph.u.slug) && Holds(st, ph.u.slug, ph)
    requires SaneExt(req.ext) && IsScratch(p) && IsFile(st.files, p) && st.files[p].content == req.body
    requires |cs| == 3 && forall i | 0 <= i < 3 :: cs[i].c.ok
    ensures w == RowFor(ph.u.slug, req, at)
    ensures var n := RunAlone(st, Some(Commit(Job(Some(ph.u), req), p, at, 0)), cs, 0);
            && n.th == None && HasRow(n.store, w) && HasFile(n.store, w)
            && n.store.files[DiskName(w)].content == req.body
            && ExactFiles(n.store, w.slug, {DiskName(w)} + Beside(ph, w))
  {
    var u := ph.u;
    var job := Job(Some(u), req);
    w := RowFor(u.slug, req, at);
    Overwritten(st, ph, w, p);
    SameSlugSameName(u, w);
    var s1 := st.(rows := st.rows[u.slug := w]);
    var d := Store(s1.rows, Renamed(st.files, p, DiskName(w)));
    var left := {DiskName(w)} + Beside(ph, w) + Under(ph);
    AloneStep(st, Commit(job, p, at, 0), cs, 0);
    AloneStep(s1, Promote(job, p, w), cs, 1);
    assert StepThread(st, Commit(job, p, at, 0), cs[0].now, cs[0].c) == Next(s1, Some(Promote(job, p, w)));
    if u.ext == w.ext {
      assert StepThread(s1, Promote(job, p, w), cs[1].now, cs[1].c) == Next(d, None);
      assert left == {DiskName(w)} + Beside(ph, w);
    } else {
      assert StepThread(s1, Promote(job, p, w), cs[1].now, cs[1].c) == Next(d, Some(Clean(u, w)));
      AloneStep(d, Clean(u, w), cs, 2);
      Cleaned(d, u, w, left);
      if Leaving(ph).Some? {
        SameSlugSameName(Leaving(ph).value, u);
      }
      assert left - {DiskName(u)} == {DiskName(w)} + Beside(ph, w);
    }
  }

  /** The next delete, if nothing fails, removes the row and its file; a file under another
      extension stays until boot, and the slug is gone for readers and for the map. */
  lemma NextDelete(st: Store, ph: Phase, cs: seq<Turn>)
    requires AbandonedRow(ph) && PhaseOk(ph, ph.u.slug) && Holds(st, ph.u.slug, ph)
    requires |cs| == 2 && cs[0].c.ok && cs[1].c.ok
    ensures var n := RunAlone(st, Some(DropRow(ph.u)), cs, 0);
            && n.th == None && ph.u.slug !in n.store.rows
            && ExactFiles(n.store, ph.u.slug, if Leaving(ph).Some? then {DiskName(Leaving(ph).value)} else {})
  {
    DiskNameBelongs(ph.u, ph.u.slug);
    if !ph.RowOnly? {
      SameSlugSameName(ph.prev, ph.u);
    }
    var s1 := st.(rows := st.rows - {ph.u.slug});
    AloneStep(st, DropRow(ph.u), cs, 0);
    AloneStep(s1, DropFile(ph.u), cs, 1);
    assert StepThread(st, DropRow(ph.u), cs[0].now, cs[0].c) == Next(s1, Some(DropFile(ph.u)));
  }

  // ---- Any number of lifetimes -----------------------------------------------------

  /** What one process does before it dies, and how long until the next has booted. */
  datatype Life = Life(events: seq<Event>, down: nat)

  function Lives(s: System, ls: seq<Life>): System
    decreases |ls|
  {
    if ls == [] then s
    else
      var k := |ls| - 1;
      Reboot(Exec(Lives(s, ls[..k]), ls[k].events), ls[k].down)
  }

  /** The state in which lifetime `k` ends. */
  function Dying(s: System, ls: seq<Life>, k: nat): System
    requires k < |ls|
  {
    Exec(Lives(s, ls[..k]), ls[k].events)
  }

  /** The slug's entry by the abstract operations of all lifetimes and the crashes between. */
  ghost function Fate(s: System, ls: seq<Life>, slug: string, was: Option<Item>): Option<Item>
    decreases |ls|
  {
    if ls == [] then was
    else
      var k := |ls| - 1;
      var e := Dying(s, ls, k);
      AfterCrash(e.store, PhaseAt(e, slug), e.now + ls[k].down,
                 Replay(Lives(s, ls[..k]), ls[k].events, slug, Fate(s, ls[..k], slug, was)))
  }

  /** In no lifetime is the slug contended for, and no crash litters it. */
  ghost predicate OrderlyLives(s: System, ls: seq<Life>, slug: string) {
    forall k: nat | k < |ls| ::
      var e := Dying(s, ls, k);
      && OrderlyAt(Lives(s, ls[..k]), ls[k].events, slug)
      && Litter(e.store, PhaseAt(e, slug), e.now + ls[k].down) == {}
  }

  /** One lifetime and its end. */
  lemma LifeRefines(b: System, e: System, life: Life, slug: string)
    requires Safe(b) && ValidSlug(slug) && ExclusiveAt(b, slug) && PhasedAt(b, slug) && OrderlyAt(b, life.events, slug)
    requires e == Exec(b, life.events) && Litter(e.store, PhaseAt(e, slug), e.now + life.down) == {}
    ensures Safe(Reboot(e, life.down))
    ensures ExclusiveAt(Reboot(e, life.down), slug) && PhasedAt(Reboot(e, life.down), slug)
    ensures View(Reboot(e, life.down), slug)
            == AfterCrash(e.store, PhaseAt(e, slug), e.now + life.down, Replay(b, life.events, slug, View(b, slug)))
  {
    hide Boot, Safe, ExclusiveAt, PhasedAt;
    RunRefines(b, life.events, slug);
    SafeRun(b, life.events);
    CrashRecovery(e, life.down, slug);
  }

  lemma LivesStep(s: System, ls: seq<Life>, k: nat)
    requires k < |ls|
    ensures Lives(s, ls[..k + 1]) == Reboot(Dying(s, ls, k), ls[k].down)
  {
    hide Reboot, Exec;
    var ms := ls[..k + 1];
    assert ms[..k] == ls[..k] && ms[k] == ls[k];
  }

  lemma FateStep(s: System, ls: seq<Life>, slug: string, k: nat, was: Option<Item>)
    requires k < |ls|
    ensures var e := Dying(s, ls, k);
            Fate(s, ls[..k + 1], slug, was)
            == AfterCrash(e.store, PhaseAt(e, slug), e.now + ls[k].down,
                          Replay(Lives(s, ls[..k]), ls[k].events, slug, Fate(s, ls[..k], slug, was)))
  {
    hide Reboot, Exec;
    var ms := ls[..k + 1];
    assert ms[..k] == ls[..k] && ms[k] == ls[k];
  }

  ghost predicate RefinedTo(s: System, ls: seq<Life>, slug: string, n: nat)
    requires n <= |ls|
  {
    var b := Lives(s, ls[..n]);
    && Safe(b) && ExclusiveAt(b, slug) && PhasedAt(b, slug)
    && View(b, slug) == Fate(s, ls[..n], slug, View(s, slug))
  }

  lemma OneLifeMore(s: System, ls: seq<Life>, slug: string, k: nat)
    requires k < |ls| && ValidSlug(slug) && RefinedTo(s, ls, slug, k)
    requires var e := Dying(s, ls, k);
             && OrderlyAt(Lives(s, ls[..k]), ls[k].events, slug)
             && Litter(e.store, PhaseAt(e, slug), e.now + ls[k].down) == {}
    ensures RefinedTo(s, ls, slug, k + 1)
  {
    hide Reboot, Safe, ExclusiveAt, PhasedAt;
    LifeRefines(Lives(s, ls[..k]), Dying(s, ls, k), ls[k], slug);
    LivesStep(s, ls, k);
    FateStep(s, ls, slug, k, View(s, slug));
  }

  lemma {:induction false} LivesRefineTo(s: System, ls: seq<Life>, slug: string, n: nat)
    requires Safe(s) && ValidSlug(slug) && ExclusiveAt(s, slug) && PhasedAt(s, slug) && OrderlyLives(s, ls, slug)
    requires n <= |ls|
    ensures RefinedTo(s, ls, slug, n)
  {
    if n != 0 {
      LivesRefineTo(s, ls, slug, n - 1);
      OneLifeMore(s, ls, slug, n - 1);
    }
  }

  /** Refinement through any number of crashes: the entry is what the operations and the
      crashes say, whatever else went on. */
  lemma LivesRefine(s: System, ls: seq<Life>, slug: string)
    requires Safe(s) && ValidSlug(slug) && ExclusiveAt(s, slug) && PhasedAt(s, slug) && OrderlyLives(s, ls, slug)
    ensures var b := Lives(s, ls);
            && Safe(b) && ExclusiveAt(b, slug) && PhasedAt(b, slug)
            && View(b, slug) == Fate(s, ls, slug, View(s, slug))
  {
    assert ls[..|ls|] == ls;
    LivesRefineTo(s, ls, slug, |ls|);
  }

  /** The operations of all lifetimes alone, as if nothing had ever crashed. */
  function ReplayLives(s: System, ls: seq<Life>, slug: string, was: Option<Item>): Option<Item>
    decreases |ls|
  {
    if ls == [] then was
    else
      var k := |ls| - 1;
      Replay(Lives(s, ls[..k]), ls[k].events, slug, ReplayLives(s, ls[..k], slug, was))
  }

  ghost predicate Undamaged(s: System, ls: seq<Life>, slug: string) {
    forall k: nat | k < |ls| ::
      var e := Dying(s, ls, k);
      !Damaged(e.store, PhaseAt(e, slug), e.now + ls[k].down)
  }

  /** The entry in which lifetime `k` ends is what replaying it on what came before gives. */
  lemma DyingView(s: System, ls: seq<Life>, slug: string, k: nat)
    requires Safe(s) && ValidSlug(slug) && ExclusiveAt(s, slug) && PhasedAt(s, slug) && OrderlyLives(s, ls, slug)
    requires k < |ls|
    ensures View(Dying(s, ls, k), slug)
            == Replay(Lives(s, ls[..k]), ls[k].events, slug, Fate(s, ls[..k], slug, View(s, slug)))
  {
    LivesRefineTo(s, ls, slug, k);
    RunRefines(Lives(s, ls[..k]), ls[k].events, slug);
  }

  lemma Harmless(st: Store, ph: Phase, now: int)
    requires !Damaged(st, ph, now)
    ensures AfterCrash(st, ph, now, PhaseView(st, ph)) == PhaseView(st, ph)
  {
  }

  lemma {:induction false} FateIsReplay(s: System, ls: seq<Life>, slug: string, n: nat)
    requires Safe(s) && ValidSlug(slug) && ExclusiveAt(s, slug) && PhasedAt(s, slug) && OrderlyLives(s, ls, slug)
    requires Undamaged(s, ls, slug) && n <= |ls|
    ensures Fate(s, ls[..n], slug, View(s, slug)) == ReplayLives(s, ls[..n], slug, View(s, slug))
  {
    hide Safe, ExclusiveAt, PhasedAt, OrderlyLives, PhaseAt, PhaseView, Damaged, AfterCrash;
    if n != 0 {
      var k := n - 1;
      assert ls[..n][..k] == ls[..k];
      FateIsReplay(s, ls, slug, k);
      FateStep(s, ls, slug, k, View(s, slug));
      DyingView(s, ls, slug, k);
      var e := Dying(s, ls, k);
      Harmless(e.store, PhaseAt(e, slug), e.now + ls[k].down);
    }
  }

  /** Crashes that damage nothing cannot be told from no crashes at all: acknowledged work
      survives any number of them, and work cut short leaves no trace in the map. */
  lemma CrashesInvisible(s: System, ls: seq<Life>, slug: string)
    requires Safe(s) && ValidSlug(slug) && ExclusiveAt(s, slug) && PhasedAt(s, slug) && OrderlyLives(s, ls, slug)
    requires Undamaged(s, ls, slug)
    ensures View(Lives(s, ls), slug) == ReplayLives(s, ls, slug, View(s, slug))
  {
    assert ls[..|ls|] == ls;
    FateIsReplay(s, ls, slug, |ls|);
    LivesRefine(s, ls, slug);
  }

  /** The run adds nothing to the lifetimes but crashes, time and boot removals. */
  predicate OnlyFrom(es: seq<Event>, ls: seq<Life>) {
    forall e | e in es && (e.Spawn? || e.Run?) :: exists l :: l in ls && e in l.events
  }

  /** Any number of lifetimes is one run of the system. */
  lemma {:induction false} LivesAreRun(s: System, ls: seq<Life>) returns (es: seq<Event>)
    ensures Exec(s, es) == Lives(s, ls) && OnlyFrom(es, ls)
    decreases |ls|
  {
    es := [];
    if ls != [] {
      var k := |ls| - 1;
      var pre := LivesAreRun(s, ls[..k]);
      var boot := RebootIsRun(Exec(Lives(s, ls[..k]), ls[k].events), ls[k].down);
      es := pre + ls[k].events + boot;
      AddLife(pre, boot, ls);
      hide OnlyFrom;
      ExecConcat(s, pre, ls[k].events);
      ExecConcat(s, pre + ls[k].events, boot);
    }
  }

  lemma AddLife(pre: seq<Event>, boot: seq<Event>, ls: seq<Life>)
    requires ls != [] && OnlyFrom(pre, ls[..|ls| - 1])
    requires forall e | e in boot :: !e.Spawn? && !e.Run?
    ensures OnlyFrom(pre + ls[|ls| - 1].events + boot, ls)
  {
    var last := ls[|ls| - 1];
    assert last in ls && forall l :: l in ls[..|ls| - 1] ==> l in ls;
    forall e | e in pre + last.events + boot && (e.Spawn? || e.Run?)
      ensures exists l :: l in ls && e in l.events
    {
      if e in last.events {
      } else {
        assert e in pre;
      }
    }
  }

  /** Provenance through any number of lifetimes, with no scheduling assumption: a file at a
      slug-shaped name is one that was there at the start, or is the whole body of one
      request that arrived in one of the lifetimes, put there by the last rename to it. */
  lemma LivesProvenance(s: System, ls: seq<Life>, n: string) returns (es: seq<Event>)
    requires Safe(s) && s.threads == map[] && IsDiskName(n) && n in Lives(s, ls).store.files
    ensures Exec(s, es) == Lives(s, ls) && OnlyFrom(es, ls)
    ensures var f := Lives(s, ls).store.files[n];
            match LastTo(s, es, n)
            case Some(body) => f.File? && f.content == body && Requested(es, n[..8], body)
            case None => n in s.store.files && f == s.store.files[n]
  {
    es := LivesAreRun(s, ls);
    hide OnlyFrom;
    ProvenanceOfRequest(s, es, n);
  }
}
