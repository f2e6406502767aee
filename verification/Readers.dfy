/** What the public read route and the listing see while mutators run. */
module Readers {
  import opened Common
  import opened Names
  import opened Table
  import opened Machine
  import opened Safety
  import opened Phases
  import opened Refinement

  // ---- /s/{slug}: a row lookup, then a file open -----------------------------------

  /** A request to the public read route as part of a run: it arrives, other threads go on
      (`before`), it looks its row up (`a`), they go on (`between`), it opens the file (`b`). */
  datatype Visit =
    Visit(id: nat, slug: string, before: seq<Event>, a: Choice, between: seq<Event>, b: Choice)

  function UpToLookup(v: Visit): seq<Event> {
    [Spawn(v.id, Find(v.slug, ToServe))] + v.before
  }

  function UpToOpen(v: Visit): seq<Event> {
    UpToLookup(v) + [Run(v.id, v.a)] + v.between
  }

  function Served(v: Visit): seq<Event> {
    UpToOpen(v) + [Run(v.id, v.b)]
  }

  predicate ByOthers(es: seq<Event>, id: nat) {
    forall e | e in es :: Live(e) && !(e.Run? && e.id == id)
  }

  /** The reader is new to the run, and takes no steps but its two. */
  predicate Visits(s: System, v: Visit) {
    v.id !in s.threads && ByOthers(v.before, v.id) && ByOthers(v.between, v.id)
  }

  lemma {:induction false} Waits(s: System, es: seq<Event>, id: nat)
    requires id in s.threads && ByOthers(es, id)
    ensures id in Exec(s, es).threads && Exec(s, es).threads[id] == s.threads[id]
    decreases |es|
  {
    if es != [] {
      var k := |es| - 1;
      assert es[k] in es;
      Waits(s, es[..k], id);
    }
  }

  lemma LookupTurn(s: System, v: Visit)
    requires Visits(s, v)
    ensures var t := Exec(s, UpToLookup(v)); v.id in t.threads && t.threads[v.id] == Find(v.slug, ToServe)
  {
    var arrive := [Spawn(v.id, Find(v.slug, ToServe))];
    ExecAppend(s, [], arrive[0]);
    assert [] + arrive == arrive;
    ExecConcat(s, arrive, v.before);
    Waits(Exec(s, arrive), v.before, v.id);
  }

  lemma OpenTurn(s: System, v: Visit)
    requires Visits(s, v)
    ensures var at, t := Exec(s, UpToLookup(v)), Exec(s, UpToOpen(v));
            && v.id in t.threads
            && Some(t.threads[v.id]) == StepFind(at.store, v.slug, ToServe, at.now, v.a).th
  {
    LookupTurn(s, v);
    var before := UpToLookup(v);
    ExecAppend(s, before, Run(v.id, v.a));
    ExecConcat(s, before + [Run(v.id, v.a)], v.between);
    Waits(Exec(s, before + [Run(v.id, v.a)]), v.between, v.id);
  }

  /** What a reader gets, in any run whatever, races included: the answer is a matter of the
      table and the clock when it looks up and of the directory when it opens. A slug without
      an unexpired row and a malformed slug answer alike. */
  lemma ServeRun(s: System, v: Visit)
    requires Safe(s) && Visits(s, v)
    ensures var at, files := Exec(s, UpToLookup(v)), Exec(s, UpToOpen(v)).store.files;
            var rows := at.store.rows;
            var t := Exec(s, Served(v));
            && v.id in t.threads
            && t.threads[v.id] == Replied(
                 if !ValidSlug(v.slug) then NoRow
                 else if !v.a.ok then Failed
                 else if !(v.slug in rows && at.now < rows[v.slug].uploadedAt + rows[v.slug].ttl) then NoRow
                 else if !v.b.ok then Failed
                 else if v.slug + rows[v.slug].ext !in files then NoFile
                 else if files[v.slug + rows[v.slug].ext].File?
                 then Body(rows[v.slug], files[v.slug + rows[v.slug].ext].content)
                 else Failed)
  {
    hide Exec, Safe, Served, UpToOpen, UpToLookup, ByOthers, Visits;
    LookupTurn(s, v);
    OpenTurn(s, v);
    SafeRun(s, UpToLookup(v));
    ServedTurn(s, v);
    RowsKeyed(Exec(s, UpToLookup(v)));
  }

  lemma ServedTurn(s: System, v: Visit)
    ensures Exec(s, Served(v)) == Apply(Exec(s, UpToOpen(v)), Run(v.id, v.b))
  {
    ExecAppend(s, UpToOpen(v), Run(v.id, v.b));
  }

  lemma RowsKeyed(s: System)
    requires Safe(s)
    ensures forall slug | slug in s.store.rows :: s.store.rows[slug].slug == slug
  {
  }

  /** The extensions under which a slug in this phase has a file. */
  function OnDisk(ph: Phase): set<string> {
    match ph
    case Absent => {}
    case RowOnly(_) => {}
    case Settled(u) => {u.ext}
    case FileOnly(u) => {u.ext}
    case Swapping(o, _) => {o.ext}
    case Trailing(o, u) => {o.ext, u.ext}
  }

  lemma OnDiskIff(st: Store, ph: Phase, u: Upload)
    requires UploadOk(u) && PhaseOk(ph, u.slug) && Holds(st, u.slug, ph)
    ensures DiskName(u) in st.files <==> u.ext in OnDisk(ph)
    ensures u.ext in OnDisk(ph) ==> HasFile(st, u)
  {
    DiskNameBelongs(u, u.slug);
    if !ph.Absent? {
      SameSlugSameName(ph.u, u);
    }
    if ph.Swapping? || ph.Trailing? {
      SameSlugSameName(ph.prev, u);
    }
  }

  /** What a reader gets that opens the file of a row it looked up at any earlier time, at
      whatever moment of whatever mutator: nothing iff the slug has no file of that
      extension now, and a complete file otherwise. */
  lemma OpenMissesIff(s: System, u: Upload, c: Choice)
    requires Safe(s) && PhasedAt(s, u.slug) && UploadOk(u) && c.ok
    ensures StepOpen(s.store, u, c).th
            == Some(Replied(if u.ext in OnDisk(PhaseAt(s, u.slug)) then Body(u, Content(s.store.files, DiskName(u)))
                            else NoFile))
  {
    PhaseAtOk(s, u.slug);
    OnDiskIff(s.store, PhaseAt(s, u.slug), u);
  }

  /** The bytes are exactly those of the abstract map as long as the extension is still the
      looked-up one. */
  lemma OpenReadsView(s: System, u: Upload, c: Choice)
    requires Safe(s) && PhasedAt(s, u.slug) && UploadOk(u) && c.ok
    requires View(s, u.slug).Some? && View(s, u.slug).value.u.ext == u.ext
    ensures StepOpen(s.store, u, c).th == Some(Replied(Body(u, View(s, u.slug).value.bytes)))
  {
    PhaseAtOk(s, u.slug);
    OpenMissesIff(s, u, c);
    SameSlugSameName(View(s, u.slug).value.u, u);
  }

  lemma RowOnDiskIff(st: Store, ph: Phase, slug: string)
    requires PhaseOk(ph, slug) && Holds(st, slug, ph) && slug in st.rows
    ensures st.rows[slug].ext !in OnDisk(ph) <==> ph.RowOnly? || (ph.Swapping? && ph.prev.ext != ph.u.ext)
  {
  }

  lemma AtOnce(s: System, v: Visit)
    requires Visits(s, v) && v.between == []
    ensures Exec(s, UpToOpen(v)).store == Exec(s, UpToLookup(v)).store
  {
    LookupTurn(s, v);
    ExecAppend(s, UpToLookup(v), Run(v.id, v.a));
    assert UpToOpen(v) == UpToLookup(v) + [Run(v.id, v.a)];
  }

  /** A reader that looks up and opens at once finds a row without its file in two windows
      and no others: an upload's between INSERT and rename, and that of a replace that
      changes the extension between UPDATE and rename. */
  lemma LookupMissesIff(s: System, v: Visit)
    requires Safe(s) && Visits(s, v) && v.between == []
    requires ValidSlug(v.slug) && PhasedAt(Exec(s, UpToLookup(v)), v.slug)
    ensures var at := Exec(s, UpToLookup(v));
            var ph := PhaseAt(at, v.slug);
            var t := Exec(s, Served(v));
            && v.id in t.threads
            && (t.threads[v.id] == Replied(NoFile)
                <==> && v.a.ok && v.b.ok && GetBySlug(at.store.rows, v.slug, at.now).Some?
                     && (ph.RowOnly? || (ph.Swapping? && ph.prev.ext != ph.u.ext)))
  {
    hide Exec, UpToOpen, UpToLookup, Served;
    ServeRun(s, v);
    AtOnce(s, v);
    SafeRun(s, UpToLookup(v));
    var at := Exec(s, UpToLookup(v));
    if v.slug in at.store.rows {
      PhaseAtOk(at, v.slug);
      OnDiskIff(at.store, PhaseAt(at, v.slug), at.store.rows[v.slug]);
      RowOnDiskIff(at.store, PhaseAt(at, v.slug), v.slug);
    }
  }

  /** The replace window in full: the lookup finds the new row, and the reader misses iff the
      extension changed, and gets the old bytes under the new row if it did not. */
  lemma MissWindow(s: System, v: Visit)
    requires Safe(s) && Visits(s, v) && v.between == [] && v.a.ok && v.b.ok
    requires var at := Exec(s, UpToLookup(v));
             && ValidSlug(v.slug) && PhasedAt(at, v.slug)
             && PhaseAt(at, v.slug).Swapping? && Visible(PhaseAt(at, v.slug).u, at.now)
    ensures var at := Exec(s, UpToLookup(v));
            var ph := PhaseAt(at, v.slug);
            var t := Exec(s, Served(v));
            && v.id in t.threads
            && t.threads[v.id] == Replied(if ph.prev.ext != ph.u.ext then NoFile
                                          else Body(ph.u, Content(at.store.files, v.slug + ph.prev.ext)))
  {
    hide Exec, UpToOpen, UpToLookup, Served;
    ServeRun(s, v);
    AtOnce(s, v);
    SafeRun(s, UpToLookup(v));
    var at := Exec(s, UpToLookup(v));
    PhaseAtOk(at, v.slug);
    OnDiskIff(at.store, PhaseAt(at, v.slug), at.store.rows[v.slug]);
  }

  /** Nothing the run does to `slug` deletes it or changes its extension. */
  ghost predicate KeepsExtension(s: System, es: seq<Event>, slug: string, ext: string) {
    forall i | 0 <= i < |es| ::
      match EventOp(Exec(s, es[..i]), es[i])
      case Nop => true
      case Put(sl, item) => sl == slug ==> item.u.ext == ext
      case Del(sl) => sl != slug
  }

  /** `bytes` is what the slug held at the start or the whole body of a replace in the run. */
  ghost predicate OldOrNew(s: System, es: seq<Event>, slug: string, bytes: Bytes, start: Bytes) {
    bytes == start
    || exists i, u :: 0 <= i < |es| && EventOp(Exec(s, es[..i]), es[i]) == Put(slug, Item(u, bytes))
  }

  lemma {:induction false} ReplayKeeps(s: System, es: seq<Event>, slug: string, was: Item)
    requires KeepsExtension(s, es, slug, was.u.ext)
    ensures var is' := Replay(s, es, slug, Some(was));
            is'.Some? && is'.value.u.ext == was.u.ext && OldOrNew(s, es, slug, is'.value.bytes, was.bytes)
    decreases |es|
  {
    if es != [] {
      var k := |es| - 1;
      assert forall i | 0 <= i < k :: es[..k][..i] == es[..i];
      ReplayKeeps(s, es[..k], slug, was);
      var mid := Replay(s, es[..k], slug, Some(was)).value;
      var op := EventOp(Exec(s, es[..k]), es[k]);
      if op.Put? && op.slug == slug {
        assert op == Put(slug, Item(op.item.u, op.item.bytes));
      } else if mid.bytes != was.bytes {
        var i, u :| 0 <= i < k && EventOp(Exec(s, es[..k][..i]), es[..k][i]) == Put(slug, Item(u, mid.bytes));
        assert es[..k][..i] == es[..i];
        assert EventOp(Exec(s, es[..i]), es[i]) == Put(slug, Item(u, mid.bytes));
      }
    }
  }

  lemma OrderlySplit(s: System, es: seq<Event>, fs: seq<Event>, slug: string)
    requires OrderlyAt(s, es + fs, slug)
    ensures OrderlyAt(s, es, slug) && OrderlyAt(Exec(s, es), fs, slug)
  {
    OrderlyPrefix(s, es + fs, slug, |es|);
    assert (es + fs)[..|es|] == es;
    forall i | 0 <= i < |fs|
      ensures Live(fs[i]) && !Contends(Exec(Exec(s, es), fs[..i]), fs[i], slug)
    {
      assert (es + fs)[..|es| + i] == es + fs[..i] && (es + fs)[|es| + i] == fs[i];
      ExecConcat(s, es, fs[..i]);
    }
  }

  /** What happens between the lookup and the open, the lookup itself included. */
  function Overtaking(v: Visit): seq<Event> {
    [Run(v.id, v.a)] + v.between
  }

  lemma LookupThenOvertaking(s: System, v: Visit)
    ensures UpToOpen(v) == UpToLookup(v) + Overtaking(v)
    ensures Exec(s, UpToOpen(v)) == Exec(Exec(s, UpToLookup(v)), Overtaking(v))
  {
    assert UpToOpen(v) == UpToLookup(v) + Overtaking(v);
    ExecConcat(s, UpToLookup(v), Overtaking(v));
  }

  /** A reader overtaken by any events between its lookup and its open, with whatever races
      on other slugs: it misses the file iff it found a row and the slug by then has no file
      of the extension it looked up. */
  lemma ReaderMissesIff(s: System, v: Visit)
    requires Safe(s) && ValidSlug(v.slug) && ExclusiveAt(s, v.slug) && PhasedAt(s, v.slug)
    requires Visits(s, v) && OrderlyAt(s, UpToOpen(v), v.slug)
    ensures var at := Exec(s, UpToLookup(v));
            var t := Exec(s, Served(v));
            && v.id in t.threads
            && (t.threads[v.id] == Replied(NoFile)
                <==> && v.a.ok && v.b.ok && GetBySlug(at.store.rows, v.slug, at.now).Some?
                     && at.store.rows[v.slug].ext !in OnDisk(PhaseAt(Exec(s, UpToOpen(v)), v.slug)))
  {
    hide Exec, UpToOpen, UpToLookup, Served, OnDisk;
    ServeRun(s, v);
    RunRefines(s, UpToOpen(v), v.slug);
    SafeRun(s, UpToLookup(v));
    SafeRun(s, UpToOpen(v));
    var at, t := Exec(s, UpToLookup(v)), Exec(s, UpToOpen(v));
    if v.slug in at.store.rows {
      PhaseAtOk(t, v.slug);
      OnDiskIff(t.store, PhaseAt(t, v.slug), at.store.rows[v.slug]);
    }
  }

  /** While same-extension replaces are under way or begin, however many, such a reader gets
      the complete old or the complete new bytes and never a missing file, provided the row
      it looked up has the extension of the file then served. */
  lemma ReaderSeesOldOrNew(s: System, v: Visit, u: Upload)
    requires Safe(s) && ValidSlug(v.slug) && ExclusiveAt(s, v.slug) && PhasedAt(s, v.slug)
    requires Visits(s, v) && OrderlyAt(s, UpToOpen(v), v.slug) && v.a.ok && v.b.ok
    requires var at := Exec(s, UpToLookup(v));
             && GetBySlug(at.store.rows, v.slug, at.now) == Some(u)
             && View(at, v.slug).Some? && View(at, v.slug).value.u.ext == u.ext
             && KeepsExtension(at, Overtaking(v), v.slug, u.ext)
    ensures var at := Exec(s, UpToLookup(v));
            var t := Exec(s, Served(v));
            && v.id in t.threads && t.threads[v.id].Replied?
            && t.threads[v.id].reply.Body? && t.threads[v.id].reply.u == u
            && OldOrNew(at, Overtaking(v), v.slug, t.threads[v.id].reply.bytes, View(at, v.slug).value.bytes)
  {
    hide Exec, UpToOpen, UpToLookup, Overtaking, Served, OldOrNew, KeepsExtension, OrderlyAt;
    var at, open := Exec(s, UpToLookup(v)), Exec(s, UpToOpen(v));
    LookupThenOvertaking(s, v);
    OrderlySplit(s, UpToLookup(v), Overtaking(v), v.slug);
    RunRefines(s, UpToLookup(v), v.slug);
    SafeRun(s, UpToLookup(v));
    RunRefines(at, Overtaking(v), v.slug);
    SafeRun(s, UpToOpen(v));
    ReplayKeeps(at, Overtaking(v), v.slug, View(at, v.slug).value);
    ServeRun(s, v);
    RowsKeyed(at);
    OpenReadsView(open, u, v.b);
  }

  /** The row a reader looks up has the extension of the file served, unless it looked up in
      one of the two windows of LookupMissesIff. */
  lemma LookupAgreesIff(s: System, u: Upload)
    requires Safe(s) && ValidSlug(u.slug) && PhasedAt(s, u.slug)
    requires GetBySlug(s.store.rows, u.slug, s.now) == Some(u)
    ensures var ph := PhaseAt(s, u.slug);
            View(s, u.slug).Some? && View(s, u.slug).value.u.ext == u.ext
            <==> !(ph.RowOnly? || (ph.Swapping? && ph.prev.ext != ph.u.ext))
  {
    PhaseAtOk(s, u.slug);
    RowOnDiskIff(s.store, PhaseAt(s, u.slug), u.slug);
  }

  // ---- Lazy expiry -----------------------------------------------------------------

  predicate IsSweep(th: Thread) {
    th.List? || th.Sweeping? || th.SweepFile?
  }

  /** At every instant the sweeper's query and the readers' query split the table. */
  lemma VisibleOrExpired(rows: Rows, now: int)
    ensures VisibleRows(rows, now).Keys + ExpiredRows(rows, now).Keys == rows.Keys
    ensures VisibleRows(rows, now).Keys !! ExpiredRows(rows, now).Keys
  {
    assert forall s | s in rows :: s in VisibleRows(rows, now) || s in ExpiredRows(rows, now);
  }

  /** Any step of a sweep, in any state at all: readers at `now'` can tell if and only if it
      deletes a row that is visible then. */
  lemma SweepStepVisibleIff(s: System, id: nat, c: Choice, now': int)
    requires id in s.threads && IsSweep(s.threads[id])
    ensures var op := OpOf(s.store, s.threads[id], c);
            VisibleRows(Apply(s, Run(id, c)).store.rows, now') == VisibleRows(s.store.rows, now')
            <==> (op.Del? ==> !Visible(s.store.rows[op.slug], now'))
  {
    var op := OpOf(s.store, s.threads[id], c);
    var after := Apply(s, Run(id, c)).store.rows;
    if op.Del? {
      assert after == s.store.rows - {op.slug};
      assert op.slug !in VisibleRows(after, now');
      assert op.slug in VisibleRows(s.store.rows, now') <==> Visible(s.store.rows[op.slug], now');
    } else {
      assert after == s.store.rows;
    }
  }

  /** The sweeper is invisible as long as nobody else works on the slug it is at: no step of
      it changes what any read query answers at any later time, so deleting lazily agrees
      with a map that forgets each row the instant it expires. */
  lemma SweepInvisible(s: System, id: nat, c: Choice, now': int)
    requires Safe(s) && id in s.threads && IsSweep(s.threads[id]) && now' >= s.now
    requires var op := OpOf(s.store, s.threads[id], c);
             op.Del? ==> ExclusiveAt(s, op.slug) && PhasedAt(s, op.slug)
    ensures VisibleRows(Apply(s, Run(id, c)).store.rows, now') == VisibleRows(s.store.rows, now')
    ensures forall slug :: GetBySlug(Apply(s, Run(id, c)).store.rows, slug, now') == GetBySlug(s.store.rows, slug, now')
  {
    var th := s.threads[id];
    var op := OpOf(s.store, th, c);
    if op.Del? {
      assert Claims(s, id, op.slug);
      ClaimIs(s, id, op.slug);
      assert Holds(s.store, op.slug, PhaseAt(s, op.slug));
    }
    SweepStepVisibleIff(s, id, c, now');
    var a, b := Apply(s, Run(id, c)).store.rows, s.store.rows;
    forall slug
      ensures GetBySlug(a, slug, now') == GetBySlug(b, slug, now')
    {
      assert GetBySlug(a, slug, now')
          == if slug in VisibleRows(a, now') then Some(VisibleRows(a, now')[slug]) else None;
    }
  }

  // ---- Row first, then file --------------------------------------------------------

  predicate IsRemoval(th: Thread) {
    IsSweep(th) || th.DropRow? || th.DropFile?
  }

  lemma NoOtherOwner(st: Store, u: Upload, slug: string)
    requires RowsOk(st.rows) && UploadOk(u) && u.slug !in st.rows && slug in st.rows
    ensures DiskName(st.rows[slug]) != DiskName(u)
  {
    DiskNameBelongs(u, slug);
    DiskNameBelongs(st.rows[slug], slug);
  }

  lemma RowFirstStep(st: Store, th: Thread, now: int, c: Choice, slug: string)
    requires RowsOk(st.rows) && ThreadOk(th, now) && IsRemoval(th)
    requires th.DropFile? || th.SweepFile? ==> th.u.slug !in st.rows
    requires slug in StepThread(st, th, now, c).store.rows
    ensures var st' := StepThread(st, th, now, c).store;
            && slug in st.rows && st'.rows[slug] == st.rows[slug]
            && (HasFile(st, st.rows[slug]) ==>
                  HasFile(st', st.rows[slug])
                  && st'.files[DiskName(st.rows[slug])] == st.files[DiskName(st.rows[slug])])
  {
    if th.DropFile? || th.SweepFile? {
      NoOtherOwner(st, th.u, slug);
    }
  }

  /** No step of a delete or a sweep takes the file from under a row: rows only go, and a
      file goes only when its slug has no row left. Only the slug whose file is being
      removed must have nobody else working on it. */
  lemma RowFirst(s: System, id: nat, c: Choice, slug: string)
    requires Safe(s) && id in s.threads && IsRemoval(s.threads[id])
    requires var th := s.threads[id];
             th.DropFile? || th.SweepFile? ==> ExclusiveAt(s, th.u.slug) && PhasedAt(s, th.u.slug)
    requires slug in Apply(s, Run(id, c)).store.rows
    ensures var st, st' := s.store, Apply(s, Run(id, c)).store;
            && slug in st.rows && st'.rows[slug] == st.rows[slug]
            && (HasFile(st, st.rows[slug]) ==>
                  HasFile(st', st.rows[slug])
                  && st'.files[DiskName(st.rows[slug])] == st.files[DiskName(st.rows[slug])])
  {
    var th := s.threads[id];
    if th.DropFile? || th.SweepFile? {
      assert Claims(s, id, th.u.slug);
      ClaimIs(s, id, th.u.slug);
      assert Holds(s.store, th.u.slug, PhaseAt(s, th.u.slug));
    }
    RowFirstStep(s.store, th, s.now, c, slug);
  }
}
