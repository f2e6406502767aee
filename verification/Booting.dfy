/** The three boot passes as functions of the store, and what their composition restores. */
module Booting {
  import opened Names
  import opened Table

  /** What goes wrong during one pass: the listing calls, and the names or slugs whose own
      storage call errors. */
  datatype Faults = Faults(listRows: bool, readDir: bool, info: set<string>, remove: set<string>,
                           stat: set<string>, deleteRow: set<string>)

  const NO_FAULTS := Faults(false, false, {}, {}, {}, {})

  /** Five minutes: the age below which a scratch file may still be a live write. */
  const REAP_AGE := 300_000_000_000

  // ---- ReapPartials ----------------------------------------------------------------

  predicate Stale(files: Files, n: string, now: int) {
    IsFile(files, n) && IsPartial(n) && files[n].mtime <= now - REAP_AGE
  }

  function Reap(files: Files, now: int, f: Faults): Files {
    if f.readDir then files
    else map n | n in files && !(Stale(files, n, now) && n !in f.info && n !in f.remove) :: files[n]
  }

  // ---- ReconcileFiles --------------------------------------------------------------

  /** The disk names that rows claim, expired rows included. */
  function Known(rows: Rows): set<string> {
    set s | s in rows :: DiskName(rows[s])
  }

  predicate Orphan(rows: Rows, files: Files, n: string) {
    IsFile(files, n) && !IsPartial(n) && n !in Known(rows)
  }

  function DropOrphans(st: Store, f: Faults): Store {
    if f.listRows || f.readDir then st
    else st.(files := map n | n in st.files && !(Orphan(st.rows, st.files, n) && n !in f.remove) :: st.files[n])
  }

  // ---- ReconcileRows ---------------------------------------------------------------

  predicate DanglingRow(rows: Rows, files: Files, s: string) {
    s in rows && DiskName(rows[s]) !in files
  }

  function DropDangling(st: Store, f: Faults): Store {
    if f.listRows then st
    else st.(rows := map s | s in st.rows
                             && !(DanglingRow(st.rows, st.files, s)
                                  && DiskName(st.rows[s]) !in f.stat && s !in f.deleteRow) :: st.rows[s])
  }

  // ---- The boot sequence -----------------------------------------------------------

  function BootWith(st: Store, now: int, f: Faults, g: Faults, h: Faults): Store {
    DropDangling(DropOrphans(st.(files := Reap(st.files, now, f)), g), h)
  }

  function Boot(st: Store, now: int): Store {
    BootWith(st, now, NO_FAULTS, NO_FAULTS, NO_FAULTS)
  }

  /** The invariant the boot sequence exists to establish. */
  ghost predicate Reconciled(st: Store) {
    && (forall s | s in st.rows :: DiskName(st.rows[s]) in st.files)
    && (forall n | IsFile(st.files, n) && !IsPartial(n) :: n in Known(st.rows))
  }

  /** A row comes through the boot sequence iff its file is there and is not stale scratch. */
  predicate RowSurvives(st: Store, s: string, now: int) {
    s in st.rows && DiskName(st.rows[s]) in st.files && !Stale(st.files, DiskName(st.rows[s]), now)
  }

  /** What comes through: directories, young scratch, and the files that rows own. */
  predicate FileSurvives(st: Store, n: string, now: int) {
    n in st.files && !Stale(st.files, n, now) && !Orphan(st.rows, st.files, n)
  }

  /** From any rows and files whatever, boot ends reconciled; it creates and alters nothing;
      it keeps exactly the rows that survive, and exactly the directories, the young scratch
      files and the files of rows. */
  lemma BootConverges(st: Store, now: int)
    ensures var d := Boot(st, now);
            && Reconciled(d)
            && (forall s :: s in d.rows <==> RowSurvives(st, s, now))
            && (forall s | s in d.rows :: d.rows[s] == st.rows[s])
            && (forall n | n in d.files :: n in st.files && d.files[n] == st.files[n])
            && (forall n :: n in d.files <==> FileSurvives(st, n, now))
  {
    var a := st.(files := Reap(st.files, now, NO_FAULTS));
    var b := DropOrphans(a, NO_FAULTS);
    assert forall n | n in st.files :: Orphan(st.rows, st.files, n) ==> !Stale(st.files, n, now);
    assert forall n :: n in b.files <==> FileSurvives(st, n, now);
    forall s | s in st.rows
      ensures DiskName(st.rows[s]) in b.files <==> RowSurvives(st, s, now)
    {
      assert DiskName(st.rows[s]) in Known(st.rows);
    }
    var d := Boot(st, now);
    forall n | IsFile(d.files, n) && !IsPartial(n)
      ensures n in Known(d.rows)
    {
      assert n in Known(st.rows);
      var s :| s in st.rows && DiskName(st.rows[s]) == n;
      assert s in d.rows;
    }
  }

  lemma PartialIs(n: string)
    ensures IsPartial(n) <==> |n| >= 8 && n[|n| - 8..] == ".partial"
  {
  }

  /** What boot leaves, name by name and row by row: directories, scratch files under five
      minutes old, and other files that some row names; and the rows whose name is left. */
  lemma BootExactly(st: Store, now: int)
    ensures var d := Boot(st, now);
            && (forall n :: n in d.files <==>
                  && n in st.files
                  && (|| st.files[n].Dir?
                      || if |n| >= 8 && n[|n| - 8..] == ".partial" then now - st.files[n].mtime < 300_000_000_000
                         else exists s :: s in st.rows && st.rows[s].slug + st.rows[s].ext == n))
            && (forall s :: s in d.rows <==> s in st.rows && st.rows[s].slug + st.rows[s].ext in d.files)
            && (forall n | n in d.files :: d.files[n] == st.files[n])
            && (forall s | s in d.rows :: d.rows[s] == st.rows[s])
  {
    hide IsPartial, Boot, Reconciled;
    var d := Boot(st, now);
    BootConverges(st, now);
    forall n
      ensures n in d.files <==>
              && n in st.files
              && (|| st.files[n].Dir?
                  || if |n| >= 8 && n[|n| - 8..] == ".partial" then now - st.files[n].mtime < 300_000_000_000
                     else exists s :: s in st.rows && st.rows[s].slug + st.rows[s].ext == n)
    {
      PartialIs(n);
      assert n in Known(st.rows) <==> exists s :: s in st.rows && DiskName(st.rows[s]) == n;
    }
    forall s | s in st.rows
      ensures s in d.rows <==> DiskName(st.rows[s]) in d.files
    {
      assert DiskName(st.rows[s]) in Known(st.rows);
    }
  }

  /** A committed upload survives boot iff its extension does not end in ".partial" or its
      file is under five minutes old. So the exclusion is needed, and it is the only one. */
  lemma CommittedSurvivesBoot(st: Store, s: string, now: int)
    requires RowsOk(st.rows) && s in st.rows && IsFile(st.files, st.rows[s].slug + st.rows[s].ext)
    ensures var u := st.rows[s];
            s in Boot(st, now).rows <==>
            || !(|u.ext| >= 8 && u.ext[|u.ext| - 8..] == ".partial")
            || now - st.files[u.slug + u.ext].mtime < 300_000_000_000
  {
    BootConverges(st, now);
    PartialByExtension(st.rows[s].slug, st.rows[s].ext);
  }

  /** Under any faults that let both listings through, what stays unreconciled is exactly
      what a failing call was responsible for. */
  lemma BootLeftovers(st: Store, now: int, f: Faults, g: Faults, h: Faults)
    requires !g.listRows && !g.readDir && !h.listRows
    ensures var d := BootWith(st, now, f, g, h);
            && (forall s :: DanglingRow(d.rows, d.files, s) <==>
                  && s in st.rows
                  && DiskName(st.rows[s]) !in Reap(st.files, now, f)
                  && (DiskName(st.rows[s]) in h.stat || s in h.deleteRow))
            && (forall n :: Orphan(d.rows, d.files, n) <==> Orphan(st.rows, st.files, n) && n in g.remove)
            && (!f.readDir ==> forall n ::
                  Stale(d.files, n, now) <==> Stale(st.files, n, now) && (n in f.info || n in f.remove))
  {
    var a := st.(files := Reap(st.files, now, f));
    var b := DropOrphans(a, g);
    var d := BootWith(st, now, f, g, h);
    forall s | s in st.rows
      ensures DiskName(st.rows[s]) in b.files <==> DiskName(st.rows[s]) in a.files
    {
      assert DiskName(st.rows[s]) in Known(st.rows);
    }
    forall n | n in d.files
      ensures n in Known(d.rows) <==> n in Known(st.rows)
    {
      if n in Known(st.rows) {
        var s :| s in st.rows && DiskName(st.rows[s]) == n;
        assert s in d.rows;
      }
    }
    assert !f.readDir ==> forall n :: Stale(st.files, n, now) ==> !Orphan(st.rows, st.files, n);
  }

  /** The two reconcile passes commute, whatever fails in either, and each is idempotent. */
  lemma ReconcilePassesCommute(st: Store, f: Faults, g: Faults)
    ensures DropDangling(DropOrphans(st, f), g) == DropOrphans(DropDangling(st, g), f)
    ensures DropOrphans(DropOrphans(st, f), f) == DropOrphans(st, f)
    ensures DropDangling(DropDangling(st, g), g) == DropDangling(st, g)
  {
    var b, c := DropOrphans(st, f), DropDangling(st, g);
    forall s | s in st.rows
      ensures DiskName(st.rows[s]) in b.files <==> DiskName(st.rows[s]) in st.files
    {
      assert DiskName(st.rows[s]) in Known(st.rows);
    }
    forall n | n in st.files
      ensures n in Known(c.rows) <==> n in Known(st.rows)
    {
      if n in Known(st.rows) {
        var s :| s in st.rows && DiskName(st.rows[s]) == n;
        assert s in c.rows;
      }
    }
    assert DropDangling(b, g).rows == c.rows;
    assert DropOrphans(c, f).files == b.files;
    assert DropOrphans(b, f).files == b.files;
    assert DropDangling(c, g).rows == c.rows;
  }

  // ---- Interrupted boots -----------------------------------------------------------

  /** One removal by one of the passes. */
  datatype Removal = ReapOne(name: string) | DropFileOf(name: string) | DropRowOf(slug: string)

  /** The removal takes effect only where the pass would make it. */
  function Remove1(st: Store, now: int, r: Removal): Store {
    match r
    case ReapOne(n) => if Stale(st.files, n, now) then st.(files := st.files - {n}) else st
    case DropFileOf(n) => if Orphan(st.rows, st.files, n) then st.(files := st.files - {n}) else st
    case DropRowOf(s) => if DanglingRow(st.rows, st.files, s) then st.(rows := st.rows - {s}) else st
  }

  function Removals(st: Store, now: int, rs: seq<Removal>): Store
    decreases |rs|
  {
    if rs == [] then st else Removals(Remove1(st, now, rs[0]), now, rs[1..])
  }

  /** Boot depends on a store only through what survives. */
  lemma SameSurvivorsSameBoot(st: Store, st': Store, now: int)
    requires forall s :: RowSurvives(st', s, now) <==> RowSurvives(st, s, now)
    requires forall s | RowSurvives(st, s, now) && RowSurvives(st', s, now) :: st'.rows[s] == st.rows[s]
    requires forall n :: FileSurvives(st', n, now) <==> FileSurvives(st, n, now)
    requires forall n | FileSurvives(st, n, now) && FileSurvives(st', n, now) :: st'.files[n] == st.files[n]
    ensures Boot(st', now) == Boot(st, now)
  {
    var d, d' := Boot(st, now), Boot(st', now);
    BootConverges(st, now);
    BootConverges(st', now);
    assert d'.rows == d.rows;
    assert d'.files == d.files;
  }

  lemma OneRemovalThenBoot(st: Store, now: int, r: Removal)
    ensures Boot(Remove1(st, now, r), now) == Boot(st, now)
  {
    var st' := Remove1(st, now, r);
    if st' != st {
      if r.DropRowOf? {
        forall n | n in st.files
          ensures n in Known(st'.rows) <==> n in Known(st.rows)
        {
          if n in Known(st.rows) {
            var s :| s in st.rows && DiskName(st.rows[s]) == n;
            assert s in st'.rows;
          }
        }
      } else {
        assert forall s | s in st.rows :: DiskName(st.rows[s]) in Known(st.rows);
      }
      SameSurvivorsSameBoot(st, st', now);
    }
  }

  /** Dying during boot is harmless: however many removals an interrupted boot got through,
      and in whatever order, the next boot ends where an uninterrupted one would have. */
  lemma {:induction false} InterruptedBoot(st: Store, now: int, rs: seq<Removal>)
    ensures Boot(Removals(st, now, rs), now) == Boot(st, now)
    decreases |rs|
  {
    if rs != [] {
      OneRemovalThenBoot(st, now, rs[0]);
      InterruptedBoot(Remove1(st, now, rs[0]), now, rs[1..]);
    }
  }

  // ---- Boot as removals ------------------------------------------------------------

  lemma ReconciledBoot(st: Store, now: int)
    requires forall n :: !Stale(st.files, n, now) && !Orphan(st.rows, st.files, n)
    requires forall s :: !DanglingRow(st.rows, st.files, s)
    ensures Boot(st, now) == st
  {
    BootConverges(st, now);
    forall n
      ensures n in st.files <==> FileSurvives(st, n, now)
    {
      assert !Stale(st.files, n, now) && !Orphan(st.rows, st.files, n);
    }
    forall s
      ensures s in st.rows <==> RowSurvives(st, s, now)
    {
      assert !DanglingRow(st.rows, st.files, s);
    }
    assert Boot(st, now).rows == st.rows;
    assert Boot(st, now).files == st.files;
  }

  lemma OneRemovalShrinks(st: Store, now: int, r: Removal)
    requires Remove1(st, now, r) != st
    ensures |Remove1(st, now, r).rows| + |Remove1(st, now, r).files| < |st.rows| + |st.files|
  {
    var d := Remove1(st, now, r);
    if r.DropRowOf? {
      assert d.rows.Keys == st.rows.Keys - {r.slug};
      assert |d.rows.Keys| == |d.rows| && |st.rows.Keys| == |st.rows|;
    } else {
      assert d.files.Keys == st.files.Keys - {r.name};
      assert |d.files.Keys| == |d.files| && |st.files.Keys| == |st.files|;
    }
  }

  /** The boot sequence is some sequence of single removals, each one a removal that one of
      the passes would make. */
  lemma BootByRemovals(st: Store, now: int) returns (rs: seq<Removal>)
    ensures Removals(st, now, rs) == Boot(st, now)
    decreases |st.rows| + |st.files|
  {
    rs := [];
    if r :| Remove1(st, now, r) != st {
      OneRemovalShrinks(st, now, r);
      OneRemovalThenBoot(st, now, r);
      var more := BootByRemovals(Remove1(st, now, r), now);
      rs := [r] + more;
      assert rs[1..] == more;
    } else {
      forall n
        ensures !Stale(st.files, n, now) && !Orphan(st.rows, st.files, n)
      {
        assert Remove1(st, now, ReapOne(n)) == st;
        assert Remove1(st, now, DropFileOf(n)) == st;
      }
      forall s
        ensures !DanglingRow(st.rows, st.files, s)
      {
        assert Remove1(st, now, DropRowOf(s)) == st;
      }
      ReconciledBoot(st, now);
    }
  }
}
