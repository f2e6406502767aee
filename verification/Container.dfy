/** The store as the program holds it: one object with the table and the directory, changed
    in place by one storage call at a time. */
module Containers {
  import opened Common
  import opened Names
  import opened Table
  import opened Booting
  import opened Machine

  datatype Status = Done | SlugExists | NotFound | StorageError

  /** What the environment does to one row's turn in a sweep. */
  datatype RowFault = RowFault(cancelled: bool,      // the context is done before the row
                               vanished: bool,       // a handler deleted the row since it was listed
                               interrupted: bool,    // the DELETE returns context.Canceled
                               deleteFails: bool,    // the DELETE returns another error
                               removeFails: bool)    // removing the file fails

  const NO_ROW_FAULT := RowFault(false, false, false, false, false)

  predicate Stops(f: RowFault) {
    f.cancelled || f.interrupted
  }

  /** The pass deletes this row itself. */
  predicate Deletes(f: RowFault) {
    !Stops(f) && !f.vanished && !f.deleteFails
  }

  type FaultPlan = nat -> RowFault

  predicate IsLeast(rows: Rows, todo: set<string>, key: Upload -> int, s: string)
    requires todo <= rows.Keys
  {
    s in todo && forall t | t in todo :: key(rows[s]) <= key(rows[t])
  }

  /** Some row comes first in the order of `key`. */
  lemma Least(rows: Rows, todo: set<string>, key: Upload -> int) returns (s: string)
    requires todo != {} && todo <= rows.Keys
    ensures IsLeast(rows, todo, key, s)
    decreases |todo|
  {
    s :| s in todo;
    if todo != {s} {
      var r := Least(rows, todo - {s}, key);
      if key(rows[r]) < key(rows[s]) {
        s := r;
      }
    }
  }

  function Slugs(us: seq<Upload>): set<string> {
    set u | u in us :: u.slug
  }

  predicate Ordered(us: seq<Upload>, key: Upload -> int) {
    forall i, j | 0 <= i < j < |us| :: us[i].slug != us[j].slug && key(us[i]) <= key(us[j])
  }

  /** `us` lists every row of `rows` once, in the order of `key`. */
  predicate Lists(us: seq<Upload>, rows: Rows, key: Upload -> int) {
    && Slugs(us) == rows.Keys
    && (forall u | u in us :: rows[u.slug] == u)
    && Ordered(us, key)
  }

  const BY_EXPIRY := (u: Upload) => ExpiresAt(u)
  const NEWEST_FIRST := (u: Upload) => -u.uploadedAt

  lemma SlugsAppend(us: seq<Upload>, u: Upload)
    ensures Slugs(us + [u]) == Slugs(us) + {u.slug}
  {
    assert forall v :: v in us + [u] <==> v in us || v == u;
  }

  /** `us` is the ordered part and `todo` the rest, every key of which comes later. */
  ghost predicate Sorting(us: seq<Upload>, todo: set<string>, rows: Rows, key: Upload -> int) {
    && todo <= rows.Keys && Slugs(us) !! todo && Slugs(us) + todo == rows.Keys
    && (forall u | u in us :: u.slug in rows && rows[u.slug] == u)
    && (forall u, t | u in us && t in todo :: key(u) <= key(rows[t]))
    && Ordered(us, key)
  }

  lemma OrderedAppend(us: seq<Upload>, u: Upload, key: Upload -> int)
    requires Ordered(us, key) && forall v | v in us :: v.slug != u.slug && key(v) <= key(u)
    ensures Ordered(us + [u], key)
  {
    var us' := us + [u];
    assert forall i | 0 <= i < |us| :: us'[i] == us[i] && us[i] in us;
  }

  lemma SortOne(us: seq<Upload>, todo: set<string>, rows: Rows, key: Upload -> int, s: string)
    requires Keyed(rows) && Sorting(us, todo, rows, key) && IsLeast(rows, todo, key, s)
    ensures Sorting(us + [rows[s]], todo - {s}, rows, key)
  {
    var us' := us + [rows[s]];
    assert rows[s].slug == s;
    SlugsAppend(us, rows[s]);
    assert forall u | u in us' :: u in us || u == rows[s];
    assert forall u | u in us :: u.slug in Slugs(us);
    OrderedAppend(us, rows[s], key);
    hide Ordered;
  }

  /** The ORDER BY of a query over the rows it selected. */
  method OrderBy(rows: Rows, key: Upload -> int) returns (us: seq<Upload>)
    requires Keyed(rows)
    ensures Lists(us, rows, key)
  {
    us := [];
    var todo := rows.Keys;
    while todo != {}
      invariant Sorting(us, todo, rows, key)
      decreases |todo|
    {
      ghost var least := Least(rows, todo, key);
      var s :| IsLeast(rows, todo, key, s);
      SortOne(us, todo, rows, key, s);
      us := us + [rows[s]];
      todo := todo - {s};
    }
  }

  /** A listing of some of the rows of a table has exactly those. */
  lemma ListedIff(us: seq<Upload>, rows: Rows, some: Rows, key: Upload -> int)
    requires Keyed(rows) && Lists(us, some, key)
    requires forall s | s in some :: s in rows && some[s] == rows[s]
    ensures forall u :: u in us <==> u.slug in some && some[u.slug] == u
    ensures forall u :: u in rows.Values <==> u.slug in rows && rows[u.slug] == u
  {
    forall u
      ensures u in us <==> u.slug in some && some[u.slug] == u
      ensures u in rows.Values <==> u.slug in rows && rows[u.slug] == u
    {
      if u in us {
        assert u.slug in Slugs(us);
      }
      if u.slug in some && some[u.slug] == u {
        assert u.slug in Slugs(us);
        var v :| v in us && v.slug == u.slug;
      }
    }
  }

  // ---- How far a sweep has got -----------------------------------------------------

  /** Nothing cancels the pass during its first `n` rows. */
  predicate Undisturbed(plan: FaultPlan, n: nat) {
    forall i: nat | i < n :: !Stops(plan(i))
  }

  /** What the visited rows add up to: deleted by this pass, gone before it came to them,
      files it tried to remove, files it removed. */
  datatype Tally = Tally(mine: set<string>, gone: set<string>, tried: set<string>, removed: set<string>)

  function CountOne(t: Tally, u: Upload, f: RowFault): Tally {
    Tally(if Deletes(f) then t.mine + {u.slug} else t.mine,
          if f.vanished then t.gone + {u.slug} else t.gone,
          if Deletes(f) then t.tried + {DiskName(u)} else t.tried,
          if Deletes(f) && !f.removeFails then t.removed + {DiskName(u)} else t.removed)
  }

  function Visited(us: seq<Upload>, n: nat, plan: FaultPlan): Tally
    requires n <= |us|
  {
    if n == 0 then Tally({}, {}, {}, {}) else CountOne(Visited(us, n - 1, plan), us[n - 1], plan(n - 1))
  }

  /** The tally, said outright. */
  lemma {:induction false} VisitedMeans(us: seq<Upload>, n: nat, plan: FaultPlan)
    requires n <= |us|
    ensures var t := Visited(us, n, plan);
            && t.mine == (set i: nat | i < n && Deletes(plan(i)) :: us[i].slug)
            && t.gone == (set i: nat | i < n && plan(i).vanished :: us[i].slug)
            && t.tried == (set i: nat | i < n && Deletes(plan(i)) :: DiskName(us[i]))
            && t.removed == (set i: nat | i < n && Deletes(plan(i)) && !plan(i).removeFails :: DiskName(us[i]))
  {
    if n != 0 {
      VisitedMeans(us, n - 1, plan);
    }
  }

  lemma NotYetVisited(us: seq<Upload>, n: nat, plan: FaultPlan)
    requires n < |us| && Ordered(us, BY_EXPIRY)
    ensures us[n].slug !in Visited(us, n, plan).mine && us[n].slug !in Visited(us, n, plan).gone
  {
    VisitedMeans(us, n, plan);
  }

  /** The store and the counter that go with a tally, for a pass begun in `was`. */
  ghost predicate SweptTo(was: Store, st: Store, t: Tally, deleted: nat) {
    deleted == |t.mine| && st == Swept(was, t)
  }

  function Swept(was: Store, t: Tally): Store {
    Store(was.rows - t.mine - t.gone, was.files - t.removed)
  }

  function AfterRow(st: Store, u: Upload, f: RowFault): Store {
    Store(if f.vanished || Deletes(f) then st.rows - {u.slug} else st.rows,
          if Deletes(f) && !f.removeFails then st.files - {DiskName(u)} else st.files)
  }

  lemma SweptNothing(was: Store, plan: FaultPlan)
    ensures SweptTo(was, was, Visited([], 0, plan), 0)
  {
  }

  lemma SweptOneMore(was: Store, st: Store, t: Tally, deleted: nat, u: Upload, f: RowFault)
    requires SweptTo(was, st, t, deleted) && u.slug !in t.mine && u.slug !in t.gone && !Stops(f)
    ensures SweptTo(was, AfterRow(st, u, f), CountOne(t, u, f), if Deletes(f) then deleted + 1 else deleted)
  {
    var d := was.rows - t.mine - t.gone;
    assert d - {u.slug} == was.rows - (t.mine + {u.slug}) - t.gone;
    assert d - {u.slug} == was.rows - t.mine - (t.gone + {u.slug});
    assert was.files - t.removed - {DiskName(u)} == was.files - (t.removed + {DiskName(u)});
  }

  /** The row a pass comes to next is still there, and dealing with it is one more tally. */
  lemma SweepNext(was: Store, st: Store, us: seq<Upload>, n: nat, plan: FaultPlan, deleted: nat, now: int)
    requires n < |us| && !Stops(plan(n))
    requires Lists(us, ExpiredRows(was.rows, now), BY_EXPIRY)
    requires SweptTo(was, st, Visited(us, n, plan), deleted)
    ensures us[n].slug in st.rows
    ensures SweptTo(was, AfterRow(st, us[n], plan(n)), Visited(us, n + 1, plan),
                    if Deletes(plan(n)) then deleted + 1 else deleted)
  {
    NotYetVisited(us, n, plan);
    assert us[n] in us && us[n].slug in Slugs(us);
    SweptOneMore(was, st, Visited(us, n, plan), deleted, us[n], plan(n));
  }

  lemma AllMine(us: seq<Upload>, plan: FaultPlan)
    requires forall i: nat | i < |us| :: Deletes(plan(i)) && !plan(i).vanished
    ensures Visited(us, |us|, plan).mine == Slugs(us) && Visited(us, |us|, plan).gone == {}
  {
    VisitedMeans(us, |us|, plan);
    assert forall u | u in us :: exists i: nat :: i < |us| && us[i] == u;
    assert forall i: nat | i < |us| :: us[i] in us;
  }

  /** A pass in which nothing goes wrong leaves exactly the rows that had not expired when it
      listed them, and counts the others. */
  lemma ErrorFreePass(was: Store, st: Store, us: seq<Upload>, plan: FaultPlan, deleted: nat, now: int)
    requires Slugs(us) == ExpiredRows(was.rows, now).Keys
    requires forall i: nat | i < |us| :: Deletes(plan(i)) && !plan(i).vanished
    requires SweptTo(was, st, Visited(us, |us|, plan), deleted)
    ensures st.rows == VisibleRows(was.rows, now) && deleted == |ExpiredRows(was.rows, now)|
  {
    AllMine(us, plan);
    LessExpired(was.rows, now);
    hide Visited, Slugs, ExpiredRows, VisibleRows, Deletes;
  }

  lemma LessExpired(rows: Rows, now: int)
    ensures rows - ExpiredRows(rows, now).Keys - {} == VisibleRows(rows, now)
    ensures |ExpiredRows(rows, now).Keys| == |ExpiredRows(rows, now)|
  {
    var expired := ExpiredRows(rows, now);
    assert forall s :: s in rows && s !in expired.Keys <==> s in VisibleRows(rows, now);
    assert |expired.Keys| == |expired|;
  }

  /** What such a pass comes to, in the rows' own columns: every row at or past its expiry
      goes, with the file under its name, and nothing else. */
  lemma CleanPass(was: Store, st: Store, us: seq<Upload>, plan: FaultPlan, deleted: nat, now: int)
    requires Keyed(was.rows) && Lists(us, ExpiredRows(was.rows, now), BY_EXPIRY)
    requires forall i: nat :: plan(i) == NO_ROW_FAULT
    requires SweptTo(was, st, Visited(us, |us|, plan), deleted)
    ensures st.rows == map s | s in was.rows && now < was.rows[s].uploadedAt + was.rows[s].ttl :: was.rows[s]
    ensures st.files == was.files - (set s | s in was.rows
                && was.rows[s].uploadedAt + was.rows[s].ttl <= now :: was.rows[s].slug + was.rows[s].ext)
    ensures deleted == |set s | s in was.rows && was.rows[s].uploadedAt + was.rows[s].ttl <= now|
  {
    hide SweptTo, Visited, Lists, VisibleRows, ExpiredRows, DiskName;
    assert Slugs(us) == ExpiredRows(was.rows, now).Keys && forall s | s in ExpiredRows(was.rows, now) ::
        s in was.rows && ExpiredRows(was.rows, now)[s] == was.rows[s] by {
      ExpiredAre(was.rows, now);
      ListsSlugs(us, ExpiredRows(was.rows, now), BY_EXPIRY);
    }
    ErrorFreePass(was, st, us, plan, deleted, now);
    ExpiredAre(was.rows, now);
    AllRemoved(us, plan);
    NamesDue(us, was.rows, now);
    SweptFiles(was, st, Visited(us, |us|, plan), deleted);
  }

  lemma ListsSlugs(us: seq<Upload>, rows: Rows, key: Upload -> int)
    requires Lists(us, rows, key)
    ensures Slugs(us) == rows.Keys
  {
  }

  lemma SweptFiles(was: Store, st: Store, t: Tally, deleted: nat)
    requires SweptTo(was, st, t, deleted)
    ensures st.files == was.files - t.removed
  {
  }

  /** The two queries in the rows' own columns. */
  lemma ExpiredAre(rows: Rows, now: int)
    ensures ExpiredRows(rows, now).Keys == set s | s in rows && rows[s].uploadedAt + rows[s].ttl <= now
    ensures forall s | s in ExpiredRows(rows, now) :: s in rows && ExpiredRows(rows, now)[s] == rows[s]
    ensures |ExpiredRows(rows, now)| == |set s | s in rows && rows[s].uploadedAt + rows[s].ttl <= now|
    ensures VisibleRows(rows, now) == map s | s in rows && now < rows[s].uploadedAt + rows[s].ttl :: rows[s]
  {
    var gone := set s | s in rows && rows[s].uploadedAt + rows[s].ttl <= now;
    assert ExpiredRows(rows, now).Keys == gone;
    assert |ExpiredRows(rows, now).Keys| == |ExpiredRows(rows, now)|;
  }

  lemma NamesDue(us: seq<Upload>, rows: Rows, now: int)
    requires Keyed(rows) && Lists(us, ExpiredRows(rows, now), BY_EXPIRY)
    ensures (set u | u in us :: DiskName(u))
            == set s | s in rows && rows[s].uploadedAt + rows[s].ttl <= now :: rows[s].slug + rows[s].ext
  {
    ListedIff(us, rows, ExpiredRows(rows, now), BY_EXPIRY);
    forall s | s in rows && rows[s].uploadedAt + rows[s].ttl <= now
      ensures rows[s] in us && DiskName(rows[s]) == rows[s].slug + rows[s].ext
    {
      assert s in ExpiredRows(rows, now);
    }
    forall u | u in us
      ensures u.slug in rows && rows[u.slug] == u && u.uploadedAt + u.ttl <= now
    {
      assert u.slug in ExpiredRows(rows, now);
    }
  }

  lemma AllRemoved(us: seq<Upload>, plan: FaultPlan)
    requires forall i: nat :: plan(i) == NO_ROW_FAULT
    ensures Visited(us, |us|, plan).removed == set u | u in us :: DiskName(u)
  {
    hide Visited, DiskName;
    VisitedMeans(us, |us|, plan);
    assert forall u | u in us :: exists i: nat :: i < |us| && us[i] == u;
    assert forall i: nat | i < |us| :: us[i] in us;
  }

  // ---- The pass as a thread of the protocol ----------------------------------------

  function SweepCall(now: int, ok: bool, cancelled: bool, pick: string): Turn {
    Turn(now, Choice(ok, cancelled, ANY_SLUG, ANY_SCRATCH, 0, pick))
  }

  /** The turns a sweep takes from row `k` on; a listing comes first. */
  function SweepTurns(us: seq<Upload>, k: nat, plan: FaultPlan, now: int): seq<Turn>
    requires k <= |us|
    decreases |us| - k
  {
    if k == |us| || Stops(plan(k)) then [SweepCall(now, true, true, "")]
    else if Deletes(plan(k)) then
      [SweepCall(now, true, false, us[k].slug), SweepCall(now, !plan(k).removeFails, false, "")]
      + SweepTurns(us, k + 1, plan, now)
    else [SweepCall(now, false, false, us[k].slug)] + SweepTurns(us, k + 1, plan, now)
  }

  function ListCall(now: int): Turn {
    SweepCall(now, true, false, "")
  }

  /** What the thread has still to do from row `k` on. */
  predicate Todo(us: seq<Upload>, k: nat, todo: Rows)
    requires k <= |us|
  {
    && (forall i | k <= i < |us| :: us[i].slug in todo && todo[us[i].slug] == us[i])
    && (forall s | s in todo :: exists i :: k <= i < |us| && us[i].slug == s)
  }

  /** What is left behind after row `u`. */
  function LeftAfter(left: map<string, Phase>, u: Upload, f: RowFault): map<string, Phase> {
    if Deletes(f) && f.removeFails then left[u.slug := FileOnly(u)] else left
  }

  /** A row whose DELETE fails takes one turn. */
  lemma FailedTurn(st: Store, u: Upload, f: RowFault, now: int, todo: Rows, left: map<string, Phase>)
    requires !f.vanished && !Deletes(f) && u.slug in todo
    ensures RunAlone(st, Some(Sweeping(todo, left)), [SweepCall(now, false, false, u.slug)], 0)
            == Next(AfterRow(st, u, f), Some(Sweeping(todo - {u.slug}, LeftAfter(left, u, f))))
  {
    var del := SweepCall(now, false, false, u.slug);
    assert [] + [del] == [del];
    OneMoreTurn(st, Some(Sweeping(todo, left)), [], del);
  }

  /** A row that is deleted takes two: the row, then its file. */
  lemma DeletedTurns(st: Store, u: Upload, f: RowFault, now: int, todo: Rows, left: map<string, Phase>)
    requires Deletes(f) && u.slug in todo && todo[u.slug] == u && u.slug in st.rows
    ensures RunAlone(st, Some(Sweeping(todo, left)),
                     [SweepCall(now, true, false, u.slug), SweepCall(now, !f.removeFails, false, "")], 0)
            == Next(AfterRow(st, u, f), Some(Sweeping(todo - {u.slug}, LeftAfter(left, u, f))))
  {
    var del, rem := SweepCall(now, true, false, u.slug), SweepCall(now, !f.removeFails, false, "");
    assert [] + [del] == [del] && [del] + [rem] == [del, rem];
    OneMoreTurn(st, Some(Sweeping(todo, left)), [], del);
    OneMoreTurn(st, Some(Sweeping(todo, left)), [del], rem);
  }

  /** One row's turns take the thread to the next row. */
  lemma RowTurns(st: Store, us: seq<Upload>, k: nat, plan: FaultPlan, now: int, todo: Rows, left: map<string, Phase>)
    requires k < |us| && !Stops(plan(k)) && !plan(k).vanished
    requires Todo(us, k, todo) && us[k].slug in st.rows
    ensures RunAlone(st, Some(Sweeping(todo, left)), SweepTurns(us, k, plan, now), 0)
            == RunAlone(AfterRow(st, us[k], plan(k)),
                        Some(Sweeping(todo - {us[k].slug}, LeftAfter(left, us[k], plan(k)))),
                        SweepTurns(us, k + 1, plan, now), 0)
  {
    var u, f, more := us[k], plan(k), SweepTurns(us, k + 1, plan, now);
    if Deletes(f) {
      var mine := [SweepCall(now, true, false, u.slug), SweepCall(now, !f.removeFails, false, "")];
      DeletedTurns(st, u, f, now, todo, left);
      AloneThen(st, Some(Sweeping(todo, left)), mine, more, 0);
    } else {
      FailedTurn(st, u, f, now, todo, left);
      AloneThen(st, Some(Sweeping(todo, left)), [SweepCall(now, false, false, u.slug)], more, 0);
    }
  }

  lemma TodoShrinks(us: seq<Upload>, k: nat, todo: Rows)
    requires k < |us| && Ordered(us, BY_EXPIRY) && Todo(us, k, todo)
    ensures Todo(us, k + 1, todo - {us[k].slug})
  {
  }

  lemma TodoAtFirst(us: seq<Upload>, rows: Rows)
    requires Lists(us, rows, BY_EXPIRY)
    ensures Todo(us, 0, rows)
  {
    forall s | s in rows
      ensures exists i :: 0 <= i < |us| && us[i].slug == s
    {
      assert s in Slugs(us);
    }
    assert forall i | 0 <= i < |us| :: us[i] in us && us[i].slug in Slugs(us);
  }

  /** The pass ends: nothing is left to do, or it is cancelled. */
  lemma LastTurn(st: Store, us: seq<Upload>, k: nat, plan: FaultPlan, now: int, todo: Rows, left: map<string, Phase>)
    requires k <= |us| && (k == |us| || Stops(plan(k)))
    ensures RunAlone(st, Some(Sweeping(todo, left)), SweepTurns(us, k, plan, now), 0).store == st
  {
  }

  lemma ListTurn(st: Store, us: seq<Upload>, plan: FaultPlan, now: int)
    ensures RunAlone(st, Some(List), [ListCall(now)] + SweepTurns(us, 0, plan, now), 0)
            == RunAlone(st, Some(Sweeping(ExpiredRows(st.rows, now), map[])), SweepTurns(us, 0, plan, now), 0)
  {
    assert [] + [ListCall(now)] == [ListCall(now)];
    OneMoreTurn(st, Some(List), [], ListCall(now));
    AloneThen(st, Some(List), [ListCall(now)], SweepTurns(us, 0, plan, now), 0);
  }

  /** A pass that has visited `n` rows: its tally, what is still to do, and, if no handler
      got to a row first, where the thread stands. */
  ghost predicate OnTrack(was: Store, st: Store, us: seq<Upload>, n: nat, plan: FaultPlan, deleted: nat, now: int,
                          todo: Rows, left: map<string, Phase>)
    requires n <= |us|
  {
    && SweptTo(was, st, Visited(us, n, plan), deleted) && Todo(us, n, todo)
    && ((forall i: nat | i < n :: !plan(i).vanished) ==>
          RunAlone(was, Some(Sweeping(ExpiredRows(was.rows, now), map[])), SweepTurns(us, 0, plan, now), 0)
          == RunAlone(st, Some(Sweeping(todo, left)), SweepTurns(us, n, plan, now), 0))
  }

  lemma OnTrackAtFirst(was: Store, us: seq<Upload>, plan: FaultPlan, now: int)
    requires Lists(us, ExpiredRows(was.rows, now), BY_EXPIRY)
    ensures OnTrack(was, was, us, 0, plan, 0, now, ExpiredRows(was.rows, now), map[])
  {
    TodoAtFirst(us, ExpiredRows(was.rows, now));
  }

  lemma OnTrackNext(was: Store, st: Store, us: seq<Upload>, n: nat, plan: FaultPlan, deleted: nat, now: int,
                    todo: Rows, left: map<string, Phase>)
    requires n < |us| && !Stops(plan(n)) && Lists(us, ExpiredRows(was.rows, now), BY_EXPIRY)
    requires OnTrack(was, st, us, n, plan, deleted, now, todo, left)
    ensures us[n].slug in st.rows
    ensures OnTrack(was, AfterRow(st, us[n], plan(n)), us, n + 1, plan,
                    if Deletes(plan(n)) then deleted + 1 else deleted, now,
                    todo - {us[n].slug}, LeftAfter(left, us[n], plan(n)))
  {
    TodoShrinks(us, n, todo);
    hide Lists, Ordered, SweptTo, Visited, Todo, RunAlone, SweepTurns, LeftAfter;
    SweepNext(was, st, us, n, plan, deleted, now);
    if !plan(n).vanished {
      RowTurns(st, us, n, plan, now, todo, left);
    }
  }

  lemma OnTrackAtLast(was: Store, st: Store, us: seq<Upload>, n: nat, plan: FaultPlan, deleted: nat, now: int,
                      todo: Rows, left: map<string, Phase>)
    requires n <= |us| && (n == |us| || Stops(plan(n)))
    requires OnTrack(was, st, us, n, plan, deleted, now, todo, left)
    ensures SweptTo(was, st, Visited(us, n, plan), deleted)
    ensures (forall i: nat | i < n :: !plan(i).vanished) ==>
              st == RunAlone(was, Some(Sweeping(ExpiredRows(was.rows, now), map[])),
                             SweepTurns(us, 0, plan, now), 0).store
  {
    LastTurn(st, us, n, plan, now, todo, left);
  }

  // ---- How far a reconcile pass has got --------------------------------------------

  /** The rows left when those in `cursor` are still to be looked at. */
  function RowsLeft(was: Rows, files: Files, cursor: set<string>, f: Faults): Rows {
    map s | s in was
            && (s in cursor || !(DanglingRow(was, files, s)
                                 && DiskName(was[s]) !in f.stat && s !in f.deleteRow)) :: was[s]
  }

  lemma OneRowLess(was: Rows, files: Files, cursor: set<string>, f: Faults, s: string)
    requires s in cursor && s in was
    ensures var gone := DiskName(was[s]) !in files && DiskName(was[s]) !in f.stat && s !in f.deleteRow;
            var left := RowsLeft(was, files, cursor, f);
            && s in left && left[s] == was[s]
            && RowsLeft(was, files, cursor - {s}, f) == (if gone then left - {s} else left)
            && |left - {s}| + 1 == |left|
  {
    var left := RowsLeft(was, files, cursor, f);
    assert (left - {s}).Keys == left.Keys - {s};
  }

  /** The files left when those in `todo` are still to be looked at. */
  function FilesLeft(rows: Rows, was: Files, todo: set<string>, f: Faults): Files {
    map n | n in was && (n in todo || !(Orphan(rows, was, n) && n !in f.remove)) :: was[n]
  }

  lemma FilesLeftEnds(st: Store, f: Faults)
    ensures FilesLeft(st.rows, st.files, st.files.Keys, f) == st.files
    ensures !f.listRows && !f.readDir ==> DropOrphans(st, f) == st.(files := FilesLeft(st.rows, st.files, {}, f))
    ensures f.listRows || f.readDir ==> DropOrphans(st, f) == st
  {
  }

  lemma OneFileLess(rows: Rows, was: Files, todo: set<string>, f: Faults, n: string)
    requires n in todo && n in was
    ensures var gone := Orphan(rows, was, n) && n !in f.remove;
            var left := FilesLeft(rows, was, todo, f);
            && n in left && left[n] == was[n]
            && FilesLeft(rows, was, todo - {n}, f) == (if gone then left - {n} else left)
            && |left - {n}| + 1 == |left|
  {
    var left := FilesLeft(rows, was, todo, f);
    assert (left - {n}).Keys == left.Keys - {n};
  }

  class Container {
    var rows: Rows
    var files: Files

    function Value(): Store
      reads this
    {
      Store(rows, files)
    }

    constructor ()
      ensures Value() == Store(map[], map[])
    {
      rows, files := map[], map[];
    }

    // ---- Rows ----------------------------------------------------------------------

    method Insert(u: Upload, ok: bool) returns (r: Status)
      modifies this`rows
      ensures r == if !ok then StorageError else if u.slug in old(rows) then SlugExists else Done
      ensures rows == if r.Done? then old(rows)[u.slug := u] else old(rows)
    {
      if !ok { return StorageError; }
      if u.slug in rows { return SlugExists; }
      rows := rows[u.slug := u];
      return Done;
    }

    method Get(slug: string, now: int, ok: bool) returns (u: Option<Upload>, r: Status)
      ensures ok ==> r == Done && u == GetBySlug(rows, slug, now)
      ensures ok ==> u == if slug in rows && now < rows[slug].uploadedAt + rows[slug].ttl then Some(rows[slug])
                          else None
      ensures !ok ==> r == StorageError && u == None
    {
      if !ok { return None, StorageError; }
      if slug in rows && Visible(rows[slug], now) { return Some(rows[slug]), Done; }
      return None, Done;
    }

    method ListAll(now: int) returns (us: seq<Upload>)
      requires RowsOk(rows)
      ensures Lists(us, VisibleRows(rows, now), NEWEST_FIRST)
      ensures forall u :: u in us <==> u in rows.Values && now < u.uploadedAt + u.ttl
      ensures forall i, j | 0 <= i < j < |us| :: us[i].slug != us[j].slug && us[i].uploadedAt >= us[j].uploadedAt
    {
      us := OrderBy(VisibleRows(rows, now), NEWEST_FIRST);
      ListedIff(us, rows, VisibleRows(rows, now), NEWEST_FIRST);
    }

    method ListExpired(now: int, ok: bool) returns (us: seq<Upload>, r: Status)
      requires RowsOk(rows)
      ensures r == if ok then Done else StorageError
      ensures ok ==> Lists(us, ExpiredRows(rows, now), BY_EXPIRY)
      ensures ok ==> forall u :: u in us <==> u in rows.Values && u.uploadedAt + u.ttl <= now
      ensures ok ==> forall i, j | 0 <= i < j < |us| ::
                us[i].slug != us[j].slug && us[i].uploadedAt + us[i].ttl <= us[j].uploadedAt + us[j].ttl
    {
      if !ok { return [], StorageError; }
      us := OrderBy(ExpiredRows(rows, now), BY_EXPIRY);
      ListedIff(us, rows, ExpiredRows(rows, now), BY_EXPIRY);
      r := Done;
    }

    method DeleteBySlug(slug: string, ok: bool) returns (r: Status)
      modifies this`rows
      ensures r == if !ok then StorageError else if slug in old(rows) then Done else NotFound
      ensures rows == if ok then old(rows) - {slug} else old(rows)
    {
      if !ok { return StorageError; }
      r := if slug in rows then Done else NotFound;
      rows := rows - {slug};
    }

    method ReplaceContent(u: Upload, ok: bool) returns (r: Status)
      modifies this`rows
      ensures r == if !ok then StorageError else if u.slug in old(rows) then Done else NotFound
      ensures rows == if r.Done? then old(rows)[u.slug := u] else old(rows)
    {
      if !ok { return StorageError; }
      if u.slug !in rows { return NotFound; }
      rows := rows[u.slug := u];
      return Done;
    }

    // ---- Files ---------------------------------------------------------------------

    /** The O_EXCL create of WriteFile. */
    method CreateFile(name: string, now: int, ok: bool) returns (created: bool)
      modifies this`files
      ensures created <==> ok && name !in old(files)
      ensures files == if created then old(files)[name := File([], now)] else old(files)
    {
      created := ok && name !in files;
      if created {
        files := files[name := File([], now)];
      }
    }

    /** One write of WriteFile's copy loop, to a file it created. */
    method Append(name: string, chunk: Bytes, now: int)
      requires IsFile(files, name)
      modifies this`files
      ensures files == old(files)[name := File(old(files)[name].content + chunk, now)]
    {
      files := files[name := File(files[name].content + chunk, now)];
    }

    /** A missing file is not an error. */
    method RemoveFile(name: string, ok: bool) returns (r: Status)
      modifies this`files
      ensures r == if ok then Done else StorageError
      ensures files == if ok then old(files) - {name} else old(files)
    {
      if !ok { return StorageError; }
      files := files - {name};
      return Done;
    }

    method RenameFile(from: string, to: string, ok: bool) returns (r: Status)
      modifies this`files
      ensures r == if ok && from in old(files) && !(to in old(files) && old(files)[to].Dir?) then Done else StorageError
      ensures files == if r.Done? then (old(files) - {from})[to := old(files)[from]] else old(files)
    {
      if !ok || from !in files || (to in files && files[to].Dir?) { return StorageError; }
      files := (files - {from})[to := files[from]];
      return Done;
    }

    /** Opening for reading; a directory opens but cannot be served. */
    method OpenFile(name: string, ok: bool) returns (bytes: Bytes, r: Status)
      ensures r == if !ok then StorageError else if name !in files then NotFound
                   else if files[name].Dir? then StorageError else Done
      ensures r.Done? ==> bytes == files[name].content
    {
      if !ok { return [], StorageError; }
      if name !in files { return [], NotFound; }
      if files[name].Dir? { return [], StorageError; }
      return files[name].content, Done;
    }

    // ---- Boot passes ---------------------------------------------------------------

    method ReapPartials(now: int, f: Faults) returns (removed: nat, failed: bool)
      modifies this`files
      ensures files == Reap(old(files), now, f) && failed == f.readDir
      ensures removed + |files| == |old(files)|
    {
      removed, failed := 0, f.readDir;
      if failed { return; }
      var todo := files.Keys;
      while todo != {}
        invariant todo <= files.Keys
        invariant files == map n | n in old(files)
            && (n in todo || !(Stale(old(files), n, now) && n !in f.info && n !in f.remove)) :: old(files)[n]
        invariant removed + |files| == |old(files)|
        decreases |todo|
      {
        var name :| name in todo;
        todo := todo - {name};
        if files[name].Dir? { continue; }
        if !IsPartial(name) { continue; }
        if name in f.info { continue; }
        if files[name].mtime > now - REAP_AGE { continue; }
        if name in f.remove { continue; }
        assert files.Keys - {name} == (files - {name}).Keys;
        files := files - {name};
        removed := removed + 1;
      }
    }

    method ReconcileFiles(f: Faults) returns (removed: nat, failed: bool)
      modifies this`files
      ensures Value() == DropOrphans(old(Value()), f) && failed == (f.listRows || f.readDir)
      ensures removed + |files| == |old(files)|
    {
      hide FilesLeft, DropOrphans;
      FilesLeftEnds(Value(), f);
      removed, failed := 0, f.listRows || f.readDir;
      if f.listRows { return; }
      var known := {};
      var cursor := rows.Keys;
      while cursor != {}
        invariant cursor <= rows.Keys
        invariant known == set s | s in rows && s !in cursor :: DiskName(rows[s])
        decreases |cursor|
      {
        var s :| s in cursor;
        known := known + {DiskName(rows[s])};
        cursor := cursor - {s};
      }
      assert known == Known(rows);
      if f.readDir { return; }
      var todo := files.Keys;
      while todo != {}
        invariant todo <= old(files).Keys
        invariant files == FilesLeft(rows, old(files), todo, f)
        invariant removed + |files| == |old(files)|
        decreases |todo|
      {
        var name :| name in todo;
        OneFileLess(rows, old(files), todo, f, name);
        todo := todo - {name};
        if files[name].Dir? { continue; }
        if IsPartial(name) { continue; }
        if name in known { continue; }
        if name in f.remove { continue; }
        files := files - {name};
        removed := removed + 1;
      }
    }

    method ReconcileRows(f: Faults) returns (removed: nat, failed: bool)
      modifies this`rows
      ensures Value() == DropDangling(old(Value()), f) && failed == f.listRows
      ensures removed + |rows| == |old(rows)|
    {
      removed, failed := 0, f.listRows;
      if failed { return; }
      var cursor := rows.Keys;
      assert rows == RowsLeft(rows, files, cursor, f);
      while cursor != {}
        invariant cursor <= old(rows).Keys
        invariant rows == RowsLeft(old(rows), files, cursor, f)
        invariant removed + |rows| == |old(rows)|
        decreases |cursor|
      {
        var s :| s in cursor;
        OneRowLess(old(rows), files, cursor, f, s);
        hide RowsLeft;
        cursor := cursor - {s};
        if DiskName(rows[s]) in f.stat { continue; }
        if DiskName(rows[s]) in files { continue; }
        if s in f.deleteRow { continue; }
        rows := rows - {s};
        removed := removed + 1;
      }
    }

    /** The boot order of run(). A pass that fails is logged and the next one runs. */
    method BootReap(now: int, f: Faults, g: Faults, h: Faults)
      modifies this
      ensures Value() == BootWith(old(Value()), now, f, g, h)
    {
      var _, _ := ReapPartials(now, f);
      var _, _ := ReconcileFiles(g);
      var _, _ := ReconcileRows(h);
    }

    // ---- The sweep -----------------------------------------------------------------

    /** One listed row: row first, then file. */
    method SweepRow(u: Upload, f: RowFault) returns (mine: bool)
      requires !Stops(f) && u.slug in rows
      modifies this
      ensures mine == Deletes(f)
      ensures Value() == AfterRow(old(Value()), u, f)
    {
      if f.vanished {
        rows := rows - {u.slug};
      }
      var r := DeleteBySlug(u.slug, !f.deleteFails);
      mine := r == Done;
      if !mine { return; }
      var _ := RemoveFile(DiskName(u), !f.removeFails);
    }

    /** One pass, under any pattern of faults; a failed listing ends it. It visits the expired
        rows in order of expiry up to the first cancellation, and no other failure stops it;
        `deleted` is the number of rows it removed itself; it tries to remove the file of each
        of those, removes it unless that fails, and touches nothing else. If no handler gets
        to a row first, it does what the sweep thread of the protocol does. */
    method SweepOnce(now: int, listOk: bool, plan: FaultPlan)
      returns (expired: seq<Upload>, visited: nat, deleted: nat)
      requires RowsOk(rows)
      modifies this
      ensures !listOk ==> expired == [] && deleted == 0 && Value() == old(Value())
      ensures listOk ==> Lists(expired, ExpiredRows(old(rows), now), BY_EXPIRY)
      ensures visited <= |expired| && Undisturbed(plan, visited)
      ensures visited < |expired| ==> Stops(plan(visited))
      ensures SweptTo(old(Value()), Value(), Visited(expired, visited, plan), deleted)
      ensures listOk && (forall i: nat | i < visited :: !plan(i).vanished) ==>
                Value() == RunAlone(old(Value()), Some(List),
                                    [ListCall(now)] + SweepTurns(expired, 0, plan, now), 0).store
      ensures listOk && (forall i: nat | i < |expired| :: Deletes(plan(i)) && !plan(i).vanished) ==>
                rows == VisibleRows(old(rows), now) && deleted == |ExpiredRows(old(rows), now)|
      ensures listOk && (forall i: nat :: plan(i) == NO_ROW_FAULT) ==>
                && rows == (map s | s in old(rows) && now < old(rows)[s].uploadedAt + old(rows)[s].ttl :: old(rows)[s])
                && files == old(files) - (set s | s in old(rows)
                     && old(rows)[s].uploadedAt + old(rows)[s].ttl <= now :: old(rows)[s].slug + old(rows)[s].ext)
                && deleted == |set s | s in old(rows) && old(rows)[s].uploadedAt + old(rows)[s].ttl <= now|
    {
      hide SweptTo, Visited, SweepTurns, RunAlone, VisibleRows, ExpiredRows, Lists;
      visited, deleted := 0, 0;
      ghost var was := Value();
      SweptNothing(was, plan);
      var r;
      expired, r := ListExpired(now, listOk);
      if r != Done { return [], 0, 0; }
      visited, deleted := SweepRows(expired, now, plan);
      ListTurn(was, expired, plan, now);
      if forall i: nat | i < |expired| :: Deletes(plan(i)) && !plan(i).vanished {
        ErrorFreePass(was, Value(), expired, plan, deleted, now);
      }
      if forall i: nat :: plan(i) == NO_ROW_FAULT {
        CleanPass(was, Value(), expired, plan, deleted, now);
      }
    }

    method SweepRows(expired: seq<Upload>, now: int, plan: FaultPlan) returns (visited: nat, deleted: nat)
      requires Lists(expired, ExpiredRows(rows, now), BY_EXPIRY)
      modifies this
      ensures visited <= |expired| && Undisturbed(plan, visited)
      ensures visited < |expired| ==> Stops(plan(visited))
      ensures SweptTo(old(Value()), Value(), Visited(expired, visited, plan), deleted)
      ensures (forall i: nat | i < visited :: !plan(i).vanished) ==>
                Value() == RunAlone(old(Value()), Some(Sweeping(ExpiredRows(old(rows), now), map[])),
                                    SweepTurns(expired, 0, plan, now), 0).store
    {
      hide OnTrack, SweptTo, Swept, Visited, Lists, SweepTurns, RunAlone, LeftAfter, ExpiredRows, Deletes, AfterRow;
      ghost var was := Value();
      ghost var todo, left: map<string, Phase> := ExpiredRows(rows, now), map[];
      OnTrackAtFirst(was, expired, plan, now);
      visited, deleted := 0, 0;
      while visited < |expired|
        invariant visited <= |expired| && Undisturbed(plan, visited)
        invariant OnTrack(was, Value(), expired, visited, plan, deleted, now, todo, left)
      {
        var f := plan(visited);
        if f.cancelled { break; }
        if f.interrupted { break; }
        OnTrackNext(was, Value(), expired, visited, plan, deleted, now, todo, left);
        todo, left := todo - {expired[visited].slug}, LeftAfter(left, expired[visited], f);
        var mine := SweepRow(expired[visited], f);
        visited := visited + 1;
        if !mine { continue; }
        deleted := deleted + 1;
      }
      OnTrackAtLast(was, Value(), expired, visited, plan, deleted, now, todo, left);
    }
  }
}
