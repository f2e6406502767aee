/** What holds in every interleaving, with no assumption on scheduling or faults: who owns
    which scratch file, and where the bytes at a slug-shaped name came from. */
module Safety {
  import opened Common
  import opened Names
  import opened Table
  import opened Machine

  // ---- The invariant ---------------------------------------------------------------

  function ScratchOf(th: Thread): Option<string> {
    match th
    case Streaming(_, p, _) => Some(p)
    case Commit(_, p, _, _) => Some(p)
    case Promote(_, p, _) => Some(p)
    case Rollback(_, p, _) => Some(p)
    case Discard(p, _) => Some(p)
    case _ => None
  }

  /** The bytes the thread's scratch file must hold, where that is known. */
  function Expected(th: Thread): Option<Bytes> {
    match th
    case Streaming(job, _, written) => if written <= |job.req.body| then Some(job.req.body[..written]) else None
    case Commit(job, _, _, _) => Some(job.req.body)
    case Promote(job, _, _) => Some(job.req.body)
    case Rollback(job, _, _) => Some(job.req.body)
    case _ => None
  }

  predicate JobOk(job: Job) {
    SaneExt(job.req.ext) && (job.prev.Some? ==> UploadOk(job.prev.value))
  }

  predicate RowOf(job: Job, u: Upload) {
    && UploadOk(u) && u == RowFor(u.slug, job.req, u.uploadedAt)
    && (job.prev.Some? ==> u.slug == job.prev.value.slug)
  }

  predicate PhaseOk(ph: Phase, slug: string) {
    match ph
    case Absent => true
    case Settled(u) => UploadOk(u) && u.slug == slug
    case RowOnly(u) => UploadOk(u) && u.slug == slug
    case FileOnly(u) => UploadOk(u) && u.slug == slug
    case Swapping(o, u) => UploadOk(o) && UploadOk(u) && o.slug == slug && u.slug == slug
    case Trailing(o, u) => UploadOk(o) && UploadOk(u) && o.slug == slug && u.slug == slug && o.ext != u.ext
  }

  predicate LeftOk(left: map<string, Phase>) {
    forall s | s in left :: PhaseOk(left[s], s)
  }

  /** Rows listed by a sweep had expired when they were listed. */
  predicate Listed(todo: Rows, now: int) {
    RowsOk(todo) && forall s | s in todo :: !Visible(todo[s], now)
  }

  predicate ThreadOk(th: Thread, now: int) {
    match th
    case Find(_, ToReplace(req)) => SaneExt(req.ext)
    case Find(_, _) => true
    case Create(job) => JobOk(job)
    case Streaming(job, _, written) => JobOk(job) && written <= |job.req.body|
    case Commit(job, _, _, _) => JobOk(job)
    case Promote(job, _, u) => JobOk(job) && RowOf(job, u)
    case Rollback(job, _, u) => JobOk(job) && job.prev.None? && RowOf(job, u)
    case Discard(_, dangling) => dangling.Some? ==> UploadOk(dangling.value)
    case Clean(prev, u) => PhaseOk(Trailing(prev, u), u.slug)
    case DropRow(u) => UploadOk(u)
    case DropFile(u) => UploadOk(u)
    case List => true
    case Sweeping(todo, left) => Listed(todo, now) && LeftOk(left) && todo.Keys !! left.Keys
    case SweepFile(u, todo, left) =>
      && UploadOk(u) && !Visible(u, now) && Listed(todo, now) && LeftOk(left)
      && todo.Keys !! left.Keys && u.slug !in todo && u.slug !in left
    case Open(u) => UploadOk(u)
    case Replied(_) => true
    case Abandoned(left) => LeftOk(left)
  }

  /** The thread's scratch file exists, as its exclusive create made it, holding what the
      thread has written so far. */
  predicate OwnsScratch(files: Files, th: Thread) {
    ScratchOf(th).Some? ==>
      var p := ScratchOf(th).value;
      IsScratch(p) && IsFile(files, p) && (Expected(th).Some? ==> files[p].content == Expected(th).value)
  }

  ghost predicate Safe(s: System) {
    && RowsOk(s.store.rows)
    && (forall id | id in s.threads :: ThreadOk(s.threads[id], s.now) && OwnsScratch(s.store.files, s.threads[id]))
    && (forall i, j | i in s.threads && j in s.threads && i != j && ScratchOf(s.threads[i]).Some? ::
          ScratchOf(s.threads[i]) != ScratchOf(s.threads[j]))
  }

  // ---- Preservation ----------------------------------------------------------------

  ghost predicate StaysOk(st: Store, th: Thread, now: int, c: Choice) {
    var n := StepThread(st, th, now, c);
    && RowsOk(n.store.rows)
    && (n.th.Some? ==> ThreadOk(n.th.value, now) && OwnsScratch(n.store.files, n.th.value))
  }

  lemma SweepStaysOk(st: Store, th: Thread, now: int, c: Choice)
    requires RowsOk(st.rows) && ThreadOk(th, now)
    requires th.List? || th.SweepFile?
    ensures StaysOk(st, th, now, c)
  {
  }

  lemma SweepingStaysOk(st: Store, th: Thread, now: int, c: Choice)
    requires RowsOk(st.rows) && ThreadOk(th, now) && th.Sweeping?
    ensures StaysOk(st, th, now, c)
  {
  }

  lemma StreamStaysOk(st: Store, th: Thread, now: int, c: Choice)
    requires RowsOk(st.rows) && ThreadOk(th, now) && OwnsScratch(st.files, th)
    requires th.Create? || th.Streaming? || th.Discard?
    ensures StaysOk(st, th, now, c)
  {
    if th.Streaming? {
      assert th.job.req.body[..|th.job.req.body|] == th.job.req.body;
    }
  }

  lemma CommitStaysOk(st: Store, th: Thread, now: int, c: Choice)
    requires RowsOk(st.rows) && ThreadOk(th, now) && OwnsScratch(st.files, th)
    requires th.Commit? || th.Promote? || th.Rollback?
    ensures StaysOk(st, th, now, c)
  {
  }

  /** One thread's own part of the invariant. */
  lemma StepOk(st: Store, th: Thread, now: int, c: Choice)
    requires RowsOk(st.rows) && ThreadOk(th, now) && OwnsScratch(st.files, th)
    ensures StaysOk(st, th, now, c)
  {
    if th.List? || th.SweepFile? {
      SweepStaysOk(st, th, now, c);
    } else if th.Sweeping? {
      SweepingStaysOk(st, th, now, c);
    } else if th.Create? || th.Streaming? || th.Discard? {
      StreamStaysOk(st, th, now, c);
    } else if th.Commit? || th.Promote? || th.Rollback? {
      CommitStaysOk(st, th, now, c);
    }
  }

  lemma NeverDiskName(p: string)
    requires IsScratch(p)
    ensures forall u: Upload | UploadOk(u) :: DiskName(u) != p
  {
    forall u: Upload | UploadOk(u)
      ensures DiskName(u) != p
    {
      DiskNameBelongs(u, u.slug);
    }
  }

  /** A step leaves every scratch file but the thread's own alone, and a scratch name it
      takes up was free. */
  lemma StepFrame(st: Store, th: Thread, now: int, c: Choice, p: string)
    requires RowsOk(st.rows) && ThreadOk(th, now) && OwnsScratch(st.files, th)
    requires IsScratch(p) && p in st.files && ScratchOf(th) != Some(p)
    ensures var n := StepThread(st, th, now, c);
            && p in n.store.files && n.store.files[p] == st.files[p]
            && (n.th.Some? ==> ScratchOf(n.th.value) != Some(p))
  {
    hide DiskName, SaneExt, ValidSlug, IsScratch;
    NeverDiskName(p);
  }

  lemma SafeStep(s: System, e: Event)
    requires Safe(s)
    ensures Safe(Apply(s, e))
  {
    if e.Run? && e.id in s.threads {
      var th := s.threads[e.id];
      StepOk(s.store, th, s.now, e.c);
      forall id | id in s.threads && id != e.id && ScratchOf(s.threads[id]).Some?
        ensures var n := StepThread(s.store, th, s.now, e.c);
                var p := ScratchOf(s.threads[id]).value;
                && p in n.store.files && n.store.files[p] == s.store.files[p]
                && (n.th.Some? ==> ScratchOf(n.th.value) != Some(p))
      {
        StepFrame(s.store, th, s.now, e.c, ScratchOf(s.threads[id]).value);
      }
    }
  }

  lemma {:induction false} SafeRun(s: System, es: seq<Event>)
    requires Safe(s)
    ensures Safe(Exec(s, es))
    decreases |es|
  {
    if es != [] {
      SafeRun(s, es[..|es| - 1]);
      SafeStep(Exec(s, es[..|es| - 1]), es[|es| - 1]);
    }
  }

  // ---- Provenance ------------------------------------------------------------------

  /** The bytes that the event renames to `n`: a complete request body, by a thread that has
      committed the row of the slug that `n` belongs to. */
  function PromotedTo(s: System, e: Event, n: string): Option<Bytes> {
    if e.Run? && e.id in s.threads && s.threads[e.id].Promote? then
      var th := s.threads[e.id];
      if e.c.ok && CanRename(s.store.files, th.scratch, DiskName(th.u)) && DiskName(th.u) == n
      then Some(th.job.req.body) else None
    else None
  }

  /** The bytes of the last rename to `n` in the run. */
  function LastTo(s: System, es: seq<Event>, n: string): Option<Bytes>
    decreases |es|
  {
    if es == [] then None
    else
      var k := |es| - 1;
      var last := PromotedTo(Exec(s, es[..k]), es[k], n);
      if last.Some? then last else LastTo(s, es[..k], n)
  }

  /** The only way a slug-shaped name comes to hold other bytes, and what it then holds. */
  lemma OnlyPromoteDelivers(s: System, e: Event, n: string)
    requires Safe(s) && IsDiskName(n) && n in Apply(s, e).store.files
    ensures var f := Apply(s, e).store.files[n];
            match PromotedTo(s, e, n)
            case Some(body) => f.File? && f.content == body && s.threads[e.id].u.slug == n[..8]
            case None => n in s.store.files && f == s.store.files[n]
  {
    if e.Run? && e.id in s.threads {
      var th := s.threads[e.id];
      if ScratchOf(th).Some? {
        ScratchBelongsToNone(ScratchOf(th).value, n[..8]);
      }
      ScratchBelongsToNone(e.c.scratch, n[..8]);
      if th.Promote? {
        DiskNameBelongs(th.u, n[..8]);
      }
    }
  }

  /** In every run, whatever interleaves, races, fails or crashes in it: a file at a
      slug-shaped name holds the complete body of the last rename to that name, which was
      made for that very slug, or nothing was renamed there and it is as at the start. Never
      a torn body, another slug's, or an older one come back. */
  lemma {:induction false} Provenance(s: System, es: seq<Event>, n: string)
    requires Safe(s) && IsDiskName(n) && n in Exec(s, es).store.files
    ensures var f := Exec(s, es).store.files[n];
            match LastTo(s, es, n)
            case Some(body) => f.File? && f.content == body
            case None => n in s.store.files && f == s.store.files[n]
    decreases |es|
  {
    if es != [] {
      var k := |es| - 1;
      SafeRun(s, es[..k]);
      OnlyPromoteDelivers(Exec(s, es[..k]), es[k], n);
      if PromotedTo(Exec(s, es[..k]), es[k], n).None? {
        Provenance(s, es[..k], n);
      }
    }
  }

  /** Where the last rename is: event `i`, and none after it. */
  lemma {:induction false} LastToAt(s: System, es: seq<Event>, n: string) returns (i: nat)
    requires LastTo(s, es, n).Some?
    ensures i < |es| && PromotedTo(Exec(s, es[..i]), es[i], n) == LastTo(s, es, n)
    ensures forall j | i < j < |es| :: PromotedTo(Exec(s, es[..j]), es[j], n).None?
    decreases |es|
  {
    hide PromotedTo, Exec;
    i := |es| - 1;
    if PromotedTo(Exec(s, es[..i]), es[i], n).None? {
      var pre := es[..i];
      assert forall j | 0 <= j < |pre| :: pre[..j] == es[..j];
      i := LastToAt(s, pre, n);
    }
  }

  // ---- The same for rows -----------------------------------------------------------

  /** The row that the event puts into the table, and the request it is for. */
  function StoredBy(s: System, e: Event): Option<(Upload, Request)> {
    if e.Run? && e.id in s.threads && s.threads[e.id].Commit? then
      match StepThread(s.store, s.threads[e.id], s.now, e.c).th
      case Some(Promote(job, _, u)) => Some((u, job.req))
      case _ => None
    else None
  }

  /** The last row stored under the slug in the run. */
  function LastStored(s: System, es: seq<Event>, slug: string): Option<(Upload, Request)>
    decreases |es|
  {
    if es == [] then None
    else
      var k := |es| - 1;
      var last := StoredBy(Exec(s, es[..k]), es[k]);
      if last.Some? && last.value.0.slug == slug then last else LastStored(s, es[..k], slug)
  }

  lemma OnlyCommitStores(s: System, e: Event, slug: string)
    requires Safe(s) && slug in Apply(s, e).store.rows
    ensures var u := Apply(s, e).store.rows[slug];
            match StoredBy(s, e)
            case Some((v, req)) => if v.slug == slug then u == v && v == RowFor(slug, req, v.uploadedAt)
                                   else slug in s.store.rows && s.store.rows[slug] == u
            case None => slug in s.store.rows && s.store.rows[slug] == u
  {
    hide DiskName, SaneExt, ValidSlug, GetBySlug;
  }

  /** A row in the table is the last one stored under its slug, or as at the start. */
  lemma {:induction false} RowProvenance(s: System, es: seq<Event>, slug: string)
    requires Safe(s) && slug in Exec(s, es).store.rows
    ensures var u := Exec(s, es).store.rows[slug];
            match LastStored(s, es, slug)
            case Some((v, req)) => u == v && v == RowFor(slug, req, v.uploadedAt)
            case None => slug in s.store.rows && s.store.rows[slug] == u
    decreases |es|
  {
    if es != [] {
      var k := |es| - 1;
      SafeRun(s, es[..k]);
      OnlyCommitStores(Exec(s, es[..k]), es[k], slug);
      var last := StoredBy(Exec(s, es[..k]), es[k]);
      if last.None? || last.value.0.slug != slug {
        RowProvenance(s, es[..k], slug);
      }
    }
  }

  lemma {:induction false} LastStoredAt(s: System, es: seq<Event>, slug: string) returns (i: nat)
    requires LastStored(s, es, slug).Some?
    ensures i < |es| && StoredBy(Exec(s, es[..i]), es[i]) == LastStored(s, es, slug)
    ensures LastStored(s, es, slug).value.0.slug == slug
    decreases |es|
  {
    hide StoredBy, Exec;
    i := |es| - 1;
    var last := StoredBy(Exec(s, es[..i]), es[i]);
    if last.None? || last.value.0.slug != slug {
      var pre := es[..i];
      assert forall j | 0 <= j < |pre| :: pre[..j] == es[..j];
      i := LastStoredAt(s, pre, slug);
    }
  }

  /** The exact outcome of any races, in any run: what the table and the directory pair up is
      the last INSERT or UPDATE of the slug with the last rename to its name. So a row has its
      own bytes iff those two were for requests with one body. */
  lemma RaceOutcome(s: System, es: seq<Event>, slug: string)
    requires Safe(s) && slug in Exec(s, es).store.rows && LastStored(s, es, slug).Some?
    requires var n := DiskName(Exec(s, es).store.rows[slug]);
             n in Exec(s, es).store.files && LastTo(s, es, n).Some?
    ensures var f := Exec(s, es);
            var (u, req) := LastStored(s, es, slug).value;
            && f.store.rows[slug] == u == RowFor(slug, req, u.uploadedAt)
            && f.store.files[DiskName(u)].File?
            && f.store.files[DiskName(u)].content == LastTo(s, es, DiskName(u)).value
            && (f.store.files[DiskName(u)].content == req.body <==> LastTo(s, es, DiskName(u)) == Some(req.body))
  {
    SafeRun(s, es);
    RowProvenance(s, es, slug);
    DiskNameBelongs(Exec(s, es).store.rows[slug], slug);
    Provenance(s, es, DiskName(Exec(s, es).store.rows[slug]));
  }

  // ---- Back to the requests --------------------------------------------------------

  function JobOf(th: Thread): Option<Job> {
    match th
    case Create(job) => Some(job)
    case Streaming(job, _, _) => Some(job)
    case Commit(job, _, _, _) => Some(job)
    case Promote(job, _, _) => Some(job)
    case Rollback(job, _, _) => Some(job)
    case _ => None
  }

  /** The request that opened the thread, still in the form it arrived in. */
  predicate Arrived(es: seq<Event>, id: nat, th: Thread) {
    match th
    case Find(_, ToReplace(_)) => Spawn(id, th) in es
    case _ =>
      JobOf(th).Some? ==>
        var job := JobOf(th).value;
        Spawn(id, if job.prev.None? then Create(job) else Find(job.prev.value.slug, ToReplace(job.req))) in es
  }

  lemma JobKept(st: Store, th: Thread, now: int, c: Choice)
    requires RowsOk(st.rows) && StepThread(st, th, now, c).th.Some?
    ensures var th' := StepThread(st, th, now, c).th.value;
            && !th'.Find?
            && (JobOf(th').Some? ==>
                  || JobOf(th') == JobOf(th)
                  || (th.Find? && th.intent.ToReplace? && JobOf(th').value.prev.Some?
                      && JobOf(th').value.prev.value.slug == th.slug && JobOf(th').value.req == th.intent.req))
  {
  }

  lemma ArrivedStep(s: System, es: seq<Event>, e: Event, id: nat)
    requires Safe(s) && id in Apply(s, e).threads
    requires id in s.threads ==> Arrived(es, id, s.threads[id])
    ensures Arrived(es + [e], id, Apply(s, e).threads[id])
  {
    assert forall x :: x in es ==> x in es + [e];
    assert e in es + [e];
    if e.Run? && e.id == id && id in s.threads {
      JobKept(s.store, s.threads[id], s.now, e.c);
    }
  }

  /** Every body a thread streams is the body of a request that arrived during the run, and
      a replace streams it for the slug it was addressed to. */
  lemma {:induction false} RequestsArrive(s: System, es: seq<Event>, id: nat)
    requires Safe(s) && s.threads == map[] && id in Exec(s, es).threads
    ensures Arrived(es, id, Exec(s, es).threads[id])
    decreases |es|
  {
    if es != [] {
      var pre := es[..|es| - 1];
      var t := Exec(s, pre);
      SafeRun(s, pre);
      if id in t.threads {
        RequestsArrive(s, pre, id);
      }
      ArrivedStep(t, pre, es[|es| - 1], id);
      assert es == pre + [es[|es| - 1]];
    }
  }

  /** An upload request, or a replace request addressed to `slug`, arrived with this body. */
  ghost predicate Requested(es: seq<Event>, slug: string, bytes: Bytes) {
    exists id, req: Request :: req.body == bytes
      && (Spawn(id, Create(Job(None, req))) in es || Spawn(id, Find(slug, ToReplace(req))) in es)
  }

  /** Provenance traced back to the network: since boot, a file at a slug-shaped name is
      untouched, or is the whole body of one request that arrived, put there by the last
      rename to it. */
  lemma ProvenanceOfRequest(s: System, es: seq<Event>, n: string)
    requires Safe(s) && s.threads == map[] && IsDiskName(n) && n in Exec(s, es).store.files
    ensures var f := Exec(s, es).store.files[n];
            match LastTo(s, es, n)
            case Some(body) => f.File? && f.content == body && Requested(es, n[..8], body)
            case None => n in s.store.files && f == s.store.files[n]
  {
    Provenance(s, es, n);
    if LastTo(s, es, n).Some? {
      var i := LastToAt(s, es, n);
      var t := Exec(s, es[..i]);
      SafeRun(s, es[..i]);
      RequestsArrive(s, es[..i], es[i].id);
      var th := t.threads[es[i].id];
      DiskNameBelongs(th.u, n[..8]);
      assert forall x :: x in es[..i] ==> x in es;
      assert Spawn(es[i].id, Create(Job(None, th.job.req))) in es
          || Spawn(es[i].id, Find(n[..8], ToReplace(th.job.req))) in es;
    }
  }

  // ---- Expiry ----------------------------------------------------------------------

  lemma CommitFrom(st: Store, th: Thread, now: int, c: Choice)
    requires ThreadOk(th, now) && StepThread(st, th, now, c).th.Some? && StepThread(st, th, now, c).th.value.Commit?
    ensures var n := StepThread(st, th, now, c).th.value;
            || (th.Commit? && th.job == n.job && th.scratch == n.scratch && th.at == n.at)
            || (th == Streaming(n.job, n.scratch, |n.job.req.body|) && n.at == now)
  {
  }

  lemma CommitAfter(s: System, e: Event, id: nat)
    requires Safe(s) && id in Apply(s, e).threads && Apply(s, e).threads[id].Commit?
    ensures var n := Apply(s, e).threads[id];
            && id in s.threads
            && var th := s.threads[id];
               || (th.Commit? && th.job == n.job && th.scratch == n.scratch && th.at == n.at)
               || (e.Run? && e.id == id && th == Streaming(n.job, n.scratch, |n.job.req.body|) && n.at == s.now)
  {
    if e.Run? && e.id == id && id in s.threads {
      hide StepThread;
      CommitFrom(s.store, s.threads[id], s.now, e.c);
    }
  }

  /** A thread about to commit has `at` from the clock at event `i`, the step at which it found
      the whole body streamed. */
  lemma {:induction false} StampedAt(s: System, es: seq<Event>, id: nat) returns (i: nat)
    requires Safe(s) && s.threads == map[] && id in Exec(s, es).threads && Exec(s, es).threads[id].Commit?
    ensures var th := Exec(s, es).threads[id];
            && i < |es| && es[i].Run? && es[i].id == id && id in Exec(s, es[..i]).threads
            && Exec(s, es[..i]).threads[id] == Streaming(th.job, th.scratch, |th.job.req.body|)
            && Exec(s, es[..i]).now == th.at
    decreases |es|
  {
    hide Apply, Safe;
    i := |es| - 1;
    var pre, e := es[..i], es[i];
    var t := Exec(s, pre);
    SafeRun(s, pre);
    CommitAfter(t, e, id);
    if t.threads[id].Commit? {
      assert forall j | 0 <= j < |pre| :: pre[..j] == es[..j] && pre[j] == es[j];
      i := StampedAt(s, pre, id);
    }
  }

  /** The expiry law over runs. The row of a slug comes from a request that arrived, addressed
      to it if it was a replace; the clock at event `i`, when that request's body was complete,
      is its uploadedAt; and lookups find it exactly while its TTL has not passed since. */
  lemma VisibleForItsTTL(s: System, es: seq<Event>, slug: string) returns (i: nat)
    requires Safe(s) && s.threads == map[] && LastStored(s, es, slug).Some?
    ensures i < |es| && es[i].Run?
    ensures var (u, req) := LastStored(s, es, slug).value;
            var id := es[i].id;
            var rows := Exec(s, es).store.rows;
            && u.uploadedAt == Exec(s, es[..i]).now
            && (Spawn(id, Create(Job(None, req))) in es || Spawn(id, Find(slug, ToReplace(req))) in es)
            && (forall now :: GetBySlug(rows, slug, now).Some? <==>
                                slug in rows && now < Exec(s, es[..i]).now + req.ttl)
            && (slug in rows ==> rows[slug] == u)
            && u.ext == req.ext && u.filename == req.filename && u.contentType == req.contentType
            && u.size == |req.body| && u.ttl == req.ttl
  {
    var k := LastStoredAt(s, es, slug);
    var t := Exec(s, es[..k]);
    SafeRun(s, es[..k]);
    var id := es[k].id;
    RequestsArrive(s, es[..k], id);
    i := StampedAt(s, es[..k], id);
    assert es[..k][..i] == es[..i];
    assert forall x :: x in es[..k] ==> x in es;
    if slug in Exec(s, es).store.rows {
      RowProvenance(s, es, slug);
    }
  }
}
