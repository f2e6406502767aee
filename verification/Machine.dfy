/** The concurrent protocol. Every handler, the sweeper and every reader is a thread whose
    value says which storage call it makes next; one step makes that call, atomically, with
    an outcome chosen by the environment. Crashes drop all threads between any two steps. */
module Machine {
  import opened Common
  import opened Names
  import opened Table
  import opened Booting

  /** A parsed request: the whole body it will stream and the columns derived from headers. */
  datatype Request = Request(body: Bytes, ext: string, filename: Bytes, contentType: string, ttl: int)

  function RowFor(slug: string, req: Request, at: int): Upload {
    Upload(slug, req.ext, req.filename, req.contentType, |req.body|, at, req.ttl)
  }

  /** Upload has no previous row; replace carries the row it looked up. */
  datatype Job = Job(prev: Option<Upload>, req: Request)

  datatype Intent = ToReplace(req: Request) | ToDelete | ToServe

  datatype Reply = NoRow | NoFile | Body(u: Upload, bytes: Bytes) | Failed

  /** What the two halves of the store hold for one slug. */
  datatype Phase =
    | Absent                             // no row, no file
    | Settled(u: Upload)                 // row and its one file
    | RowOnly(u: Upload)                 // upload between INSERT and rename
    | FileOnly(u: Upload)                // delete or sweep between row and file
    | Swapping(prev: Upload, u: Upload)   // replace between UPDATE and rename
    | Trailing(prev: Upload, u: Upload)   // replace between rename and old-extension removal

  datatype Thread =
    | Find(slug: string, intent: Intent)                          // GetBySlug
    | Create(job: Job)                                            // O_EXCL create of the scratch file
    | Streaming(job: Job, scratch: string, written: nat)          // io.Copy, chunk by chunk
    | Commit(job: Job, scratch: string, at: int, attempt: nat)    // INSERT or UPDATE
    | Promote(job: Job, scratch: string, u: Upload)               // rename to the disk name
    | Rollback(job: Job, scratch: string, u: Upload)              // upload: delete the row again
    | Discard(scratch: string, dangling: Option<Upload>)          // remove the scratch file
    | Clean(prev: Upload, u: Upload)                               // replace: remove the old-extension file
    | DropRow(u: Upload)                                          // delete: row first
    | DropFile(u: Upload)                                         // delete: then file
    | List                                                        // sweep: select expired
    | Sweeping(todo: Rows, left: map<string, Phase>)              // sweep: next row
    | SweepFile(u: Upload, todo: Rows, left: map<string, Phase>)  // sweep: its file
    | Open(u: Upload)                                             // serve: open the looked-up file
    | Replied(reply: Reply)                                       // serve: what the reader got
    | Abandoned(left: map<string, Phase>)                         // returned after a storage failure, leaving this

  /** The environment's part in one step: whether the storage call succeeds, and what the
      thread draws or picks in it. */
  datatype Choice = Choice(ok: bool, cancelled: bool, slug: Slug, scratch: Scratch, chunk: nat, pick: string)

  // What a choice holds where nothing is drawn.
  const ANY_SLUG: Slug := "AAAAAAAA"
  const ANY_SCRATCH: Scratch := "0000000000000000.partial"

  datatype Next = Next(store: Store, th: Option<Thread>)

  const SLUG_COLLISION_RETRIES := 5

  function GetBySlug(rows: Rows, slug: string, now: int): Option<Upload> {
    if slug in rows && Visible(rows[slug], now) then Some(rows[slug]) else None
  }

  function StepFind(st: Store, slug: string, intent: Intent, now: int, c: Choice): Next {
    var hit := if ValidSlug(slug) && c.ok then GetBySlug(st.rows, slug, now) else None;
    match intent
    case ToReplace(req) => Next(st, if hit.None? then None else Some(Create(Job(hit, req))))
    case ToDelete => Next(st, if hit.None? then None else Some(DropRow(hit.value)))
    case ToServe =>
      Next(st, Some(if hit.Some? then Open(hit.value)
                    else Replied(if ValidSlug(slug) && !c.ok then Failed else NoRow)))
  }

  function StepCreate(st: Store, job: Job, now: int, c: Choice): Next {
    var p: string := c.scratch;
    if !c.ok || p in st.files then Next(st, None)
    else Next(st.(files := st.files[p := File([], now)]), Some(Streaming(job, p, 0)))
  }

  function StepStreaming(st: Store, job: Job, p: string, written: nat, now: int, c: Choice): Next {
    var body := job.req.body;
    if !c.ok then Next(st, Some(Discard(p, None)))
    else if written >= |body| then Next(st, Some(Commit(job, p, now, 0)))
    else
      var n := if written + 1 + c.chunk <= |body| then written + 1 + c.chunk else |body|;
      Next(st.(files := st.files[p := File(body[..n], now)]), Some(Streaming(job, p, n)))
  }

  function StepCommit(st: Store, job: Job, p: string, at: int, attempt: nat, c: Choice): Next {
    match job.prev
    case None =>
      var slug: string := c.slug;
      if !c.ok then Next(st, Some(Discard(p, None)))
      else if slug in st.rows then
        Next(st, Some(if attempt + 1 < SLUG_COLLISION_RETRIES then Commit(job, p, at, attempt + 1)
                      else Discard(p, None)))
      else
        var u := RowFor(slug, job.req, at);
        Next(st.(rows := st.rows[slug := u]), Some(Promote(job, p, u)))
    case Some(prev) =>
      if !c.ok || prev.slug !in st.rows then Next(st, Some(Discard(p, None)))
      else
        var u := RowFor(prev.slug, job.req, at);
        Next(st.(rows := st.rows[u.slug := u]), Some(Promote(job, p, u)))
  }

  predicate CanRename(files: Files, from: string, to: string) {
    from in files && !(to in files && files[to].Dir?)
  }

  function Renamed(files: Files, from: string, to: string): Files
    requires from in files
  {
    (files - {from})[to := files[from]]
  }

  function StepPromote(st: Store, job: Job, p: string, u: Upload, c: Choice): Next {
    if c.ok && CanRename(st.files, p, DiskName(u)) then
      Next(st.(files := Renamed(st.files, p, DiskName(u))),
           if job.prev.Some? && job.prev.value.ext != u.ext then Some(Clean(job.prev.value, u)) else None)
    else
      Next(st, Some(if job.prev.None? then Rollback(job, p, u)
                    else Abandoned(map[u.slug := Swapping(job.prev.value, u)])))
  }

  function StepRollback(st: Store, p: string, u: Upload, c: Choice): Next {
    if c.ok then Next(st.(rows := st.rows - {u.slug}), Some(Discard(p, None)))
    else Next(st, Some(Discard(p, Some(u))))
  }

  /** `name` is removed, or the removal fails and `left` stays behind. */
  function RemoveOr(st: Store, name: string, left: map<string, Phase>, c: Choice): Next {
    if c.ok then Next(st.(files := st.files - {name}), None) else Next(st, Some(Abandoned(left)))
  }

  function StepDiscard(st: Store, p: string, dangling: Option<Upload>, c: Choice): Next {
    Next(if c.ok then st.(files := st.files - {p}) else st,
         if dangling.None? then None else Some(Abandoned(map[dangling.value.slug := RowOnly(dangling.value)])))
  }

  function StepSweeping(st: Store, todo: Rows, left: map<string, Phase>, c: Choice): Next {
    if todo == map[] || c.cancelled then Next(st, if left == map[] then None else Some(Abandoned(left)))
    else if c.pick !in todo then Next(st, Some(Sweeping(todo, left)))
    else if !c.ok || c.pick !in st.rows then Next(st, Some(Sweeping(todo - {c.pick}, left)))
    else Next(st.(rows := st.rows - {c.pick}), Some(SweepFile(todo[c.pick], todo - {c.pick}, left)))
  }

  function StepSweepFile(st: Store, u: Upload, todo: Rows, left: map<string, Phase>, c: Choice): Next {
    if c.ok then Next(st.(files := st.files - {DiskName(u)}), Some(Sweeping(todo, left)))
    else Next(st, Some(Sweeping(todo, left[u.slug := FileOnly(u)])))
  }

  function StepOpen(st: Store, u: Upload, c: Choice): Next {
    var n := DiskName(u);
    Next(st, Some(Replied(if !c.ok then Failed
                          else if n !in st.files then NoFile
                          else if st.files[n].File? then Body(u, st.files[n].content)
                          else Failed)))
  }

  function StepThread(st: Store, th: Thread, now: int, c: Choice): Next {
    match th
    case Find(slug, intent) => StepFind(st, slug, intent, now, c)
    case Create(job) => StepCreate(st, job, now, c)
    case Streaming(job, p, written) => StepStreaming(st, job, p, written, now, c)
    case Commit(job, p, at, attempt) => StepCommit(st, job, p, at, attempt, c)
    case Promote(job, p, u) => StepPromote(st, job, p, u, c)
    case Rollback(_, p, u) => StepRollback(st, p, u, c)
    case Discard(p, dangling) => StepDiscard(st, p, dangling, c)
    case Clean(prev, u) => RemoveOr(st, DiskName(prev), map[u.slug := Trailing(prev, u)], c)
    case DropRow(u) =>
      if c.ok then Next(st.(rows := st.rows - {u.slug}), Some(DropFile(u))) else Next(st, None)
    case DropFile(u) => RemoveOr(st, DiskName(u), map[u.slug := FileOnly(u)], c)
    case List => Next(st, if c.ok then Some(Sweeping(ExpiredRows(st.rows, now), map[])) else None)
    case Sweeping(todo, left) => StepSweeping(st, todo, left, c)
    case SweepFile(u, todo, left) => StepSweepFile(st, u, todo, left, c)
    case Open(u) => StepOpen(st, u, c)
    case Replied(_) => Next(st, Some(th))
    case Abandoned(_) => Next(st, Some(th))
  }

  // ---- The whole system ------------------------------------------------------------

  datatype System = System(store: Store, threads: map<nat, Thread>, now: int)

  datatype Event =
    | Spawn(id: nat, th: Thread)
    | Run(id: nat, c: Choice)
    | Tick(ns: nat)
    | Crash                       // process death: every thread is gone
    | Repair(removal: Removal)    // one removal of a boot pass, before the listener starts

  /** How handlers enter; extensions have passed the allowlist by then. */
  predicate Fresh(th: Thread) {
    match th
    case Find(_, ToReplace(req)) => SaneExt(req.ext)
    case Find(_, _) => true
    case Create(job) => job.prev.None? && SaneExt(job.req.ext)
    case List => true
    case _ => false
  }

  function After(s: System, id: nat, n: Next): System {
    System(n.store, if n.th.Some? then s.threads[id := n.th.value] else s.threads - {id}, s.now)
  }

  function Apply(s: System, e: Event): System {
    match e
    case Spawn(id, th) => if id !in s.threads && Fresh(th) then s.(threads := s.threads[id := th]) else s
    case Run(id, c) => if id in s.threads then After(s, id, StepThread(s.store, s.threads[id], s.now, c)) else s
    case Tick(ns) => s.(now := s.now + ns)
    case Crash => s.(threads := map[])
    case Repair(r) => if s.threads == map[] then s.(store := Remove1(s.store, s.now, r)) else s
  }

  /** The state after every event of `es`, in order. */
  function Exec(s: System, es: seq<Event>): System
    decreases |es|
  {
    if es == [] then s else Apply(Exec(s, es[..|es| - 1]), es[|es| - 1])
  }

  /** One handler running with nothing interleaved, from turn `i` on. Each turn is the clock
      and the outcome of one call; running out of turns is the process dying there. */
  datatype Turn = Turn(now: int, c: Choice)

  function RunAlone(st: Store, th: Option<Thread>, turns: seq<Turn>, i: nat): Next
    requires i <= |turns|
    decreases |turns| - i
  {
    if th.None? || i == |turns| then Next(st, th)
    else
      var n := StepThread(st, th.value, turns[i].now, turns[i].c);
      RunAlone(n.store, n.th, turns, i + 1)
  }

  lemma AloneStep(st: Store, th: Thread, turns: seq<Turn>, i: nat)
    requires i < |turns|
    ensures var n := StepThread(st, th, turns[i].now, turns[i].c);
            RunAlone(st, Some(th), turns, i) == RunAlone(n.store, n.th, turns, i + 1)
  {
  }

  /** The turns of `pre`, then those of `more`. */
  lemma {:induction false} AloneThen(st: Store, th: Option<Thread>, pre: seq<Turn>, more: seq<Turn>, i: nat)
    requires i <= |pre|
    ensures var n := RunAlone(st, th, pre, i);
            RunAlone(st, th, pre + more, i) == RunAlone(n.store, n.th, more, 0)
    decreases |pre| - i
  {
    if th.None? {
    } else if i == |pre| {
      AloneLater(st, th, pre, more, 0);
    } else {
      var n := StepThread(st, th.value, pre[i].now, pre[i].c);
      AloneThen(n.store, n.th, pre, more, i + 1);
    }
  }

  lemma {:induction false} AloneLater(st: Store, th: Option<Thread>, pre: seq<Turn>, more: seq<Turn>, i: nat)
    requires i <= |more|
    ensures RunAlone(st, th, pre + more, |pre| + i) == RunAlone(st, th, more, i)
    decreases |more| - i
  {
    if th.Some? && i < |more| {
      var n := StepThread(st, th.value, more[i].now, more[i].c);
      AloneLater(n.store, n.th, pre, more, i + 1);
    }
  }

  lemma OneMoreTurn(st: Store, th: Option<Thread>, pre: seq<Turn>, t: Turn)
    ensures var n := RunAlone(st, th, pre, 0);
            RunAlone(st, th, pre + [t], 0) == if n.th.None? then n else StepThread(n.store, n.th.value, t.now, t.c)
  {
    AloneThen(st, th, pre, [t], 0);
  }

  lemma ExecAppend(s: System, es: seq<Event>, e: Event)
    ensures Exec(s, es + [e]) == Apply(Exec(s, es), e)
  {
    assert (es + [e])[..|es|] == es;
  }

  /** The same run seen from its first event. */
  function Then(s: System, es: seq<Event>): System
    decreases |es|
  {
    if es == [] then s else Then(Apply(s, es[0]), es[1..])
  }

  lemma {:induction false} ThenIsExec(s: System, es: seq<Event>, more: seq<Event>)
    ensures Then(Exec(s, es), more) == Exec(s, es + more)
    decreases |more|
  {
    if more == [] {
      assert es + more == es;
    } else {
      ExecAppend(s, es, more[0]);
      ThenIsExec(s, es + [more[0]], more[1..]);
      assert es + [more[0]] + more[1..] == es + more;
    }
  }

  lemma {:induction false} ThenConcat(s: System, es: seq<Event>, fs: seq<Event>)
    ensures Then(s, es + fs) == Then(Then(s, es), fs)
    decreases |es|
  {
    if es == [] {
      assert es + fs == fs;
    } else {
      ThenConcat(Apply(s, es[0]), es[1..], fs);
      assert (es + fs)[1..] == es[1..] + fs;
    }
  }

  lemma ThenIsRun(s: System, es: seq<Event>)
    ensures Then(s, es) == Exec(s, es)
  {
    ThenIsExec(s, [], es);
    assert [] + es == es;
  }

  lemma ExecConcat(s: System, es: seq<Event>, fs: seq<Event>)
    ensures Exec(s, es + fs) == Exec(Exec(s, es), fs)
  {
    ThenIsExec(s, es, fs);
    ThenIsRun(Exec(s, es), fs);
  }

  lemma ThenTwo(s: System, a: Event, b: Event)
    ensures Then(s, [a, b]) == Apply(Apply(s, a), b)
  {
    assert [a, b][1..] == [b] && [b][1..] == [];
    assert Then(Apply(s, a), [b]) == Then(Apply(Apply(s, a), b), []);
  }

  lemma ThenFour(s: System, a: Event, b: Event, c: Event, d: Event)
    ensures Then(s, [a, b, c, d]) == Apply(Apply(Apply(Apply(s, a), b), c), d)
  {
    assert [a, b, c, d] == [a, b] + [c, d];
    ThenConcat(s, [a, b], [c, d]);
    ThenTwo(s, a, b);
    ThenTwo(Apply(Apply(s, a), b), c, d);
  }

  // ---- A handler alone is a run of the system --------------------------------------

  predicate Forward(now: int, turns: seq<Turn>, i: nat) {
    (i < |turns| ==> now <= turns[i].now) && forall j | i <= j < |turns| - 1 :: turns[j].now <= turns[j + 1].now
  }

  /** Each turn as two events: the clock moves on, the thread steps. */
  function AloneEvents(now: int, turns: seq<Turn>, i: nat): seq<Event>
    requires i <= |turns| && Forward(now, turns, i)
    decreases |turns| - i
  {
    if i == |turns| then []
    else [Tick(turns[i].now - now), Run(0, turns[i].c)] + AloneEvents(turns[i].now, turns, i + 1)
  }

  /** So everything proved of runs holds of the handlers run one at a time. */
  lemma {:induction false} AloneIsExec(st: Store, th: Option<Thread>, now: int, turns: seq<Turn>, i: nat)
    requires i <= |turns| && Forward(now, turns, i)
    ensures var s := System(st, if th.Some? then map[0 := th.value] else map[], now);
            var n := RunAlone(st, th, turns, i);
            var t := Then(s, AloneEvents(now, turns, i));
            t.store == n.store && t.threads == if n.th.Some? then map[0 := n.th.value] else map[]
    decreases |turns| - i
  {
    if i < |turns| {
      var s := System(st, if th.Some? then map[0 := th.value] else map[], now);
      var es := AloneEvents(now, turns, i);
      var rest := AloneEvents(turns[i].now, turns, i + 1);
      var tick := Apply(s, es[0]);
      var s' := Apply(tick, es[1]);
      assert es[1..][1..] == rest;
      assert Then(s, es) == Then(tick, es[1..]) == Then(s', rest);
      if th.None? {
        assert s'.threads == map[];
        AloneIsExec(st, None, turns[i].now, turns, i + 1);
      } else {
        var n := StepThread(st, th.value, turns[i].now, turns[i].c);
        assert s'.threads == if n.th.Some? then map[0 := n.th.value] else map[];
        AloneIsExec(n.store, n.th, turns[i].now, turns, i + 1);
      }
    }
  }

  /** A request or a sweep that comes to an idle system and runs alone: every delete, download
      and sweep is taken up, and every upload and replace whose extension passed its check. */
  lemma RequestAlone(st: Store, th: Thread, now: int, turns: seq<Turn>)
    requires Forward(now, turns, 0)
    requires || th.List? || (th.Find? && (th.intent.ToReplace? ==> SaneExt(th.intent.req.ext)))
             || (th.Create? && th.job.prev.None? && SaneExt(th.job.req.ext))
    ensures var n := RunAlone(st, Some(th), turns, 0);
            var t := Exec(System(st, map[], now), [Spawn(0, th)] + AloneEvents(now, turns, 0));
            t.store == n.store && t.threads == if n.th.Some? then map[0 := n.th.value] else map[]
  {
    var s := System(st, map[], now);
    var es := [Spawn(0, th)] + AloneEvents(now, turns, 0);
    assert Apply(s, es[0]) == System(st, map[0 := th], now);
    assert es[1..] == AloneEvents(now, turns, 0);
    AloneIsExec(st, Some(th), now, turns, 0);
    ThenIsRun(s, es);
  }
}
