/** Runs that lose or mismatch data, each from any state in which nothing else is running: two
    races in which every storage call succeeds, a rename that fails, a crash at the wrong
    moment, and an extension that looks like scratch. The DELETE and the UPDATE name only the slug,
    so nothing stops them from hitting a newer version of the row. */
module Races {
  import opened Common
  import opened Names
  import opened Table
  import opened Booting
  import opened Machine
  import opened Phases
  import opened Refinement
  import opened Recovery

  /** A store call that succeeds, for the thread's own slug and scratch name. */
  function Go(slug: Slug, scratch: Scratch, chunk: nat): Choice {
    Choice(true, false, slug, scratch, chunk, slug)
  }

  /** A run in which nothing goes wrong: no crash, every call succeeds, nothing is cancelled. */
  predicate Faultless(es: seq<Event>) {
    forall e | e in es :: Live(e) && (e.Run? ==> e.c.ok && !e.c.cancelled)
  }

  /** The requests and sweeps of a run, in order. */
  function Spawns(es: seq<Event>): seq<Event> {
    if es == [] then [] else (if es[0].Spawn? then [es[0]] else []) + Spawns(es[1..])
  }

  lemma {:induction false} SpawnsConcat(es: seq<Event>, fs: seq<Event>)
    ensures Spawns(es + fs) == Spawns(es) + Spawns(fs)
  {
    if es == [] {
      assert es + fs == fs;
    } else {
      assert (es + fs)[0] == es[0] && (es + fs)[1..] == es[1..] + fs;
      SpawnsConcat(es[1..], fs);
      var head := if es[0].Spawn? then [es[0]] else [];
      assert head + Spawns(es[1..]) + Spawns(fs) == head + (Spawns(es[1..]) + Spawns(fs));
    }
  }

  // What a run does to a slug, piece by piece.

  lemma {:induction false} OpsConcat(s: System, es: seq<Event>, fs: seq<Event>, slug: string)
    ensures OpsAt(s, es + fs, slug) == OpsAt(s, es, slug) + OpsAt(Exec(s, es), fs, slug)
    decreases |fs|
  {
    if fs == [] {
      assert es + fs == es;
    } else {
      var k := |fs| - 1;
      assert (es + fs)[..|es + fs| - 1] == es + fs[..k];
      OpsConcat(s, es, fs[..k], slug);
      ExecConcat(s, es, fs[..k]);
    }
  }

  /** The operation of one event on the slug, if it is one. */
  function OpOn(s: System, e: Event, slug: string): seq<Op> {
    if Touches(EventOp(s, e), slug) then [EventOp(s, e)] else []
  }

  lemma OpsOne(s: System, e: Event, slug: string)
    ensures OpsAt(s, [e], slug) == OpOn(s, e, slug)
  {
    assert [e][..0] == [];
  }

  lemma OpsTwo(s: System, a: Event, b: Event, slug: string)
    ensures OpsAt(s, [a, b], slug) == OpOn(s, a, slug) + OpOn(Apply(s, a), b, slug)
  {
    assert [a, b] == [a] + [b];
    OpsConcat(s, [a], [b], slug);
    OpsOne(s, a, slug);
    OpsOne(Apply(s, a), b, slug);
    ExecAppend(s, [], a);
    assert [] + [a] == [a];
  }

  lemma OpsFour(s: System, a: Event, b: Event, c: Event, d: Event, slug: string)
    ensures var s2 := Apply(Apply(s, a), b);
            OpsAt(s, [a, b, c, d], slug)
            == OpOn(s, a, slug) + OpOn(Apply(s, a), b, slug) + (OpOn(s2, c, slug) + OpOn(Apply(s2, c), d, slug))
  {
    assert [a, b, c, d] == [a, b] + [c, d];
    OpsConcat(s, [a, b], [c, d], slug);
    OpsTwo(s, a, b, slug);
    ThenTwo(s, a, b);
    ThenIsRun(s, [a, b]);
    OpsTwo(Apply(Apply(s, a), b), c, d, slug);
  }

  /** Nothing running, and one upload, not expired, with its file in place. */
  ghost predicate OneUpload(s: System, u: Upload) {
    && UploadOk(u) && RowsOk(s.store.rows) && HasRow(s.store, u) && HasFile(s.store, u)
    && Visible(u, s.now) && s.threads == map[]
  }

  /** Create, one write of the whole body, end of body. */
  function Pour(id: nat, slug: Slug, p: Scratch, body: Bytes): seq<Event> {
    [Run(id, Go(slug, p, 0)), Run(id, Go(slug, p, |body|)), Run(id, Go(slug, p, 0))]
  }

  lemma Pours(s: System, id: nat, slug: Slug, p: Scratch, job: Job)
    requires id in s.threads && s.threads[id] == Create(job) && p !in s.store.files && job.req.body != []
    ensures Then(s, Pour(id, slug, p, job.req.body))
            == System(s.store.(files := s.store.files[p := File(job.req.body, s.now)]),
                      s.threads[id := Commit(job, p, s.now, 0)], s.now)
  {
    var body := job.req.body;
    var es := Pour(id, slug, p, body);
    var s1 := Apply(s, es[0]);
    assert s1.threads[id] == Streaming(job, p, 0);
    var s2 := Apply(s1, es[1]);
    assert body[..|body|] == body;
    assert s2.threads[id] == Streaming(job, p, |body|);
    var s3 := Apply(s2, es[2]);
    assert es == [es[0], es[1]] + [es[2]];
    ThenConcat(s, [es[0], es[1]], [es[2]]);
    ThenTwo(s, es[0], es[1]);
    assert Then(s2, [es[2]]) == Then(s3, []);
    assert s3.threads == s.threads[id := Commit(job, p, s.now, 0)];
    assert s3.store.files == s.store.files[p := File(body, s.now)];
  }

  lemma PoursOps(s: System, id: nat, slug: Slug, p: Scratch, job: Job)
    requires id in s.threads && s.threads[id] == Create(job) && p !in s.store.files
    ensures OpsAt(s, Pour(id, slug, p, job.req.body), slug) == []
  {
    var es := Pour(id, slug, p, job.req.body);
    assert es == [es[0], es[1]] + [es[2]];
    var s1 := Apply(s, es[0]);
    assert s1.threads[id] == Streaming(job, p, 0);
    var s2 := Apply(s1, es[1]);
    assert s2.threads[id].Streaming? || s2.threads[id].Commit?;
    ThenTwo(s, es[0], es[1]);
    ThenIsRun(s, [es[0], es[1]]);
    OpsConcat(s, [es[0], es[1]], [es[2]], slug);
    OpsTwo(s, es[0], es[1], slug);
    OpsOne(s2, es[2], slug);
  }

  /** A replace request up to the end of its body. */
  function Upstream(id: nat, slug: Slug, p: Scratch, req: Request): seq<Event> {
    [Spawn(id, Find(slug, ToReplace(req))), Run(id, Go(slug, p, 0))] + Pour(id, slug, p, req.body)
  }

  /** A replace that has streamed its body and is about to UPDATE. */
  lemma Streams(s: System, id: nat, slug: Slug, p: Scratch, req: Request)
    requires id !in s.threads && slug in s.store.rows && Visible(s.store.rows[slug], s.now)
    requires p !in s.store.files && SaneExt(req.ext) && req.body != []
    ensures Then(s, Upstream(id, slug, p, req))
            == System(s.store.(files := s.store.files[p := File(req.body, s.now)]),
                      s.threads[id := Commit(Job(Some(s.store.rows[slug]), req), p, s.now, 0)], s.now)
  {
    var job := Job(Some(s.store.rows[slug]), req);
    var spawn, lookup := Spawn(id, Find(slug, ToReplace(req))), Run(id, Go(slug, p, 0));
    ThenConcat(s, [spawn, lookup], Pour(id, slug, p, req.body));
    ThenTwo(s, spawn, lookup);
    var s2 := Apply(Apply(s, spawn), lookup);
    assert s2 == System(s.store, s.threads[id := Create(job)], s.now);
    Pours(s2, id, slug, p, job);
    assert s2.threads[id := Commit(job, p, s.now, 0)] == s.threads[id := Commit(job, p, s.now, 0)];
  }

  lemma StreamsOps(s: System, id: nat, slug: Slug, p: Scratch, req: Request)
    requires id !in s.threads && slug in s.store.rows && Visible(s.store.rows[slug], s.now)
    requires p !in s.store.files && SaneExt(req.ext)
    ensures OpsAt(s, Upstream(id, slug, p, req), slug) == []
  {
    var job := Job(Some(s.store.rows[slug]), req);
    var spawn, lookup := Spawn(id, Find(slug, ToReplace(req))), Run(id, Go(slug, p, 0));
    ThenTwo(s, spawn, lookup);
    ThenIsRun(s, [spawn, lookup]);
    var s2 := Apply(Apply(s, spawn), lookup);
    assert s2 == System(s.store, s.threads[id := Create(job)], s.now);
    OpsTwo(s, spawn, lookup, slug);
    PoursOps(s2, id, slug, p, job);
    hide Apply;
    OpsConcat(s, [spawn, lookup], Pour(id, slug, p, req.body), slug);
  }

  /** UPDATE, UPDATE, rename, rename, the first replace's outside. */
  function Crossing(slug: Slug, pa: Scratch, pb: Scratch): seq<Event> {
    var a, b := Run(0, Go(slug, pa, 0)), Run(1, Go(slug, pb, 0));
    [a, b, b, a]
  }

  /** The row and the file of `slug` after each of two concurrent replaces did its UPDATE
      and its rename, in opposite orders. */
  lemma RenamesCross(s: System, slug: Slug, ja: Job, jb: Job, pa: Scratch, pb: Scratch, at: int)
    requires s.threads == map[0 := Commit(ja, pa, at, 0), 1 := Commit(jb, pb, at, 0)]
    requires ja.prev.Some? && jb.prev == ja.prev && UploadOk(ja.prev.value) && ja.prev.value.slug == slug
    requires ja.req.ext == jb.req.ext == ja.prev.value.ext && pa != pb
    requires slug in s.store.rows && IsFile(s.store.files, DiskName(ja.prev.value))
    requires IsFile(s.store.files, pa) && IsFile(s.store.files, pb)
    ensures var f := Then(s, Crossing(slug, pa, pb));
            && f.threads == map[] && f.now == s.now && slug in f.store.rows
            && f.store.rows[slug] == RowFor(slug, jb.req, at)
            && DiskName(f.store.rows[slug]) in f.store.files
            && f.store.files[DiskName(f.store.rows[slug])] == s.store.files[pa]
  {
    var a, b := Run(0, Go(slug, pa, 0)), Run(1, Go(slug, pb, 0));
    ThenFour(s, a, b, b, a);
    var ua, ub := RowFor(slug, ja.req, at), RowFor(slug, jb.req, at);
    assert DiskName(ua) == DiskName(ub) == DiskName(ja.prev.value);
    DiskNameBelongs(ja.prev.value, slug);
    var s1 := Apply(s, a);
    assert s1.threads[0] == Promote(ja, pa, ua) && s1.threads[1] == Commit(jb, pb, at, 0);
    var s2 := Apply(s1, b);
    assert s2.threads[0] == Promote(ja, pa, ua) && s2.threads[1] == Promote(jb, pb, ub);
    var s3 := Apply(s2, b);
    assert s3.threads == map[0 := Promote(ja, pa, ua)];
    var s4 := Apply(s3, a);
    assert s4.threads == map[];
  }

  lemma RenamesCrossOps(s: System, slug: Slug, ja: Job, jb: Job, pa: Scratch, pb: Scratch, at: int)
    requires s.threads == map[0 := Commit(ja, pa, at, 0), 1 := Commit(jb, pb, at, 0)]
    requires ja.prev.Some? && jb.prev == ja.prev && UploadOk(ja.prev.value) && ja.prev.value.slug == slug
    requires ja.req.ext == jb.req.ext == ja.prev.value.ext && pa != pb
    requires slug in s.store.rows && IsFile(s.store.files, DiskName(ja.prev.value))
    requires IsFile(s.store.files, pa) && IsFile(s.store.files, pb)
    ensures OpsAt(s, Crossing(slug, pa, pb), slug) == [PutOf(slug, jb.req, at), PutOf(slug, ja.req, at)]
  {
    var a, b := Run(0, Go(slug, pa, 0)), Run(1, Go(slug, pb, 0));
    var ua, ub := RowFor(slug, ja.req, at), RowFor(slug, jb.req, at);
    DiskNameBelongs(ja.prev.value, slug);
    var s1 := Apply(s, a);
    assert s1.threads[0] == Promote(ja, pa, ua) && s1.threads[1] == Commit(jb, pb, at, 0);
    var s2 := Apply(s1, b);
    assert s2.threads[0] == Promote(ja, pa, ua) && s2.threads[1] == Promote(jb, pb, ub);
    var s3 := Apply(s2, b);
    assert s3.threads == map[0 := Promote(ja, pa, ua)];
    assert EventOp(s, a) == EventOp(s1, b) == Nop;
    assert EventOp(s2, b) == PutOf(slug, jb.req, at) && EventOp(s3, a) == PutOf(slug, ja.req, at);
    hide Apply, EventOp;
    OpsFour(s, a, b, b, a, slug);
  }

  /** A completed upload or replace, as an operation on the abstract map. */
  function PutOf(slug: string, req: Request, at: int): Op {
    Put(slug, Item(RowFor(slug, req, at), req.body))
  }

  lemma UpstreamIs(id: nat, slug: Slug, p: Scratch, req: Request)
    ensures Faultless(Upstream(id, slug, p, req))
    ensures Spawns(Upstream(id, slug, p, req)) == [Spawn(id, Find(slug, ToReplace(req)))]
  {
    var head, pour := [Spawn(id, Find(slug, ToReplace(req))), Run(id, Go(slug, p, 0))], Pour(id, slug, p, req.body);
    SpawnsConcat(head, pour);
    assert head[1..][1..] == [] && pour[1..][1..][1..] == [];
    assert pour[1..][0] == pour[1] && pour[1..][1..][0] == pour[2];
    assert Spawns(head[1..]) == [] && Spawns(pour[1..][1..]) == [];
  }

  lemma FaultlessConcat(es: seq<Event>, fs: seq<Event>)
    requires Faultless(es) && Faultless(fs)
    ensures Faultless(es + fs)
  {
    assert forall e :: e in es + fs <==> e in es || e in fs;
  }

  lemma FourSpawns(a: Event, b: Event, c: Event, d: Event)
    ensures Spawns([a, b, c, d])
            == (if a.Spawn? then [a] else []) + ((if b.Spawn? then [b] else [])
               + ((if c.Spawn? then [c] else []) + (if d.Spawn? then [d] else [])))
  {
    assert [a, b, c, d][1..] == [b, c, d] && [b, c, d][1..] == [c, d] && [c, d][1..] == [d] && [d][1..] == [];
    assert Spawns([d]) == if d.Spawn? then [d] else [];
    assert Spawns([c, d]) == (if c.Spawn? then [c] else []) + Spawns([d]);
    assert Spawns([b, c, d]) == (if b.Spawn? then [b] else []) + Spawns([c, d]);
  }

  /** Both replaces stream, then they cross. */
  function MixRun(slug: Slug, ra: Request, rb: Request, pa: Scratch, pb: Scratch): seq<Event> {
    Upstream(0, slug, pa, ra) + Upstream(1, slug, pb, rb) + Crossing(slug, pa, pb)
  }

  lemma MixShape(slug: Slug, ra: Request, rb: Request, pa: Scratch, pb: Scratch)
    ensures Faultless(MixRun(slug, ra, rb, pa, pb))
    ensures Spawns(MixRun(slug, ra, rb, pa, pb))
            == [Spawn(0, Find(slug, ToReplace(ra))), Spawn(1, Find(slug, ToReplace(rb)))]
  {
    var a, b := Run(0, Go(slug, pa, 0)), Run(1, Go(slug, pb, 0));
    UpstreamIs(0, slug, pa, ra);
    UpstreamIs(1, slug, pb, rb);
    FourSpawns(a, b, b, a);
    ThreeParts(Upstream(0, slug, pa, ra), Upstream(1, slug, pb, rb), Crossing(slug, pa, pb));
  }

  /** Both have streamed their bodies and are about to UPDATE. */
  lemma MixStreams(s: System, u: Upload, ra: Request, rb: Request, pa: Scratch, pb: Scratch)
    requires OneUpload(s, u) && SaneExt(ra.ext) && SaneExt(rb.ext) && ra.body != [] && rb.body != []
    requires pa != pb && pa !in s.store.files && pb !in s.store.files
    ensures var ea, eb := Upstream(0, u.slug, pa, ra), Upstream(1, u.slug, pb, rb);
            var t := Then(Then(s, ea), eb);
            && OpsAt(s, ea, u.slug) == [] && OpsAt(Then(s, ea), eb, u.slug) == []
            && t.threads == map[0 := Commit(Job(Some(u), ra), pa, s.now, 0),
                                1 := Commit(Job(Some(u), rb), pb, s.now, 0)]
            && t.now == s.now && u.slug in t.store.rows && IsFile(t.store.files, DiskName(u))
            && pa in t.store.files && t.store.files[pa] == File(ra.body, s.now) && IsFile(t.store.files, pb)
  {
    var slug: Slug := u.slug;
    DiskNameBelongs(u, slug);
    Streams(s, 0, slug, pa, ra);
    StreamsOps(s, 0, slug, pa, ra);
    var s1 := Then(s, Upstream(0, slug, pa, ra));
    Streams(s1, 1, slug, pb, rb);
    StreamsOps(s1, 1, slug, pb, rb);
    assert map[][0 := Commit(Job(Some(u), ra), pa, s.now, 0)][1 := Commit(Job(Some(u), rb), pb, s.now, 0)]
        == map[0 := Commit(Job(Some(u), ra), pa, s.now, 0), 1 := Commit(Job(Some(u), rb), pb, s.now, 0)];
  }

  /** Two replaces of one slug, and nothing else, both acknowledged, no failure: the second one
      completes, then the first. The row is the second one's and the bytes are the first
      one's, while on a map they would both be the first one's; so the recorded size is wrong
      unless the two bodies happen to be of one length. */
  lemma TwoReplacesMix(s: System, u: Upload, ra: Request, rb: Request, pa: Scratch, pb: Scratch)
    returns (es: seq<Event>)
    requires OneUpload(s, u) && ra.ext == u.ext && rb.ext == u.ext && ra.body != [] && rb.body != []
    requires pa != pb && pa !in s.store.files && pb !in s.store.files
    ensures var f := Exec(s, es);
            && f.threads == map[] && f.now == s.now && u.slug in f.store.rows
            && f.store.rows[u.slug] == RowFor(u.slug, rb, s.now)
            && DiskName(f.store.rows[u.slug]) in f.store.files
            && f.store.files[DiskName(f.store.rows[u.slug])] == File(ra.body, s.now)
    ensures Faultless(es)
    ensures Spawns(es) == [Spawn(0, Find(u.slug, ToReplace(ra))), Spawn(1, Find(u.slug, ToReplace(rb)))]
    ensures OpsAt(s, es, u.slug) == [PutOf(u.slug, rb, s.now), PutOf(u.slug, ra, s.now)]
    ensures Replay(s, es, u.slug, None) == Some(Item(RowFor(u.slug, ra, s.now), ra.body))
  {
    var slug: Slug := u.slug;
    es := MixRun(slug, ra, rb, pa, pb);
    MixShape(slug, ra, rb, pa, pb);
    MixStreams(s, u, ra, rb, pa, pb);
    var ea, eb, ec := Upstream(0, slug, pa, ra), Upstream(1, slug, pb, rb), Crossing(slug, pa, pb);
    var s2 := Then(Then(s, ea), eb);
    var ja, jb := Job(Some(u), ra), Job(Some(u), rb);
    hide Then, Exec, Upstream, Crossing, Apply, OpsAt, Faultless, Spawns;
    RenamesCross(s2, slug, ja, jb, pa, pb, s.now);
    RenamesCrossOps(s2, slug, ja, jb, pa, pb, s.now);
    RunOf(s, ea, eb, ec, slug);
    ReplayIsOps(s, es, slug, None);
  }

  lemma ThreeParts(ea: seq<Event>, eb: seq<Event>, ec: seq<Event>)
    requires Faultless(ea) && Faultless(eb) && Faultless(ec)
    ensures Faultless(ea + eb + ec) && Spawns(ea + eb + ec) == Spawns(ea) + Spawns(eb) + Spawns(ec)
  {
    SpawnsConcat(ea, eb);
    SpawnsConcat(ea + eb, ec);
    FaultlessConcat(ea, eb);
    FaultlessConcat(ea + eb, ec);
  }

  /** The state and the operations of a run in three parts. */
  lemma RunOf(s: System, ea: seq<Event>, eb: seq<Event>, ec: seq<Event>, slug: string)
    ensures Exec(s, ea + eb + ec) == Then(Then(Then(s, ea), eb), ec)
    ensures OpsAt(s, ea + eb + ec, slug)
            == OpsAt(s, ea, slug) + OpsAt(Then(s, ea), eb, slug) + OpsAt(Then(Then(s, ea), eb), ec, slug)
  {
    ThenIsRun(s, ea);
    ThenIsRun(Exec(s, ea), eb);
    ThenIsRun(Exec(Exec(s, ea), eb), ec);
    ExecConcat(s, ea, eb);
    ExecConcat(s, ea + eb, ec);
    OpsConcat(s, ea, eb, slug);
    OpsConcat(s, ea + eb, ec, slug);
  }

  /** The row expires, a sweep lists it, the replace does its UPDATE. */
  function Revival(slug: Slug, u: Upload, p: Scratch, now: int): seq<Event>
    requires Visible(u, now)
  {
    [Tick(ExpiresAt(u) - now), Spawn(1, List), Run(1, Go(slug, p, 0)), Run(0, Go(slug, p, 0))]
  }

  /** The sweep deletes the row, the replace renames, the sweep removes the file. */
  function Undoing(slug: Slug, p: Scratch): seq<Event> {
    [Run(1, Go(slug, p, 0)), Run(0, Go(slug, p, 0)), Run(1, Go(slug, p, 0)), Tick(0)]
  }

  /** The row expires, a sweep lists it, and only then does the replace do its UPDATE. */
  lemma ListedThenRevived(s: System, slug: Slug, u: Upload, req: Request, p: Scratch, at: int)
    requires s.threads == map[0 := Commit(Job(Some(u), req), p, at, 0)] && u.slug == slug
    requires HasRow(s.store, u) && Visible(u, s.now)
    ensures var todo := ExpiredRows(s.store.rows, ExpiresAt(u));
            var row := RowFor(slug, req, at);
            && slug in todo && todo[slug] == u
            && Then(s, Revival(slug, u, p, s.now))
               == System(s.store.(rows := s.store.rows[slug := row]),
                         map[0 := Promote(Job(Some(u), req), p, row), 1 := Sweeping(todo, map[])], ExpiresAt(u))
  {
    var go := Go(slug, p, 0);
    var t, l := Tick(ExpiresAt(u) - s.now), Spawn(1, List);
    ThenFour(s, t, l, Run(1, go), Run(0, go));
    var s3 := Apply(Apply(Apply(s, t), l), Run(1, go));
    assert s3.threads == map[0 := Commit(Job(Some(u), req), p, at, 0),
                             1 := Sweeping(ExpiredRows(s.store.rows, ExpiresAt(u)), map[])];
  }

  lemma ListedOps(s: System, slug: Slug, u: Upload, job: Job, p: Scratch, at: int)
    requires s.threads == map[0 := Commit(job, p, at, 0)] && Visible(u, s.now)
    ensures OpsAt(s, Revival(slug, u, p, s.now), slug) == []
  {
    var go := Go(slug, p, 0);
    var t, l := Tick(ExpiresAt(u) - s.now), Spawn(1, List);
    var s2 := Apply(Apply(s, t), l);
    assert s2.threads[0] == Commit(job, p, at, 0) && s2.threads[1] == List;
    assert Apply(s2, Run(1, go)).threads[0] == Commit(job, p, at, 0);
    OpsFour(s, t, l, Run(1, go), Run(0, go), slug);
  }

  /** The sweep deletes the row it now finds, the replace renames and replies, and the sweep
      removes the file. */
  lemma SweepWins(s: System, slug: Slug, u: Upload, row: Upload, job: Job, p: Scratch, todo: Rows)
    requires s.threads == map[0 := Promote(job, p, row), 1 := Sweeping(todo, map[])]
    requires slug in todo && todo[slug] == u && slug in s.store.rows
    requires UploadOk(u) && u.slug == row.slug == slug && u.ext == row.ext && job.prev == Some(u)
    requires IsFile(s.store.files, p) && IsFile(s.store.files, DiskName(u))
    ensures var f := Then(s, Undoing(slug, p));
            && 0 !in f.threads && f.now == s.now && slug !in f.store.rows && DiskName(u) !in f.store.files
  {
    var go := Go(slug, p, 0);
    ThenFour(s, Run(1, go), Run(0, go), Run(1, go), Tick(0));
    assert DiskName(row) == DiskName(u);
    var s1 := Apply(s, Run(1, go));
    assert s1.threads == map[0 := Promote(job, p, row), 1 := SweepFile(u, todo - {slug}, map[])];
    var s2 := Apply(s1, Run(0, go));
    assert s2.threads == map[1 := SweepFile(u, todo - {slug}, map[])];
  }

  lemma SweepWinsOps(s: System, slug: Slug, u: Upload, row: Upload, job: Job, p: Scratch, todo: Rows)
    requires s.threads == map[0 := Promote(job, p, row), 1 := Sweeping(todo, map[])]
    requires slug in todo && todo[slug] == u && slug in s.store.rows
    requires UploadOk(u) && u.slug == row.slug == slug && u.ext == row.ext && job.prev == Some(u)
    requires IsFile(s.store.files, p) && IsFile(s.store.files, DiskName(u))
    ensures OpsAt(s, Undoing(slug, p), slug)
            == [Del(slug), Put(slug, Item(row, job.req.body))]
  {
    var go := Go(slug, p, 0);
    var s1 := Apply(s, Run(1, go));
    assert s1.threads == map[0 := Promote(job, p, row), 1 := SweepFile(u, todo - {slug}, map[])];
    assert CanRename(s1.store.files, p, DiskName(row));
    var s2 := Apply(s1, Run(0, go));
    assert s2.threads == map[1 := SweepFile(u, todo - {slug}, map[])];
    OpsFour(s, Run(1, go), Run(0, go), Run(1, go), Tick(0), slug);
  }

  function SweepRaceRun(slug: Slug, u: Upload, req: Request, p: Scratch, now: int): seq<Event>
    requires Visible(u, now)
  {
    Upstream(0, slug, p, req) + Revival(slug, u, p, now) + Undoing(slug, p)
  }

  lemma SweepRaceShape(slug: Slug, u: Upload, req: Request, p: Scratch, now: int)
    requires Visible(u, now)
    ensures Faultless(SweepRaceRun(slug, u, req, p, now))
    ensures Spawns(SweepRaceRun(slug, u, req, p, now)) == [Spawn(0, Find(slug, ToReplace(req))), Spawn(1, List)]
  {
    var eb, ec := Revival(slug, u, p, now), Undoing(slug, p);
    UpstreamIs(0, slug, p, req);
    FourSpawns(eb[0], eb[1], eb[2], eb[3]);
    FourSpawns(ec[0], ec[1], ec[2], ec[3]);
    ThreeParts(Upstream(0, slug, p, req), eb, ec);
  }

  lemma SweepRaceStreams(s: System, u: Upload, req: Request, p: Scratch)
    requires OneUpload(s, u) && SaneExt(req.ext) && req.body != [] && p !in s.store.files
    ensures var ea, eb := Upstream(0, u.slug, p, req), Revival(u.slug, u, p, s.now);
            var row, todo := RowFor(u.slug, req, s.now), ExpiredRows(s.store.rows, ExpiresAt(u));
            && OpsAt(s, ea, u.slug) == [] && OpsAt(Then(s, ea), eb, u.slug) == []
            && u.slug in todo && todo[u.slug] == u
            && var t := Then(Then(s, ea), eb);
            && t.threads == map[0 := Promote(Job(Some(u), req), p, row), 1 := Sweeping(todo, map[])]
            && t.now == ExpiresAt(u) && u.slug in t.store.rows
            && IsFile(t.store.files, p) && IsFile(t.store.files, DiskName(u))
  {
    var slug: Slug := u.slug;
    DiskNameBelongs(u, slug);
    var job := Job(Some(u), req);
    Streams(s, 0, slug, p, req);
    StreamsOps(s, 0, slug, p, req);
    var s1 := Then(s, Upstream(0, slug, p, req));
    assert s1.threads == map[0 := Commit(job, p, s.now, 0)] && HasRow(s1.store, u) && s1.now == s.now;
    assert s1.store.rows == s.store.rows && IsFile(s1.store.files, p) && IsFile(s1.store.files, DiskName(u));
    hide Then, Upstream, Revival, OpsAt, ExpiredRows, DiskName, RowsOk, UploadOk;
    ListedThenRevived(s1, slug, u, req, p, s.now);
    ListedOps(s1, slug, u, job, p, s.now);
  }

  /** One replace and one sweep, and nothing else, no failure. The sweep lists the row just
      before the replace revives it; it deletes the new row, the replace completes and is
      acknowledged, and the sweep removes the file just put in place. On a map the new
      upload, which has not expired, would be there. */
  lemma SweepUndoesReplace(s: System, u: Upload, req: Request, p: Scratch) returns (es: seq<Event>)
    requires OneUpload(s, u) && req.ext == u.ext && req.body != [] && p !in s.store.files
    requires s.now + req.ttl > ExpiresAt(u)
    ensures var f := Exec(s, es);
            && 0 !in f.threads && Visible(RowFor(u.slug, req, s.now), f.now)
            && u.slug !in f.store.rows && DiskName(u) !in f.store.files
    ensures Faultless(es)
    ensures Spawns(es) == [Spawn(0, Find(u.slug, ToReplace(req))), Spawn(1, List)]
    ensures OpsAt(s, es, u.slug) == [Del(u.slug), PutOf(u.slug, req, s.now)]
    ensures Replay(s, es, u.slug, None) == Some(Item(RowFor(u.slug, req, s.now), req.body))
  {
    var slug: Slug := u.slug;
    es := SweepRaceRun(slug, u, req, p, s.now);
    SweepRaceShape(slug, u, req, p, s.now);
    var ea, eb, ec := Upstream(0, slug, p, req), Revival(slug, u, p, s.now), Undoing(slug, p);
    var job, row, todo := Job(Some(u), req), RowFor(slug, req, s.now), ExpiredRows(s.store.rows, ExpiresAt(u));
    SweepRaceStreams(s, u, req, p);
    var s2 := Then(Then(s, ea), eb);
    hide Then, Exec, Upstream, Revival, Undoing, Apply, OpsAt, Faultless, Spawns;
    SweepWins(s2, slug, u, row, job, p, todo);
    SweepWinsOps(s2, slug, u, row, job, p, todo);
    RunOf(s, ea, eb, ec, slug);
    ReplayIsOps(s, es, slug, None);
  }

  // ---- A rename that fails ---------------------------------------------------------

  /** A store call that fails. */
  function Fail(slug: Slug, scratch: Scratch): Choice {
    Choice(false, false, slug, scratch, 0, slug)
  }

  /** An upload request up to its INSERT. */
  function UploadUpstream(id: nat, slug: Slug, p: Scratch, req: Request): seq<Event> {
    [Spawn(id, Create(Job(None, req)))] + Pour(id, slug, p, req.body) + [Run(id, Go(slug, p, 0))]
  }

  /** An upload that has inserted its row and is about to rename. */
  lemma Inserts(s: System, id: nat, slug: Slug, p: Scratch, req: Request)
    requires id !in s.threads && slug !in s.store.rows && p !in s.store.files && SaneExt(req.ext) && req.body != []
    ensures var u := RowFor(slug, req, s.now);
            Then(s, UploadUpstream(id, slug, p, req))
            == System(Store(s.store.rows[slug := u], s.store.files[p := File(req.body, s.now)]),
                      s.threads[id := Promote(Job(None, req), p, u)], s.now)
  {
    var job := Job(None, req);
    var spawn, insert := Spawn(id, Create(job)), Run(id, Go(slug, p, 0));
    var pour := Pour(id, slug, p, req.body);
    var s1 := Apply(s, spawn);
    assert s1 == System(s.store, s.threads[id := Create(job)], s.now);
    assert Then(s, [spawn]) == Then(s1, []);
    Pours(s1, id, slug, p, job);
    var s2 := Then(s1, pour);
    InsertTurn(s2, id, slug, p, job);
    hide Apply;
    ThenConcat(s, [spawn], pour);
    ThenConcat(s, [spawn] + pour, [insert]);
    assert s2.threads[id := Promote(job, p, RowFor(slug, req, s.now))]
        == s.threads[id := Promote(job, p, RowFor(slug, req, s.now))];
  }

  lemma InsertTurn(s: System, id: nat, slug: Slug, p: Scratch, job: Job)
    requires id in s.threads && s.threads[id] == Commit(job, p, s.now, 0) && job.prev == None
    requires slug !in s.store.rows
    ensures var u := RowFor(slug, job.req, s.now);
            Then(s, [Run(id, Go(slug, p, 0))])
            == System(s.store.(rows := s.store.rows[slug := u]), s.threads[id := Promote(job, p, u)], s.now)
  {
    var insert := Run(id, Go(slug, p, 0));
    assert Then(s, [insert]) == Then(Apply(s, insert), []);
  }

  /** The rename fails, the row is deleted again, the scratch file is removed. */
  function Unwinding(slug: Slug, p: Scratch): seq<Event> {
    [Run(0, Fail(slug, p)), Run(0, Go(slug, p, 0)), Run(0, Go(slug, p, 0)), Tick(0)]
  }

  lemma RollsBack(s: System, was: Store, slug: Slug, u: Upload, job: Job, p: Scratch)
    requires s.threads == map[0 := Promote(job, p, u)] && job.prev == None && u.slug == slug
    requires slug !in was.rows && p !in was.files
    requires s.store.rows == was.rows[slug := u]
    requires p in s.store.files && s.store.files - {p} == was.files
    ensures Then(s, Unwinding(slug, p)) == System(was, map[], s.now)
  {
    var es := Unwinding(slug, p);
    ThenFour(s, es[0], es[1], es[2], es[3]);
    var s1 := Apply(s, es[0]);
    assert s1.threads == map[0 := Rollback(job, p, u)];
    var s2 := Apply(s1, es[1]);
    assert s2.store.rows == was.rows && s2.threads == map[0 := Discard(p, None)];
    var s3 := Apply(s2, es[2]);
    assert s3.store.files == was.files && s3.threads == map[];
  }

  /** An upload whose rename fails undoes itself completely. */
  lemma UploadRenameFails(s: System, req: Request, slug: Slug, p: Scratch)
    returns (pre: seq<Event>, post: seq<Event>)
    requires s.threads == map[] && slug !in s.store.rows && p !in s.store.files
    requires SaneExt(req.ext) && req.body != []
    ensures var u := RowFor(slug, req, s.now);
            Exec(s, pre).threads == map[0 := Promote(Job(None, req), p, u)] && HasRow(Exec(s, pre).store, u)
    ensures pre == UploadUpstream(0, slug, p, req) && post == Unwinding(slug, p)
    ensures Exec(s, pre + post) == s
  {
    pre := UploadUpstream(0, slug, p, req);
    Inserts(s, 0, slug, p, req);
    ThenIsRun(s, pre);
    var u := RowFor(slug, req, s.now);
    post := Unwinding(slug, p);
    RollsBack(Exec(s, pre), s.store, slug, u, Job(None, req), p);
    ThenIsRun(Exec(s, pre), post);
    ExecConcat(s, pre, post);
  }

  /** A replace that has done its UPDATE. */
  lemma Updates(s: System, u: Upload, req: Request, p: Scratch) returns (es: seq<Event>)
    requires OneUpload(s, u) && SaneExt(req.ext) && req.body != [] && p !in s.store.files
    ensures var row := RowFor(u.slug, req, s.now);
            Exec(s, es) == System(Store(s.store.rows[u.slug := row], s.store.files[p := File(req.body, s.now)]),
                                  map[0 := Promote(Job(Some(u), req), p, row)], s.now)
  {
    var slug: Slug := u.slug;
    var pre, update := Upstream(0, slug, p, req), Run(0, Go(slug, p, 0));
    Streams(s, 0, slug, p, req);
    var s1 := Then(s, pre);
    assert s1.threads == map[0 := Commit(Job(Some(u), req), p, s.now, 0)];
    ThenIsRun(s, pre);
    ExecAppend(s, pre, update);
    es := pre + [update];
    assert Apply(s1, update).threads == map[0 := Promote(Job(Some(u), req), p, RowFor(slug, req, s.now))];
  }

  /** What is left of a replace that stopped after its UPDATE, once boot has run: the new row
      over the old bytes if the extension is unchanged, nothing if it changed. Its scratch
      file goes only if five minutes have passed. */
  ghost predicate HalfReplaced(s: System, u: Upload, req: Request, p: string, d: Store, now: int)
    requires DiskName(u) in s.store.files
  {
    var row := RowFor(u.slug, req, s.now);
    && (p in d.files <==> now < s.now + REAP_AGE)
    && (if req.ext == u.ext
        then HasRow(d, row) && DiskName(row) in d.files && d.files[DiskName(row)] == s.store.files[DiskName(u)]
        else u.slug !in d.rows && DiskName(u) !in d.files && DiskName(row) !in d.files)
  }

  lemma ScratchAtBoot(st: Store, p: Scratch, now: int)
    requires RowsOk(st.rows) && IsFile(st.files, p)
    ensures p in Boot(st, now).files <==> now < st.files[p].mtime + REAP_AGE
  {
    BootConverges(st, now);
    assert IsPartial(p);
  }

  lemma SameExtensionBoots(st: Store, u: Upload, row: Upload, now: int)
    requires RowsOk(st.rows) && HasRow(st, row) && UploadOk(u) && !IsPartial(u.ext) && HasFile(st, u)
    requires row.slug == u.slug && row.ext == u.ext
    ensures var d := Boot(st, now);
            HasRow(d, row) && DiskName(row) in d.files && d.files[DiskName(row)] == st.files[DiskName(u)]
  {
    DiskNameBelongs(u, u.slug);
    PartialByExtension(u.slug, u.ext);
    BootKeeps(st, u.slug, DiskName(u), now);
    BootConverges(st, now);
  }

  lemma OtherExtensionBoots(st: Store, u: Upload, row: Upload, now: int)
    requires RowsOk(st.rows) && HasRow(st, row) && UploadOk(u) && !IsPartial(u.ext) && HasFile(st, u)
    requires row.slug == u.slug && row.ext != u.ext && DiskName(row) !in st.files
    ensures var d := Boot(st, now);
            u.slug !in d.rows && DiskName(u) !in d.files && DiskName(row) !in d.files
  {
    DiskNameBelongs(u, u.slug);
    PartialByExtension(u.slug, u.ext);
    SameSlugSameName(u, row);
    BootKeeps(st, u.slug, DiskName(u), now);
    BootConverges(st, now);
  }

  lemma HalfReplacedBoots(s: System, st: Store, d: Store, u: Upload, req: Request, p: Scratch, now: int)
    requires d == Boot(st, now)
    requires OneUpload(s, u) && SaneExt(req.ext) && !IsPartial(u.ext) && p !in s.store.files
    requires req.ext != u.ext ==> u.slug + req.ext !in s.store.files
    requires st == Store(s.store.rows[u.slug := RowFor(u.slug, req, s.now)],
                         s.store.files[p := File(req.body, s.now)])
    ensures HalfReplaced(s, u, req, p, d, now)
  {
    var row := RowFor(u.slug, req, s.now);
    DiskNameBelongs(u, u.slug);
    DiskNameBelongs(row, u.slug);
    assert RowsOk(st.rows) && UploadOk(row) && IsScratch(p);
    hide Boot, IsPartial, IsScratch, SaneExt, UploadOk, RowsOk;
    assert HasFile(st, u) && st.files[DiskName(u)] == s.store.files[DiskName(u)];
    ScratchAtBoot(st, p, now);
    assert p in d.files <==> now < s.now + REAP_AGE;
    if req.ext == u.ext {
      SameExtensionBoots(st, u, row, now);
      assert HasRow(d, row) && d.files[DiskName(row)] == s.store.files[DiskName(u)];
    } else {
      assert DiskName(row) == u.slug + req.ext;
      OtherExtensionBoots(st, u, row, now);
    }
  }

  lemma BootsHalfReplaced(s: System, es: seq<Event>, u: Upload, req: Request, p: Scratch, down: nat)
    returns (boot: seq<Event>)
    requires OneUpload(s, u) && SaneExt(req.ext) && !IsPartial(u.ext) && p !in s.store.files
    requires req.ext != u.ext ==> u.slug + req.ext !in s.store.files
    requires Exec(s, es).now == s.now
    requires Exec(s, es).store == Store(s.store.rows[u.slug := RowFor(u.slug, req, s.now)],
                                        s.store.files[p := File(req.body, s.now)])
    ensures boot != [] && boot[0] == Crash && Exec(s, es + boot) == Reboot(Exec(s, es), down)
    ensures HalfReplaced(s, u, req, p, Exec(s, es + boot).store, s.now + down)
  {
    var e := Exec(s, es);
    var d := Reboot(e, down).store;
    hide Exec, OneUpload, HalfReplaced, SaneExt, IsPartial, Boot;
    boot := RebootIsRun(e, down);
    ExecConcat(s, es, boot);
    HalfReplacedBoots(s, e.store, d, u, req, p, s.now + down);
  }

  /** The rename fails: the handler returns with its UPDATE committed and its scratch file in
      place, unlike an upload's. */
  lemma ReplaceRenameFails(s: System, u: Upload, req: Request, p: Scratch, down: nat)
    returns (es: seq<Event>, boot: seq<Event>)
    requires OneUpload(s, u) && SaneExt(req.ext) && req.body != [] && !IsPartial(u.ext) && p !in s.store.files
    requires req.ext != u.ext ==> u.slug + req.ext !in s.store.files
    ensures var f := Exec(s, es);
            && f.threads == map[0 := Abandoned(map[u.slug := Swapping(u, RowFor(u.slug, req, s.now))])]
            && HasRow(f.store, RowFor(u.slug, req, s.now))
            && p in f.store.files && f.store.files[p] == File(req.body, s.now)
            && f.store.files - {p} == s.store.files
    ensures Exec(s, es + boot) == Reboot(Exec(s, es), down)
    ensures HalfReplaced(s, u, req, p, Exec(s, es + boot).store, s.now + down)
  {
    var slug: Slug := u.slug;
    var pre := Updates(s, u, req, p);
    var rename := Run(0, Fail(slug, p));
    es := pre + [rename];
    ExecAppend(s, pre, rename);
    var f := Exec(s, es);
    assert f.threads == map[0 := Abandoned(map[slug := Swapping(u, RowFor(slug, req, s.now))])];
    hide HalfReplaced, Reboot, Exec;
    boot := BootsHalfReplaced(s, es, u, req, p, down);
  }

  /** The process dies between UPDATE and rename. */
  lemma ReplaceCut(s: System, u: Upload, req: Request, p: Scratch, down: nat)
    returns (es: seq<Event>, boot: seq<Event>)
    requires OneUpload(s, u) && SaneExt(req.ext) && req.body != [] && !IsPartial(u.ext) && p !in s.store.files
    requires req.ext != u.ext ==> u.slug + req.ext !in s.store.files
    ensures Exec(s, es).threads == map[0 := Promote(Job(Some(u), req), p, RowFor(u.slug, req, s.now))]
    ensures boot != [] && boot[0] == Crash && Exec(s, es + boot) == Reboot(Exec(s, es), down)
    ensures HalfReplaced(s, u, req, p, Exec(s, es + boot).store, s.now + down)
  {
    es := Updates(s, u, req, p);
    hide HalfReplaced, Reboot, Exec;
    boot := BootsHalfReplaced(s, es, u, req, p, down);
  }

  // ---- An extension that looks like scratch ----------------------------------------

  /** An upload from request to reply. */
  lemma Uploads(s: System, req: Request, slug: Slug, p: Scratch) returns (es: seq<Event>)
    requires s.threads == map[] && slug !in s.store.rows && p !in s.store.files
    requires SaneExt(req.ext) && req.body != [] && slug + req.ext !in s.store.files
    ensures var f, u := Exec(s, es), RowFor(slug, req, s.now);
            && f.threads == map[] && f.now == s.now && f.store.rows == s.store.rows[slug := u]
            && DiskName(u) in f.store.files && f.store.files[DiskName(u)] == File(req.body, s.now)
  {
    var pre, rename := UploadUpstream(0, slug, p, req), Run(0, Go(slug, p, 0));
    var u := RowFor(slug, req, s.now);
    Inserts(s, 0, slug, p, req);
    ThenIsRun(s, pre);
    ExecAppend(s, pre, rename);
    es := pre + [rename];
    DiskNameBelongs(u, slug);
    Renames(Exec(s, pre), Job(None, req), p, u);
  }

  /** An upload with extension ".partial", acknowledged, is lost at the first boot five
      minutes later, with no failure anywhere. */
  lemma PartialUploadLost(s: System, req: Request, slug: Slug, p: Scratch)
    returns (es: seq<Event>, boot: seq<Event>)
    requires s.threads == map[] && slug !in s.store.rows && p !in s.store.files
    requires req.ext == PARTIAL && req.body != [] && slug + PARTIAL !in s.store.files
    ensures var f, u := Exec(s, es), RowFor(slug, req, s.now);
            && f.threads == map[] && HasRow(f.store, u)
            && DiskName(u) in f.store.files && f.store.files[DiskName(u)] == File(req.body, s.now)
    ensures Exec(s, es + boot) == Reboot(Exec(s, es), REAP_AGE)
    ensures slug !in Exec(s, es + boot).store.rows && slug + PARTIAL !in Exec(s, es + boot).store.files
  {
    var u := RowFor(slug, req, s.now);
    es := Uploads(s, req, slug, p);
    assert UploadOk(u);
    hide Boot, Exec, UploadOk;
    boot := RebootIsRun(Exec(s, es), REAP_AGE);
    ExecConcat(s, es, boot);
    ReapedAtBoot(Exec(s, es).store, u, s.now + REAP_AGE);
  }

  lemma Renames(s: System, job: Job, p: Scratch, u: Upload)
    requires s.threads == map[0 := Promote(job, p, u)] && job.prev == None && ValidSlug(u.slug)
    requires p in s.store.files && DiskName(u) !in s.store.files
    ensures Apply(s, Run(0, Go(u.slug, p, 0)))
            == System(s.store.(files := Renamed(s.store.files, p, DiskName(u))), map[], s.now)
  {
    assert s.threads - {0} == map[];
  }

  lemma ReapedAtBoot(st: Store, u: Upload, now: int)
    requires HasRow(st, u) && UploadOk(u) && u.ext == PARTIAL
    requires IsFile(st.files, DiskName(u)) && st.files[DiskName(u)].mtime <= now - REAP_AGE
    ensures u.slug !in Boot(st, now).rows && DiskName(u) !in Boot(st, now).files
  {
    PartialByExtension(u.slug, u.ext);
    BootConverges(st, now);
  }
}
