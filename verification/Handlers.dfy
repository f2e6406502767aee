/** The HTTP handlers as they run, statement by statement, on the store object. Each is
    proved to do what its thread of the protocol does when nothing interleaves, whichever
    calls fail and wherever the process dies. */
module Handlers {
  import opened Common
  import opened Names
  import opened Table
  import opened Machine
  import opened Containers
  import opened BodyStream

  /** A thread that has ended with something left behind does nothing more. */
  lemma {:induction false} Idle(st: Store, th: Thread, turns: seq<Turn>, i: nat)
    requires i <= |turns| && (th.Abandoned? || th.Replied?)
    ensures RunAlone(st, Some(th), turns, i) == Next(st, Some(th))
    decreases |turns| - i
  {
    if i < |turns| {
      Idle(st, th, turns, i + 1);
    }
  }

  lemma Answered(st: Store, reply: Reply, turns: seq<Turn>, i: nat)
    ensures i <= |turns| ==> RunAlone(st, Some(Replied(reply)), turns, i) == Next(st, Some(Replied(reply)))
  {
    if i <= |turns| {
      Idle(st, Replied(reply), turns, i);
    }
  }

  /** The streaming turns alone lead the thread to its commit iff the request is accepted. */
  ghost predicate StreamsTo(was: Store, job: Job, name: string, out: Outcome, at: int, pre: seq<Turn>) {
    var th := RunAlone(was, Some(Create(job)), pre, 0).th;
    match out
    case Accepted(_, _) => th == Some(Commit(job, name, at, 0))
    case Rejected(_) => th == None
    case Died => true
  }

  /** A replace alone: the lookup, the streaming turns, and the rest. */
  lemma ReplaceTurns(was: Store, slug: string, req: Request, t: Turn, pre: seq<Turn>, rest: seq<Turn>)
    ensures var first := StepFind(was, slug, ToReplace(req), t.now, t.c);
            var mid := RunAlone(first.store, first.th, pre, 0);
            var all := RunAlone(was, Some(Find(slug, ToReplace(req))), [t] + pre + rest, 0);
            all == RunAlone(mid.store, mid.th, rest, 0) && (rest == [] ==> all == mid)
  {
    var find := Some(Find(slug, ToReplace(req)));
    var first := StepFind(was, slug, ToReplace(req), t.now, t.c);
    assert [] + [t] == [t];
    OneMoreTurn(was, find, [], t);
    AloneThen(was, find, [t], pre + rest, 0);
    AloneThen(first.store, first.th, pre, rest, 0);
    assert [t] + (pre + rest) == [t] + pre + rest;
  }

  lemma ReplaceMisses(was: Store, slug: string, req: Request, t: Turn)
    requires StepFind(was, slug, ToReplace(req), t.now, t.c).th.None?
    ensures RunAlone(was, Some(Find(slug, ToReplace(req))), [t] + [] + [], 0).store == was
  {
    ReplaceTurns(was, slug, req, t, [], []);
  }

  /** Draw `k` is the first that names a slug without a row, and no INSERT failed up to it. */
  predicate FreeDraw(rows: Rows, turns: seq<Turn>, k: int) {
    && 0 <= k < |turns| && turns[k].c.slug !in rows
    && (forall j | 0 <= j <= k :: turns[j].c.ok)
    && (forall j | 0 <= j < k :: turns[j].c.slug in rows)
  }

  /** The swap gets through to its reply: the rename works, and the process lives to the end. */
  predicate Swaps(files: Files, before: Upload, updated: Upload, p: string, turns: seq<Turn>, i: nat) {
    && i < |turns| && turns[i].c.ok && p in files
    && !(updated.slug + updated.ext in files && files[updated.slug + updated.ext].Dir?)
    && (updated.ext != before.ext ==> i + 1 < |turns|)
  }

  /** The directory after a swap that got through. */
  function Swapped(files: Files, before: Upload, updated: Upload, p: string, turns: seq<Turn>, i: nat): Files
    requires Swaps(files, before, updated, p, turns, i)
  {
    var gone := if updated.ext != before.ext && turns[i + 1].c.ok then {p, before.slug + before.ext} else {p};
    (files - gone)[updated.slug + updated.ext := files[p]]
  }

  class Server {
    const container: Container

    constructor (container: Container)
      ensures this.container == container
    {
      this.container := container;
    }

    /** DELETE /api/files/{slug}: row first, then file. The status is none if the process dies
        before it answers. */
    method HandleDelete(slug: string, turns: seq<Turn>) returns (status: Option<int>)
      requires RowsOk(container.rows)
      modifies container
      ensures container.Value() == RunAlone(old(container.Value()), Some(Find(slug, ToDelete)), turns, 0).store
      ensures status == if !ValidSlug(slug) then Some(400)
                        else if turns == [] then None
                        else if !turns[0].c.ok then Some(500)
                        else if !(slug in old(container.rows) && turns[0].now < old(container.rows)[slug].uploadedAt
                                                                                  + old(container.rows)[slug].ttl)
                        then Some(404)
                        else if |turns| == 1 then None
                        else if !turns[1].c.ok then Some(500)
                        else if |turns| == 2 then None
                        else Some(204)
      ensures status == Some(204) ==>
                && container.rows == old(container.rows) - {slug}
                && container.files == if turns[2].c.ok
                                      then old(container.files) - {slug + old(container.rows)[slug].ext}
                                      else old(container.files)
      ensures status.Some? && status != Some(204) ==> container.Value() == old(container.Value())
    {
      ghost var goal := RunAlone(container.Value(), Some(Find(slug, ToDelete)), turns, 0);
      if !ValidSlug(slug) {
        if turns != [] {
          assert goal == RunAlone(container.Value(), None, turns, 1);
        }
        return Some(400);
      }
      if turns == [] { return None; }
      var u, r := container.Get(slug, turns[0].now, turns[0].c.ok);
      if r != Done { return Some(500); }
      if u.None? { return Some(404); }
      assert goal == RunAlone(container.Value(), Some(DropRow(u.value)), turns, 1);
      if |turns| == 1 { return None; }
      r := container.DeleteBySlug(slug, turns[1].c.ok);
      if r == StorageError {
        assert goal == RunAlone(container.Value(), None, turns, 2);
        return Some(500);
      }
      assert goal == RunAlone(container.Value(), Some(DropFile(u.value)), turns, 2);
      if |turns| == 2 { return None; }
      r := container.RemoveFile(DiskName(u.value), turns[2].c.ok);
      if r != Done {
        Idle(container.Value(), Abandoned(map[u.value.slug := FileOnly(u.value)]), turns, 3);
      } else {
        assert goal == RunAlone(container.Value(), None, turns, 3);
      }
      return Some(204);
    }

    /** GET /s/{slug}: look the row up, then open its file. A bad slug, no row and no file are
        all the same 404 to the client. */
    method HandleServe(slug: string, turns: seq<Turn>) returns (reply: Option<Reply>)
      requires RowsOk(container.rows)
      ensures turns != [] && reply.Some? ==>
                RunAlone(container.Value(), Some(Find(slug, ToServe)), turns, 0)
                == Next(container.Value(), Some(Replied(reply.value)))
      ensures reply == if !ValidSlug(slug) then Some(NoRow)
                       else if turns == [] then None
                       else if !turns[0].c.ok then Some(Failed)
                       else if !(slug in container.rows
                                 && turns[0].now < container.rows[slug].uploadedAt + container.rows[slug].ttl)
                       then Some(NoRow)
                       else if |turns| == 1 then None
                       else if !turns[1].c.ok then Some(Failed)
                       else if slug + container.rows[slug].ext !in container.files then Some(NoFile)
                       else if container.files[slug + container.rows[slug].ext].File?
                       then Some(Body(container.rows[slug], container.files[slug + container.rows[slug].ext].content))
                       else Some(Failed)
    {
      ghost var goal := RunAlone(container.Value(), Some(Find(slug, ToServe)), turns, 0);
      if !ValidSlug(slug) {
        Answered(container.Value(), NoRow, turns, 1);
        return Some(NoRow);
      }
      if turns == [] { return None; }
      var u, r := container.Get(slug, turns[0].now, turns[0].c.ok);
      if r != Done {
        Answered(container.Value(), Failed, turns, 1);
        return Some(Failed);
      }
      if u.None? {
        Answered(container.Value(), NoRow, turns, 1);
        return Some(NoRow);
      }
      assert goal == RunAlone(container.Value(), Some(Open(u.value)), turns, 1);
      if |turns| == 1 { return None; }
      var bytes;
      bytes, r := container.OpenFile(DiskName(u.value), turns[1].c.ok);
      var answer := if r == NotFound then NoFile else if r == Done then Body(u.value, bytes) else Failed;
      Answered(container.Value(), answer, turns, 2);
      return Some(answer);
    }

    /** Best-effort removal of a scratch file, as the last thing a handler does. */
    method DropScratch(p: string, ghost dangling: Option<Upload>, turns: seq<Turn>, start: nat) returns (i: nat)
      requires start <= |turns|
      modifies container`files
      ensures start <= i <= |turns|
      ensures RunAlone(old(container.Value()), Some(Discard(p, dangling)), turns, start).store == container.Value()
      ensures container.files == if start < |turns| && turns[start].c.ok then old(container.files) - {p}
                                 else old(container.files)
    {
      ghost var goal := RunAlone(container.Value(), Some(Discard(p, dangling)), turns, start);
      i := start;
      if i == |turns| { return; }
      var _ := container.RemoveFile(p, turns[i].c.ok);
      i := i + 1;
      if dangling.Some? {
        Idle(container.Value(), Abandoned(map[dangling.value.slug := RowOnly(dangling.value)]), turns, i);
      }
    }

    /** Draw slugs until one is free, at most SLUG_COLLISION_RETRIES times. The row is built
        once and only its slug changes. On success exactly one row is added, under a slug
        that had none, the first such draw; otherwise none. */
    method InsertWithRetry(row: Upload, ghost req: Request, ghost p: string, turns: seq<Turn>)
      returns (u: Option<Upload>, failed: bool, i: nat)
      requires row == RowFor(row.slug, req, row.uploadedAt)
      modifies container`rows
      ensures i <= |turns|
      ensures var alone := RunAlone(old(container.Value()), Some(Commit(Job(None, req), p, row.uploadedAt, 0)),
                                    turns, 0);
              if u.Some? then alone == RunAlone(container.Value(), Some(Promote(Job(None, req), p, u.value)), turns, i)
              else if failed then alone == RunAlone(container.Value(), Some(Discard(p, None)), turns, i)
              else alone.store == container.Value()
      ensures u.Some? ==>
                && 0 < i <= 5
                && u.value == row.(slug := turns[i - 1].c.slug)
                && u.value.slug !in old(container.rows)
                && container.rows == old(container.rows)[u.value.slug := u.value]
                && forall k | 0 <= k < i - 1 :: turns[k].c.slug in old(container.rows)
      ensures u.Some? <==> exists k :: 0 <= k < i && FreeDraw(old(container.rows), turns, k)
      ensures (exists k :: 0 <= k < 5 && FreeDraw(old(container.rows), turns, k)) ==> u.Some?
      ensures u.None? ==> container.rows == old(container.rows)
      ensures u.None? && failed ==>
                0 < i && (!turns[i - 1].c.ok
                  || (i == 5 && forall k | 0 <= k < i :: turns[k].c.slug in container.rows))
    {
      ghost var at := row.uploadedAt;
      ghost var goal := RunAlone(container.Value(), Some(Commit(Job(None, req), p, at, 0)), turns, 0);
      u, failed, i := None, false, 0;
      while i < SLUG_COLLISION_RETRIES
        invariant i <= SLUG_COLLISION_RETRIES && i <= |turns|
        invariant container.rows == old(container.rows) && container.files == old(container.files)
        invariant forall k | 0 <= k < i :: turns[k].c.ok && turns[k].c.slug in container.rows
        invariant i < SLUG_COLLISION_RETRIES ==>
                    goal == RunAlone(container.Value(), Some(Commit(Job(None, req), p, at, i)), turns, i)
        invariant i == SLUG_COLLISION_RETRIES ==>
                    goal == RunAlone(container.Value(), Some(Discard(p, None)), turns, i)
      {
        if i == |turns| { return; }
        var attempt := row.(slug := turns[i].c.slug);
        var r := container.Insert(attempt, turns[i].c.ok);
        i := i + 1;
        if r == Done {
          assert FreeDraw(old(container.rows), turns, i - 1);
          return Some(attempt), false, i;
        }
        if r == StorageError { return None, true, i; }
      }
      failed := true;
    }

    /** POST /api/upload: `pre` are the turns the streaming takes, `turns` those after it. A
        reply means the row and the whole body are in place under a slug that had no row, with
        the time its streaming ended, and no other row or name changed. A rename that fails
        leaves everything as it was, unless taking it back fails too. */
    method HandleUpload(h: Header, r: CappedBody, env: Conditions, turns: seq<Turn>)
      returns (reply: Option<Upload>, out: Outcome, at: int, ghost pre: seq<Turn>)
      requires r.Valid() && r.pos == 0 && r.sticky == None
      modifies container, r
      ensures env.lives ==> !out.Died?
      ensures DiskOk(env) && env.name !in old(container.files) && !out.Died? ==>
                out == Verdict(h.ttl, r.source, r.end, r.cap)
      ensures env.createOk && env.writeOk && env.closeOk && env.name !in old(container.files) && !out.Died? ==>
                && (h.ttl.Some? && r.end == EOF && 1 <= |r.source| <= r.cap ==>
                      out == Accepted(|r.source|, h.ttl.value))
                && (out == Rejected(413) <==> h.ttl.Some? && |r.source| > r.cap)
                && (h.ttl.None? || r.source == [] ==> out == Rejected(400))
      ensures reply.Some? <==>
                && out.Accepted?
                && exists k :: 0 <= k < 5 && FreeDraw(old(container.rows), turns, k)
                     && k + 1 < |turns| && turns[k + 1].c.ok
                     && !(turns[k].c.slug + h.ext in old(container.files)
                          && old(container.files)[turns[k].c.slug + h.ext].Dir?)
      ensures StreamsTo(old(container.Value()), Job(None, Asked(h, r.source)), env.name, out, at, pre)
      ensures container.Value() == RunAlone(old(container.Value()), Some(Create(Job(None, Asked(h, r.source)))),
                                            pre + (if out.Accepted? then turns else []), 0).store
      ensures out.Rejected? ==> container.rows == old(container.rows)
      ensures out.Rejected? && env.removeOk ==> container.files == old(container.files)
      ensures reply.Some? ==>
                var u := reply.value;
                && h.ttl == Some(u.ttl) && u.ext == h.ext && u.filename == h.filename && u.contentType == h.contentType
                && u.size == |r.source| && pre != [] && u.uploadedAt == at == pre[|pre| - 1].now >= env.now
                && 1 <= u.size <= r.cap && u.slug !in old(container.rows)
                && container.rows == old(container.rows)[u.slug := u]
                && u.slug + u.ext in container.files && container.files[u.slug + u.ext].File?
                && container.files[u.slug + u.ext].content == r.source
                && container.files - {u.slug + u.ext} == old(container.files) - {u.slug + u.ext}
      ensures forall k | 0 <= k < 5 && FreeDraw(old(container.rows), turns, k) && k + 3 < |turns| ::
                out.Accepted? && reply.None? && turns[k + 2].c.ok && turns[k + 3].c.ok ==>
                  container.rows == old(container.rows) && container.files == old(container.files)
    {
      hide Verdict, RunAlone, StepThread;
      ghost var req := Asked(h, r.source);
      ghost var job := Job(None, req);
      ghost var was := container.Value();
      reply := None;
      out, at, pre := StreamToPartial(container, env, h, r, None);
      assert pre + [] == pre;
      if !out.Accepted? { return; }
      AloneThen(was, Some(Create(job)), pre, turns, 0);
      reply := Publish(Upload(ANY_SLUG, h.ext, h.filename, h.contentType, out.size, at, out.ttl), req, env.name, turns);
    }

    /** The second half of an upload: insert, rename, and undo both if the rename fails. */
    method Publish(row: Upload, ghost req: Request, p: string, turns: seq<Turn>) returns (reply: Option<Upload>)
      requires row == RowFor(row.slug, req, row.uploadedAt)
      modifies container
      ensures container.Value()
              == RunAlone(old(container.Value()), Some(Commit(Job(None, req), p, row.uploadedAt, 0)), turns, 0).store
      ensures reply.Some? <==>
                exists k :: 0 <= k < 5 && FreeDraw(old(container.rows), turns, k)
                  && k + 1 < |turns| && turns[k + 1].c.ok
                  && p in old(container.files)
                  && !(turns[k].c.slug + row.ext in old(container.files)
                       && old(container.files)[turns[k].c.slug + row.ext].Dir?)
      ensures reply.Some? ==>
                var u := reply.value;
                && u == row.(slug := u.slug) && u.slug !in old(container.rows)
                && container.rows == old(container.rows)[u.slug := u]
                && p in old(container.files)
                && container.files == (old(container.files) - {p})[u.slug + u.ext := old(container.files)[p]]
      ensures forall k | 0 <= k < 5 && FreeDraw(old(container.rows), turns, k) && k + 3 < |turns| ::
                reply.None? && turns[k + 2].c.ok && turns[k + 3].c.ok ==>
                  container.rows == old(container.rows) && container.files == old(container.files) - {p}
    {
      ghost var job := Job(None, req);
      ghost var goal := RunAlone(container.Value(), Some(Commit(job, p, row.uploadedAt, 0)), turns, 0);
      reply := None;
      var u, failed, i := InsertWithRetry(row, req, p, turns);
      if u.None? {
        if failed {
          i := DropScratch(p, None, turns, i);
        }
        return;
      }
      if i == |turns| { return; }
      var to := DiskName(u.value);
      var r := container.RenameFile(p, to, turns[i].c.ok);
      i := i + 1;
      if r != Done {
        assert goal == RunAlone(container.Value(), Some(Rollback(job, p, u.value)), turns, i);
        Withdraw(u.value, job, p, turns, i);
        return;
      }
      assert goal == RunAlone(container.Value(), None, turns, i);
      reply := u;
    }

    /** What an upload whose rename failed takes back: its row, then its scratch file. */
    method Withdraw(u: Upload, ghost job: Job, p: string, turns: seq<Turn>, start: nat)
      requires start <= |turns|
      modifies container
      ensures container.Value() == RunAlone(old(container.Value()), Some(Rollback(job, p, u)), turns, start).store
      ensures container.rows == if start < |turns| && turns[start].c.ok then old(container.rows) - {u.slug}
                                else old(container.rows)
      ensures container.files == if start + 1 < |turns| && turns[start + 1].c.ok then old(container.files) - {p}
                                 else old(container.files)
    {
      if start == |turns| { return; }
      var r := container.DeleteBySlug(u.slug, turns[start].c.ok);
      var _ := DropScratch(p, if turns[start].c.ok then None else Some(u), turns, start + 1);
    }

    /** PUT /api/files/{slug}: `turns[0]` is the lookup, `pre` the streaming. A reply means the
        new row and the whole new body are in place, no other row or name changed, and the
        old file is gone if its extension differed and its removal went through. */
    method HandleReplace(slug: string, h: Header, r: CappedBody, env: Conditions, turns: seq<Turn>)
      returns (reply: Option<Upload>, out: Outcome, at: int, ghost pre: seq<Turn>)
      requires RowsOk(container.rows)
      requires r.Valid() && r.pos == 0 && r.sticky == None
      modifies container, r
      ensures turns != [] ==>
                container.Value()
                == RunAlone(old(container.Value()), Some(Find(slug, ToReplace(Asked(h, r.source)))),
                            [turns[0]] + pre + (if out.Accepted? then turns[1..] else []), 0).store
      ensures turns != [] && ValidSlug(slug) && turns[0].c.ok
              && GetBySlug(old(container.rows), slug, turns[0].now).Some? ==>
                var u := GetBySlug(old(container.rows), slug, turns[0].now);
                StreamsTo(old(container.Value()), Job(u, Asked(h, r.source)), env.name, out, at, pre)
      ensures if !ValidSlug(slug) then out == Rejected(400)
              else if turns == [] then out == Died
              else if !turns[0].c.ok then out == Rejected(500)
              else if !(slug in old(container.rows) && turns[0].now < old(container.rows)[slug].uploadedAt
                                                                        + old(container.rows)[slug].ttl)
              then out == Rejected(404)
              else && (env.lives ==> !out.Died?)
                   && (DiskOk(env) && env.name !in old(container.files) && !out.Died? ==>
                         && out == Verdict(h.ttl, r.source, r.end, r.cap)
                         && (h.ttl.Some? && r.end == EOF && 1 <= |r.source| <= r.cap ==>
                               out == Accepted(|r.source|, h.ttl.value))
                         && (out == Rejected(413) <==> h.ttl.Some? && |r.source| > r.cap)
                         && (h.ttl.None? || r.source == [] ==> out == Rejected(400)))
      ensures reply.Some? <==>
                && out.Accepted? && |turns| >= 3 && turns[1].c.ok && turns[2].c.ok
                && !(slug + h.ext in old(container.files) && old(container.files)[slug + h.ext].Dir?)
                && (h.ext != old(container.rows)[slug].ext ==> |turns| >= 4)
      ensures out.Rejected? ==> container.rows == old(container.rows)
      ensures out.Rejected? && env.removeOk ==> container.files == old(container.files)
      ensures reply.Some? ==>
                var u := reply.value;
                var was := old(container.rows)[slug];
                var gone := if h.ext != was.ext && turns[3].c.ok then {slug + was.ext} else {};
                && h.ttl == Some(u.ttl) && u.ext == h.ext && u.filename == h.filename && u.contentType == h.contentType
                && u.slug == slug && u.size == |r.source| && 1 <= u.size <= r.cap
                && pre != [] && u.uploadedAt == at == pre[|pre| - 1].now >= env.now
                && container.rows == old(container.rows)[slug := u]
                && u.slug + u.ext in container.files && container.files[u.slug + u.ext].File?
                && container.files[u.slug + u.ext].content == r.source
                && container.files == (old(container.files) - gone)[u.slug + u.ext := container.files[u.slug + u.ext]]
    {
      hide Verdict, ValidSlug, SaneExt, RunAlone, StepThread;
      ghost var req := Asked(h, r.source);
      ghost var was := container.Value();
      reply, out, at, pre := None, Died, 0, [];
      if !ValidSlug(slug) {
        if turns != [] {
          ReplaceMisses(was, slug, req, turns[0]);
        }
        return reply, Rejected(400), at, pre;
      }
      if turns == [] { return; }
      var u, s := container.Get(slug, turns[0].now, turns[0].c.ok);
      if s != Done || u.None? {
        ReplaceMisses(was, slug, req, turns[0]);
        return reply, Rejected(if s != Done then 500 else 404), at, pre;
      }
      out, at, pre := StreamToPartial(container, env, h, r, u);
      ReplaceTurns(was, slug, req, turns[0], pre, if out.Accepted? then turns[1..] else []);
      if !out.Accepted? { return; }
      var updated := Upload(slug, h.ext, h.filename, h.contentType, out.size, at, out.ttl);
      reply := Overwrite(u.value, updated, req, env.name, turns[1..]);
    }

    /** After the body of a replace is in its scratch file: UPDATE, then swap the files. */
    method Overwrite(before: Upload, updated: Upload, ghost req: Request, p: string, turns: seq<Turn>)
      returns (reply: Option<Upload>)
      requires updated == RowFor(before.slug, req, updated.uploadedAt)
      modifies container
      ensures container.Value()
              == RunAlone(old(container.Value()), Some(Commit(Job(Some(before), req), p, updated.uploadedAt, 0)),
                          turns, 0).store
      ensures container.rows == if turns != [] && turns[0].c.ok && before.slug in old(container.rows)
                                then old(container.rows)[before.slug := updated] else old(container.rows)
      ensures reply == if turns != [] && turns[0].c.ok && before.slug in old(container.rows)
                          && Swaps(old(container.files), before, updated, p, turns, 1)
                       then Some(updated) else None
      ensures reply.Some? ==>
                container.files == Swapped(old(container.files), before, updated, p, turns, 1)
    {
      reply := None;
      if turns == [] { return; }
      ghost var job := Job(Some(before), req);
      var r := container.ReplaceContent(updated, turns[0].c.ok);
      if r != Done {
        var _ := DropScratch(p, None, turns, 1);
        return;
      }
      reply := SwapIn(before, updated, job, p, turns, 1);
    }

    /** The second half of a replace: rename, then remove the old file if its name differs. */
    method SwapIn(before: Upload, updated: Upload, ghost job: Job, p: string, turns: seq<Turn>, start: nat)
      returns (reply: Option<Upload>)
      requires start <= |turns| && job.prev == Some(before) && before.slug == updated.slug
      modifies container`files
      ensures container.rows == old(container.rows)
      ensures container.Value() == RunAlone(old(container.Value()), Some(Promote(job, p, updated)), turns, start).store
      ensures reply == if Swaps(old(container.files), before, updated, p, turns, start) then Some(updated) else None
      ensures reply.Some? ==> container.files == Swapped(old(container.files), before, updated, p, turns, start)
    {
      ghost var goal := RunAlone(container.Value(), Some(Promote(job, p, updated)), turns, start);
      reply := None;
      var i := start;
      if i == |turns| { return; }
      var r := container.RenameFile(p, DiskName(updated), turns[i].c.ok);
      i := i + 1;
      if r != Done {
        Idle(container.Value(), Abandoned(map[updated.slug := Swapping(before, updated)]), turns, i);
        return;
      }
      if updated.ext != before.ext {
        assert goal == RunAlone(container.Value(), Some(Clean(before, updated)), turns, i);
        if i == |turns| { return; }
        SameSlugSameName(before, updated);
        r := container.RemoveFile(DiskName(before), turns[i].c.ok);
        i := i + 1;
        if r != Done {
          Idle(container.Value(), Abandoned(map[updated.slug := Trailing(before, updated)]), turns, i);
        } else {
          assert goal == RunAlone(container.Value(), None, turns, i);
        }
      } else {
        assert goal == RunAlone(container.Value(), None, turns, i);
      }
      reply := Some(updated);
    }
  }
}
