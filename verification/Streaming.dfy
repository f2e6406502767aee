/** The body path: a size-capped body read in whatever chunks the network delivers, a sniffed
    prefix put back in front of the rest, and the copy to a scratch file, which is what the
    streaming threads of the protocol do. */
module BodyStream {
  import opened Common
  import opened Names
  import opened Table
  import opened Machine
  import opened Containers
  import opened Settings
  import Filename
  import Ttl

  datatype ReadError = EOF | UnexpectedEOF | TooLarge | Broken

  /** http.MaxBytesReader over the request body. `source` is what the client sends and `end`
      how the transport ends after it. The error, once seen, is seen again by every later read. */
  class CappedBody {
    const source: Bytes
    const end: ReadError
    const cap: nat
    var pos: nat
    var left: nat
    var sticky: Option<ReadError>

    constructor (source: Bytes, end: ReadError, cap: nat)
      requires end != TooLarge
      ensures this.source == source && this.end == end && this.cap == cap
      ensures Valid() && pos == 0 && sticky == None
    {
      this.source, this.end, this.cap := source, end, cap;
      pos, left, sticky := 0, cap, None;
    }

    /** Delivered bytes are a prefix of the source within the cap. An error other than
        TooLarge means all of the source is delivered; TooLarge means the cap is used up and
        there is more. */
    predicate Valid()
      reads this
    {
      && end != TooLarge && pos <= |source| && pos + left == cap
      && match sticky
         case None => true
         case Some(TooLarge) => left == 0 && |source| > cap
         case Some(e) => pos == |source| && e == end
    }

    /** One read of up to `want` bytes. The transport delivers any non-empty part of what is
        left, and may report the end together with the last bytes or in a read of its own. */
    method Read(want: nat) returns (chunk: Bytes, err: Option<ReadError>)
      requires Valid() && want > 0
      modifies this
      ensures Valid() && pos == old(pos) + |chunk| && |chunk| <= want
      ensures chunk == source[old(pos)..pos]
      ensures err == sticky && (old(sticky).Some? ==> chunk == [] && err == old(sticky))
      ensures chunk == [] ==> err.Some?
    {
      if sticky.Some? { return [], sticky; }
      // One byte more than the cap leaves is enough to tell whether the body goes past it.
      var ask := if want - 1 > left then left + 1 else want;
      var most := if |source| - pos < ask then |source| - pos else ask;
      var n := 0;
      if most > 0 {
        n :| 1 <= n <= most;
      }
      var endsHere: bool := *;
      if n > left {
        chunk := source[pos..pos + left];
        pos, left := pos + left, 0;
        sticky := Some(TooLarge);
      } else {
        chunk := source[pos..pos + n];
        pos, left := pos + n, left - n;
        if pos == |source| && (endsHere || n == 0) {
          sticky := Some(end);
        }
      }
      err := sticky;
    }
  }

  const SNIFF := 512

  /** io.ReadFull into the sniff buffer: up to 512 bytes, and no error if it filled it. */
  method ReadFull(r: CappedBody) returns (buf: Bytes, err: Option<ReadError>)
    requires r.Valid() && r.pos == 0 && r.sticky == None
    modifies r
    ensures r.Valid() && r.pos == |buf| <= SNIFF && buf == r.source[..r.pos]
    ensures |buf| == SNIFF ==> err == None
    ensures |buf| < SNIFF ==>
              r.sticky.Some?
              && err == (if r.sticky == Some(EOF) && buf != [] then Some(UnexpectedEOF) else r.sticky)
  {
    buf, err := [], None;
    while |buf| < SNIFF && err.None?
      invariant r.Valid() && r.pos == |buf| <= SNIFF && buf == r.source[..r.pos] && err == r.sticky
      decreases SNIFF - |buf|, if err.None? then 1 else 0
    {
      var chunk;
      chunk, err := r.Read(SNIFF - |buf|);
      buf := buf + chunk;
    }
    if |buf| == SNIFF { return buf, None; }
    if err == Some(EOF) && buf != [] { err := Some(UnexpectedEOF); }
  }

  // ---- The copy to disk ------------------------------------------------------------

  /** What the environment gives one request: the scratch name drawn, the time, which calls
      on the scratch file succeed, and whether the process lives through it. */
  datatype Conditions = Conditions(name: Scratch, now: int, createOk: bool, writeOk: bool, closeOk: bool,
                                   removeOk: bool, lives: bool)

  predicate DiskOk(env: Conditions) {
    env.createOk && env.writeOk && env.closeOk
  }

  /** A turn of a streaming thread. */
  function Call(now: int, ok: bool, name: Scratch, chunk: nat): Turn {
    Turn(now, Choice(ok, false, ANY_SLUG, name, chunk, ""))
  }

  /** One more turn, of a thread still running. */
  lemma Advance(was: Store, job: Job, turns: seq<Turn>, t: Turn, st: Store, th: Thread)
    requires RunAlone(was, Some(Create(job)), turns, 0) == Next(st, Some(th))
    ensures RunAlone(was, Some(Create(job)), turns + [t], 0) == StepThread(st, th, t.now, t.c)
  {
    OneMoreTurn(was, Some(Create(job)), turns, t);
  }

  /** The thread has written the first `n` bytes. */
  ghost predicate Written(was: Store, st: Store, job: Job, name: string, n: nat, turns: seq<Turn>) {
    && n <= |job.req.body|
    && RunAlone(was, Some(Create(job)), turns, 0) == Next(st, Some(Streaming(job, name, n)))
  }

  lemma WriteTurn(was: Store, st: Store, job: Job, name: Scratch, n: nat, turns: seq<Turn>, k: nat, now: int)
    requires Written(was, st, job, name, n, turns) && 0 < k && n + k <= |job.req.body|
    ensures Written(was, st.(files := st.files[name := File(job.req.body[..n + k], now)]), job, name, n + k,
                    turns + [Call(now, true, name, k - 1)])
  {
    Advance(was, job, turns, Call(now, true, name, k - 1), st, Streaming(job, name, n));
  }

  /** One write, as the thread's next turn. Nothing is written for an empty read. */
  method WriteChunk(c: Container, p: Scratch, chunk: Bytes, now: int, ghost was: Store, ghost job: Job,
                    ghost n: nat, ghost before: seq<Turn>)
    returns (ghost turns: seq<Turn>)
    requires Written(was, c.Value(), job, p, n, before) && n + |chunk| <= |job.req.body|
    requires chunk == job.req.body[n..n + |chunk|]
    requires IsFile(c.files, p) && c.files[p].content == job.req.body[..n]
    modifies c`files
    ensures Written(was, c.Value(), job, p, n + |chunk|, turns)
    ensures IsFile(c.files, p) && c.files[p].content == job.req.body[..n + |chunk|]
    ensures c.files - {p} == old(c.files) - {p}
  {
    turns := before;
    if chunk != [] {
      WriteTurn(was, c.Value(), job, p, n, before, |chunk|, now);
      assert job.req.body[..n] + chunk == job.req.body[..n + |chunk|];
      c.Append(p, chunk, now);
      turns := before + [Call(now, true, p, |chunk| - 1)];
    }
  }

  /** The copy fails: the scratch file is removed, or that fails too. */
  lemma FailTurns(was: Store, st: Store, job: Job, name: Scratch, n: nat, turns: seq<Turn>, now: int, ok: bool)
    requires Written(was, st, job, name, n, turns)
    ensures RunAlone(was, Some(Create(job)), turns + [Call(now, false, name, 0)], 0)
            == Next(st, Some(Discard(name, None)))
    ensures RunAlone(was, Some(Create(job)), turns + [Call(now, false, name, 0)] + [Call(now, ok, name, 0)], 0)
            == Next(if ok then st.(files := st.files - {name}) else st, None)
  {
    var fail := Call(now, false, name, 0);
    Advance(was, job, turns, fail, st, Streaming(job, name, n));
    Advance(was, job, turns + [fail], Call(now, ok, name, 0), st, Discard(name, None));
  }

  /** io.Copy to the scratch file: the prefix, then reads until one ends it. `err` is how the
      body ended, none if the process died first. */
  method CopyBody(c: Container, env: Conditions, prefix: Bytes, r: CappedBody,
                  ghost was: Store, ghost job: Job, ghost before: seq<Turn>)
    returns (n: nat, at: int, err: Option<ReadError>, ghost turns: seq<Turn>)
    requires r.Valid() && prefix == r.source[..r.pos] && job.req.body == r.source
    requires Written(was, c.Value(), job, env.name, 0, before)
    requires IsFile(c.files, env.name) && c.files[env.name].content == []
    modifies c`files, r
    ensures r.Valid() && at >= env.now && n <= r.pos && (env.lives ==> err.Some?)
    ensures err.Some? ==> err == r.sticky && n == r.pos
    ensures IsFile(c.files, env.name) && c.files[env.name].content == r.source[..n]
    ensures c.files - {env.name} == old(c.files) - {env.name}
    ensures Written(was, c.Value(), job, env.name, n, turns)
  {
    n, at, err, turns := 0, env.now, None, before;
    var chunk := prefix;
    hide Written;
    while true
      invariant r.Valid() && r.pos == n + |chunk| && chunk == r.source[n..r.pos] && at >= env.now
      invariant err.Some? ==> err == r.sticky
      invariant IsFile(c.files, env.name) && c.files[env.name].content == r.source[..n]
      invariant c.files - {env.name} == old(c.files) - {env.name}
      invariant Written(was, c.Value(), job, env.name, n, turns)
      decreases |r.source| - r.pos, if err.None? then 1 else 0
    {
      var dies: bool := *;
      if !env.lives && dies { return n, at, None, turns; }
      turns := WriteChunk(c, env.name, chunk, at, was, job, n, turns);
      n := n + |chunk|;
      if err.Some? { return; }
      var clock: int := *;
      if clock > at { at := clock; }
      chunk, err := r.Read(32768);
    }
  }

  datatype Copy = Copied | Broke(err: ReadError) | Dead

  /** Where the thread stands once the copy is over one way or the other. */
  ghost predicate CopyIs(was: Store, st: Store, job: Job, name: string, copy: Copy, at: int, turns: seq<Turn>) {
    var n := RunAlone(was, Some(Create(job)), turns, 0);
    match copy
    case Copied => n == Next(st, Some(Commit(job, name, at, 0)))
    case Broke(_) => n == Next(st, None)
    case Dead => n.store == st
  }

  lemma CreateTurn(was: Store, job: Job, name: Scratch, now: int, ok: bool)
    ensures RunAlone(was, Some(Create(job)), [Call(now, ok, name, 0)], 0)
            == if ok && name !in was.files
               then Next(was.(files := was.files[name := File([], now)]), Some(Streaming(job, name, 0)))
               else Next(was, None)
  {
    assert [] + [Call(now, ok, name, 0)] == [Call(now, ok, name, 0)];
    OneMoreTurn(was, Some(Create(job)), [], Call(now, ok, name, 0));
  }

  /** WriteFile fed by the sniffed prefix followed by the rest of the body (io.MultiReader):
      the streaming thread of the protocol, however the body arrives. A failed copy is
      removed again unless that fails too. */
  method WriteFile(c: Container, env: Conditions, prefix: Bytes, r: CappedBody, ghost job: Job)
    returns (copy: Copy, n: nat, at: int, ghost turns: seq<Turn>)
    requires r.Valid() && prefix == r.source[..r.pos] && job.req.body == r.source
    modifies c`files, r
    ensures r.Valid() && (env.lives ==> !copy.Dead?)
    ensures CopyIs(old(c.Value()), c.Value(), job, env.name, copy, at, turns)
    ensures copy.Copied? ==> turns != [] && turns[|turns| - 1].now == at
    ensures copy.Copied? ==>
              && DiskOk(env) && env.name !in old(c.files)
              && r.end == EOF && |r.source| <= r.cap && n == |r.source| && at >= env.now
              && IsFile(c.files, env.name) && c.files[env.name].content == r.source
              && c.files - {env.name} == old(c.files)
    ensures copy.Broke? && env.removeOk ==> c.files == old(c.files)
    ensures copy.Broke? && DiskOk(env) && env.name !in old(c.files) ==>
              copy.err == (if |r.source| > r.cap then TooLarge else r.end) && copy.err != EOF
  {
    ghost var was := c.Value();
    n, at, turns := 0, env.now, [];
    var dies: bool := *;
    if !env.lives && dies { return Dead, n, at, turns; }
    CreateTurn(was, job, env.name, env.now, env.createOk);
    turns := [Call(env.now, env.createOk, env.name, 0)];
    var created := c.CreateFile(env.name, env.now, env.createOk);
    if !created { return Broke(Broken), n, at, turns; }
    assert Written(was, c.Value(), job, env.name, 0, turns);
    assert c.files - {env.name} == was.files;
    var err;
    n, at, err, turns := CopyBody(c, env, prefix, r, was, job, turns);
    hide RunAlone;
    if err.None? { return Dead, n, at, turns; }
    assert r.source[..|r.source|] == r.source;
    if err == Some(EOF) && env.writeOk && env.closeOk {
      Advance(was, job, turns, Call(at, true, env.name, 0), c.Value(), Streaming(job, env.name, n));
      turns := turns + [Call(at, true, env.name, 0)];
      return Copied, n, at, turns;
    }
    FailTurns(was, c.Value(), job, env.name, n, turns, at, env.removeOk);
    turns := turns + [Call(at, false, env.name, 0)];
    dies := *;
    if !env.lives && dies { return Dead, n, at, turns; }
    var _ := c.RemoveFile(env.name, env.removeOk);
    turns := turns + [Call(at, env.removeOk, env.name, 0)];
    return Broke(if err != Some(EOF) then err.value else Broken), n, at, turns;
  }

  // ---- The request as a whole ------------------------------------------------------

  /** What the headers say; no TTL if it is malformed or out of range. */
  datatype Header = Header(ttl: Option<int>, ext: string, filename: Bytes, contentType: string)

  /** The headers of an upload or replace. `base` and `ext` are the last element of the
      X-KShare-Filename path and its extension, `sniffed` the type of the body's first bytes. */
  method ParseHeaders(frac: Ttl.Rounding, cfg: Config, ttlHeader: string, base: Bytes, ext: string, sniffed: string)
    returns (h: Header)
    ensures h.ttl == RequestTTL(frac, cfg, ttlHeader)
    ensures ttlHeader == "" && cfg.minTTL <= cfg.defaultTTL <= cfg.maxTTL ==> h.ttl == Some(cfg.defaultTTL)
    ensures ttlHeader != "" ==>
              forall d: int :: h.ttl == Some(d)
                <==> Ttl.ParseTTL(frac, ttlHeader) == Ttl.Ok(d) && cfg.minTTL <= d <= cfg.maxTTL
    ensures SaneExt(ext) ==> h.ext == ext
    ensures !SaneExt(ext) ==> h.ext == ""
    ensures h.filename == Filename.Sanitise(base) && h.contentType == sniffed
  {
    hide Ttl.ParseTTL, Filename.Sanitise;
    var ttl := cfg.defaultTTL;
    var good := true;
    if ttlHeader != "" {
      var parsed := Ttl.ParseTTL(frac, ttlHeader);
      good := parsed.Ok?;
      if good {
        ttl := parsed.ns;
      }
    }
    var filename := Filename.SanitiseOriginalFilename(base);
    return Header(if good && cfg.minTTL <= ttl <= cfg.maxTTL then Some(ttl) else None, SanitiseExt(ext), filename,
                  sniffed);
  }

  /** The request as the protocol sees it. */
  function Asked(h: Header, body: Bytes): Request {
    Request(body, h.ext, h.filename, h.contentType, if h.ttl.Some? then h.ttl.value else 0)
  }

  datatype Outcome = Accepted(size: nat, ttl: int) | Rejected(status: int) | Died

  /** What the request deserves, given that the disk does not fail: a matter of its header
      and of the whole body alone, however the body was cut up on the way. */
  function Verdict(ttl: Option<int>, source: Bytes, end: ReadError, cap: nat): Outcome {
    if ttl.None? then Rejected(400)
    else if |source| > cap then Rejected(413)
    else if source == [] then Rejected(400)
    else if end == EOF then Accepted(|source|, ttl.value)
    else if end != UnexpectedEOF && |source| < SNIFF then Rejected(400)
    else Rejected(500)
  }

  /** Where the thread stands once the request is accepted, rejected or cut short. */
  ghost predicate Streamed(was: Store, st: Store, job: Job, name: string, out: Outcome, at: int, turns: seq<Turn>) {
    var n := RunAlone(was, Some(Create(job)), turns, 0);
    match out
    case Accepted(_, _) => n == Next(st, Some(Commit(job, name, at, 0)))
    case Rejected(_) => n == Next(st, None)
    case Died => n.store == st
  }

  /** Cap, parse, sniff, stream. A request whose TTL is good and whose whole body arrives within
      the cap is accepted, however short; a body over the cap is too large; no TTL or no body
      is the client's fault. On success the scratch file is the request body, byte for
      byte, under a name that was free; on any failure the directory is as before. A body cut
      short in transit is never accepted, although the sniff lets a short read through: the
      capped reader reports its end again. */
  method StreamToPartial(c: Container, env: Conditions, h: Header, r: CappedBody, ghost prev: Option<Upload>)
    returns (out: Outcome, at: int, ghost turns: seq<Turn>)
    requires r.Valid() && r.pos == 0 && r.sticky == None
    modifies c`files, r
    ensures env.lives ==> !out.Died?
    ensures Streamed(old(c.Value()), c.Value(), Job(prev, Asked(h, r.source)), env.name, out, at, turns)
    ensures out.Accepted? ==> turns != [] && turns[|turns| - 1].now == at
    ensures out.Accepted? ==>
              && h.ttl == Some(out.ttl) && r.end == EOF && at >= env.now
              && env.name !in old(c.files) && c.files - {env.name} == old(c.files)
              && IsFile(c.files, env.name) && c.files[env.name].content == r.source
              && out.size == |r.source| && 1 <= out.size <= r.cap
    ensures out.Rejected? && env.removeOk ==> c.files == old(c.files)
    ensures DiskOk(env) && env.name !in old(c.files) && !out.Died? ==>
              out == Verdict(h.ttl, r.source, r.end, r.cap)
    ensures env.createOk && env.writeOk && env.closeOk && env.name !in old(c.files) && !out.Died? ==>
              && (h.ttl.Some? && r.end == EOF && 1 <= |r.source| <= r.cap ==> out == Accepted(|r.source|, h.ttl.value))
              && (out == Rejected(413) <==> h.ttl.Some? && |r.source| > r.cap)
              && (h.ttl.None? || r.source == [] ==> out == Rejected(400))
              && (h.ttl.Some? && 1 <= |r.source| <= r.cap && r.end == UnexpectedEOF ==> out == Rejected(500))
              && (h.ttl.Some? && 1 <= |r.source| <= r.cap && r.end == Broken ==>
                    out == Rejected(if |r.source| < 512 then 400 else 500))
  {
    ghost var job := Job(prev, Asked(h, r.source));
    // A refused request creates no file.
    at, turns := env.now, [Call(env.now, false, env.name, 0)];
    if h.ttl.None? { return Rejected(400), at, turns; }
    var sniffed, err := ReadFull(r);
    if err.Some? && err != Some(EOF) && err != Some(UnexpectedEOF) {
      return Rejected(if err == Some(TooLarge) then 413 else 400), at, turns;
    }
    if |sniffed| == 0 { return Rejected(400), at, turns; }
    var copy, size;
    copy, size, at, turns := WriteFile(c, env, sniffed, r, job);
    match copy
    case Dead => return Died, at, turns;
    case Broke(e) => return Rejected(if e == TooLarge then 413 else 500), at, turns;
    case Copied => return Accepted(size, h.ttl.value), at, turns;
  }
}
