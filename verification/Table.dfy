/** The two halves of the store as values: the upload table and the files/ directory. */
module Table {
  import opened Common
  import opened Names

  /** One row. Times and durations are nanoseconds. */
  datatype Upload = Upload(slug: string, ext: string, filename: Bytes, contentType: string,
                           size: int, uploadedAt: int, ttl: int)

  function DiskName(u: Upload): string {
    u.slug + u.ext
  }

  function ExpiresAt(u: Upload): int {
    u.uploadedAt + u.ttl
  }

  /** The row predicate of the read queries. */
  predicate Visible(u: Upload, now: int) {
    ExpiresAt(u) > now
  }

  /** The row predicate of the sweeper's query. */
  predicate Expired(u: Upload, now: int) {
    ExpiresAt(u) <= now
  }

  /** slug is the primary key, so the table is a map. */
  type Rows = map<string, Upload>

  datatype Entry = Dir | File(content: Bytes, mtime: int)

  type Files = map<string, Entry>

  datatype Store = Store(rows: Rows, files: Files)

  function VisibleRows(rows: Rows, now: int): Rows {
    map s | s in rows && Visible(rows[s], now) :: rows[s]
  }

  function ExpiredRows(rows: Rows, now: int): Rows {
    map s | s in rows && Expired(rows[s], now) :: rows[s]
  }

  predicate UploadOk(u: Upload) {
    ValidSlug(u.slug) && SaneExt(u.ext)
  }

  /** Every row is keyed by its own slug, and its two name parts passed their checks. */
  predicate RowsOk(rows: Rows) {
    forall s | s in rows :: rows[s].slug == s && UploadOk(rows[s])
  }

  predicate Keyed(rows: Rows) {
    forall s | s in rows :: rows[s].slug == s
  }

  predicate IsFile(files: Files, n: string) {
    n in files && files[n].File?
  }

  lemma DiskNameBelongs(u: Upload, slug: string)
    requires UploadOk(u)
    ensures Belongs(DiskName(u), slug) <==> slug == u.slug
    ensures !IsScratch(DiskName(u))
  {
    var d := DiskName(u);
    assert d[..8] == u.slug && d[8..] == u.ext;
    if IsScratch(d) {
      ScratchBelongsToNone(d, u.slug);
    }
  }

  lemma SameSlugSameName(u: Upload, v: Upload)
    requires u.slug == v.slug
    ensures DiskName(u) == DiskName(v) <==> u.ext == v.ext
  {
    var n := |u.slug|;
    assert DiskName(u)[n..] == u.ext && DiskName(v)[n..] == v.ext;
  }
}
