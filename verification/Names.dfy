/** The three kinds of name that meet in the files/ directory: the slug that a row is
    keyed by, the extension an uploader supplies, and the scratch name of a body that is
    still being streamed. */
module Names {
  import opened Common

  // ---- Slugs -----------------------------------------------------------------------

  /** The URL-safe base64 alphabet (section 5 of RFC 4648). */
  predicate IsSlugChar(c: char) {
    'A' <= c <= 'Z' || 'a' <= c <= 'z' || '0' <= c <= '9' || c == '-' || c == '_'
  }

  /** The pattern every component validates a slug against. */
  predicate ValidSlug(s: string) {
    |s| == 8 && forall i | 0 <= i < |s| :: IsSlugChar(s[i])
  }

  /** A slug as the generator draws it; SlugBijection shows the draws are all of these. */
  type Slug = s: string | ValidSlug(s) witness "AAAAAAAA"

  function Sextet(v: int): (c: char)
    requires 0 <= v < 64
    ensures IsSlugChar(c) && SextetValue(c) == v
  {
    if v < 26 then 'A' + v as char
    else if v < 52 then 'a' + (v - 26) as char
    else if v < 62 then '0' + (v - 52) as char
    else if v == 62 then '-' else '_'
  }

  function SextetValue(c: char): (v: int)
    requires IsSlugChar(c)
    ensures 0 <= v < 64
  {
    if 'A' <= c <= 'Z' then c as int - 'A' as int
    else if 'a' <= c <= 'z' then c as int - 'a' as int + 26
    else if '0' <= c <= '9' then c as int - '0' as int + 52
    else if c == '-' then 62 else 63
  }

  function EncodeTriple(x: Byte, y: Byte, z: Byte): (s: string)
    ensures |s| == 4 && forall i | 0 <= i < 4 :: IsSlugChar(s[i])
  {
    [Sextet(x / 4), Sextet(x % 4 * 16 + y / 16), Sextet(y % 16 * 4 + z / 64), Sextet(z % 64)]
  }

  function DecodeQuad(s: string): (b: Bytes)
    requires |s| == 4 && forall i | 0 <= i < 4 :: IsSlugChar(s[i])
    ensures |b| == 3
  {
    var p, q, r, t := SextetValue(s[0]), SextetValue(s[1]), SextetValue(s[2]), SextetValue(s[3]);
    [p * 4 + q / 16, q % 16 * 16 + r / 4, r % 4 * 64 + t]
  }

  /** Six random bytes: what a slug is drawn from. */
  type Seed = b: Bytes | |b| == 6 witness [0, 0, 0, 0, 0, 0]

  /** Unpadded base64url of the six bytes. */
  function EncodeSlug(b: Seed): (s: string)
    ensures ValidSlug(s)
  {
    var lo, hi := EncodeTriple(b[0], b[1], b[2]), EncodeTriple(b[3], b[4], b[5]);
    lo + hi
  }

  function DecodeSlug(s: string): Seed
    requires ValidSlug(s)
  {
    DecodeQuad(s[..4]) + DecodeQuad(s[4..])
  }

  lemma TripleRoundTrip(x: Byte, y: Byte, z: Byte)
    ensures DecodeQuad(EncodeTriple(x, y, z)) == [x, y, z]
  {
    var p, q, r, t := x / 4, x % 4 * 16 + y / 16, y % 16 * 4 + z / 64, z % 64;
    assert q / 16 == x % 4 && q % 16 == y / 16;
    assert r / 4 == y % 16 && r % 4 == z / 64;
  }

  lemma SextetInverse(c: char)
    requires IsSlugChar(c)
    ensures Sextet(SextetValue(c)) == c
  {
  }

  lemma QuadRoundTrip(s: string)
    requires |s| == 4 && forall i | 0 <= i < 4 :: IsSlugChar(s[i])
    ensures var b := DecodeQuad(s); EncodeTriple(b[0], b[1], b[2]) == s
  {
    var p, q, r, t := SextetValue(s[0]), SextetValue(s[1]), SextetValue(s[2]), SextetValue(s[3]);
    var b := DecodeQuad(s);
    assert b[0] / 4 == p && b[0] % 4 == q / 16;
    assert b[1] / 16 == q % 16 && b[1] % 16 == r / 4;
    assert b[2] / 64 == r % 4 && b[2] % 64 == t;
    SextetInverse(s[0]);
    SextetInverse(s[1]);
    SextetInverse(s[2]);
    SextetInverse(s[3]);
  }

  lemma DecodeConcat(lo: string, hi: string)
    requires |lo| == 4 && |hi| == 4 && ValidSlug(lo + hi)
    requires forall i | 0 <= i < 4 :: IsSlugChar(lo[i]) && IsSlugChar(hi[i])
    ensures DecodeSlug(lo + hi) == DecodeQuad(lo) + DecodeQuad(hi)
  {
    assert (lo + hi)[..4] == lo && (lo + hi)[4..] == hi;
  }

  lemma DecodeEncode(b: Seed)
    ensures DecodeSlug(EncodeSlug(b)) == b
  {
    hide EncodeTriple, DecodeQuad, DecodeSlug, IsSlugChar;
    var lo, hi := EncodeTriple(b[0], b[1], b[2]), EncodeTriple(b[3], b[4], b[5]);
    TripleRoundTrip(b[0], b[1], b[2]);
    TripleRoundTrip(b[3], b[4], b[5]);
    assert EncodeSlug(b) == lo + hi;
    DecodeConcat(lo, hi);
    assert DecodeQuad(lo) + DecodeQuad(hi) == b;
  }

  lemma EncodeDecode(s: string)
    requires ValidSlug(s)
    ensures EncodeSlug(DecodeSlug(s)) == s
  {
    QuadRoundTrip(s[..4]);
    QuadRoundTrip(s[4..]);
    assert s == s[..4] + s[4..];
  }

  /** Generator and validator agree exactly: the drawn slugs are all and only the strings of
      the validated shape, each from one seed. */
  lemma SlugBijection(b: Seed, s: string)
    ensures ValidSlug(EncodeSlug(b)) && DecodeSlug(EncodeSlug(b)) == b
    ensures ValidSlug(s) ==> EncodeSlug(DecodeSlug(s)) == s
  {
    DecodeEncode(b);
    if ValidSlug(s) {
      EncodeDecode(s);
    }
  }

  lemma Uppers(c: char)
    ensures 'A' <= c <= 'Z' <==> c in "ABCDEFGHIJKLMNOPQRSTUVWXYZ"
  {
  }

  lemma Lowers(c: char)
    ensures 'a' <= c <= 'z' <==> c in "abcdefghijklmnopqrstuvwxyz"
  {
  }

  lemma SlugChars(c: char)
    ensures IsSlugChar(c)
            <==> c in "ABCDEFGHIJKLMNOPQRSTUVWXYZ" || c in "abcdefghijklmnopqrstuvwxyz" || c in "0123456789-_"
  {
    Uppers(c);
    Lowers(c);
  }

  /** The validated shape, spelled out. */
  lemma SlugPattern(s: string)
    ensures ValidSlug(s) <==>
            && |s| == 8
            && forall i | 0 <= i < |s| ::
                 s[i] in "ABCDEFGHIJKLMNOPQRSTUVWXYZ" || s[i] in "abcdefghijklmnopqrstuvwxyz" || s[i] in "0123456789-_"
  {
    hide IsSlugChar;
    forall i | 0 <= i < |s|
      ensures IsSlugChar(s[i]) <==>
              s[i] in "ABCDEFGHIJKLMNOPQRSTUVWXYZ" || s[i] in "abcdefghijklmnopqrstuvwxyz" || s[i] in "0123456789-_"
    {
      SlugChars(s[i]);
    }
  }

  lemma SextetIs(v: int)
    requires 0 <= v < 64
    ensures Sextet(v) == ("ABCDEFGHIJKLMNOPQRSTUVWXYZ" + "abcdefghijklmnopqrstuvwxyz" + "0123456789" + "-_")[v]
  {
  }

  lemma TripleDigits(x: Byte, y: Byte, z: Byte) returns (d: seq<int>)
    ensures |d| == 4 && forall k | 0 <= k < 4 :: 0 <= d[k] < 64 && EncodeTriple(x, y, z)[k] == Sextet(d[k])
    ensures (x as int) * 65536 + (y as int) * 256 + z == d[0] * 262144 + d[1] * 4096 + d[2] * 64 + d[3]
  {
    d := [x / 4, x % 4 * 16 + y / 16, y % 16 * 4 + z / 64, z % 64];
  }

  /** The drawn slug outright: each three of the bytes are a 24-bit number, most significant
      byte first, and its four base-64 digits are spelled in the alphabet in the same order. */
  lemma SlugDigits(b: Seed, g: int) returns (d: seq<int>)
    requires g == 0 || g == 1
    ensures |d| == 4 && forall k | 0 <= k < 4 ::
              && 0 <= d[k] < 64
              && EncodeSlug(b)[4 * g + k]
                 == ("ABCDEFGHIJKLMNOPQRSTUVWXYZ" + "abcdefghijklmnopqrstuvwxyz" + "0123456789" + "-_")[d[k]]
    ensures (b[3 * g] as int) * 65536 + (b[3 * g + 1] as int) * 256 + b[3 * g + 2]
            == d[0] * 262144 + d[1] * 4096 + d[2] * 64 + d[3]
  {
    hide Sextet, EncodeTriple;
    var x, y, z := b[3 * g], b[3 * g + 1], b[3 * g + 2];
    d := TripleDigits(x, y, z);
    forall k | 0 <= k < 4
      ensures EncodeSlug(b)[4 * g + k]
              == ("ABCDEFGHIJKLMNOPQRSTUVWXYZ" + "abcdefghijklmnopqrstuvwxyz" + "0123456789" + "-_")[d[k]]
    {
      assert EncodeSlug(b)[4 * g + k] == EncodeTriple(x, y, z)[k];
      SextetIs(d[k]);
    }
  }

  // ---- Extensions ------------------------------------------------------------------

  predicate IsExtChar(c: char) {
    IsSlugChar(c) || c == '.'
  }

  /** A dot followed by 1 to 16 characters of the allowlist. */
  predicate ExtRe(e: string) {
    2 <= |e| <= 17 && e[0] == '.' && forall i | 1 <= i < |e| :: IsExtChar(e[i])
  }

  function SanitiseExt(ext: string): string {
    if ext == "" then "" else if !ExtRe(ext) then "" else ext
  }

  /** The extensions that can reach a row: the image of SanitiseExt. */
  predicate SaneExt(e: string) {
    e == "" || ExtRe(e)
  }

  /** The gate outright: a dot and 1 to 16 characters of letters, digits, `.`, `_` and `-` pass
      unchanged, and everything else becomes the empty extension. */
  lemma SanitiseExtFixes(ext: string)
    ensures SanitiseExt(ext)
            == if && 2 <= |ext| <= 17 && ext[0] == '.'
                  && forall i | 1 <= i < |ext| ::
                       || ext[i] in "ABCDEFGHIJKLMNOPQRSTUVWXYZ" || ext[i] in "abcdefghijklmnopqrstuvwxyz"
                       || ext[i] in "0123456789._-"
               then ext else ""
    ensures SaneExt(SanitiseExt(ext))
    ensures SanitiseExt(ext) == ext <==> SaneExt(ext)
    ensures SanitiseExt(SanitiseExt(ext)) == SanitiseExt(ext)
  {
    hide IsSlugChar;
    forall i | 0 <= i < |ext|
      ensures IsExtChar(ext[i]) <==>
              || ext[i] in "ABCDEFGHIJKLMNOPQRSTUVWXYZ" || ext[i] in "abcdefghijklmnopqrstuvwxyz"
              || ext[i] in "0123456789._-"
    {
      SlugChars(ext[i]);
    }
  }

  // ---- Scratch names ---------------------------------------------------------------

  const PARTIAL := ".partial"

  /** strings.HasSuffix(name, ".partial"). */
  predicate IsPartial(n: string) {
    |n| >= 8 && n[|n| - 8..] == PARTIAL
  }

  predicate IsHexChar(c: char) {
    '0' <= c <= '9' || 'a' <= c <= 'f'
  }

  function HexDigit(v: int): (c: char)
    requires 0 <= v < 16
    ensures IsHexChar(c)
  {
    if v < 10 then '0' + v as char else 'a' + (v - 10) as char
  }

  function Hex(b: Bytes): (s: string)
    ensures |s| == 2 * |b| && forall i | 0 <= i < |s| :: IsHexChar(s[i])
  {
    if b == [] then "" else [HexDigit(b[0] / 16), HexDigit(b[0] % 16)] + Hex(b[1..])
  }

  type Nonce = b: Bytes | |b| == 8 witness [0, 0, 0, 0, 0, 0, 0, 0]

  /** randHex(8) + ".partial". */
  function ScratchName(nonce: Nonce): (n: string)
    ensures IsScratch(n)
  {
    Hex(nonce) + PARTIAL
  }

  lemma {:induction false} HexAt(b: Bytes, k: nat)
    requires k < |b|
    ensures Hex(b)[2 * k] == HexDigit(b[k] / 16) && Hex(b)[2 * k + 1] == HexDigit(b[k] % 16)
  {
    hide HexDigit, IsHexChar;
    var first, rest := [HexDigit(b[0] / 16), HexDigit(b[0] % 16)], Hex(b[1..]);
    assert Hex(b) == first + rest;
    if k > 0 {
      HexAt(b[1..], k - 1);
      assert (first + rest)[2 * k] == rest[2 * (k - 1)] && (first + rest)[2 * k + 1] == rest[2 * (k - 1) + 1];
    }
  }

  /** The drawn scratch name outright: two lower-case hex digits a byte, then the suffix. */
  lemma ScratchDigits(nonce: Nonce, k: nat)
    requires k < 8
    ensures var n := ScratchName(nonce);
            && |n| == 24 && n[16..] == ".partial"
            && n[2 * k] == "0123456789abcdef"[nonce[k] / 16] && n[2 * k + 1] == "0123456789abcdef"[nonce[k] % 16]
  {
    HexAt(nonce, k);
  }

  predicate IsScratch(n: string) {
    |n| == 24 && n[16..] == PARTIAL && forall i | 0 <= i < 16 :: IsHexChar(n[i])
  }

  /** A scratch name as drawn; ScratchDraws shows the draws are all of these. */
  type Scratch = n: string | IsScratch(n) witness "0000000000000000.partial"

  function HexValue(c: char): (v: int)
    requires IsHexChar(c)
    ensures 0 <= v < 16 && HexDigit(v) == c
  {
    if '0' <= c <= '9' then c as int - '0' as int else c as int - 'a' as int + 10
  }

  function Unhex(s: string): (b: Bytes)
    requires |s| % 2 == 0 && forall i | 0 <= i < |s| :: IsHexChar(s[i])
    ensures |b| == |s| / 2
  {
    if s == "" then [] else [16 * HexValue(s[0]) + HexValue(s[1])] + Unhex(s[2..])
  }

  lemma {:induction false} HexUnhex(s: string)
    requires |s| % 2 == 0 && forall i | 0 <= i < |s| :: IsHexChar(s[i])
    ensures Hex(Unhex(s)) == s
  {
    if s != "" {
      HexUnhex(s[2..]);
      var b := Unhex(s);
      assert b[0] / 16 == HexValue(s[0]) && b[0] % 16 == HexValue(s[1]);
      assert b[1..] == Unhex(s[2..]);
      assert s == [s[0], s[1]] + s[2..];
    }
  }

  /** Every name of the scratch shape is drawn from some nonce. */
  lemma ScratchDraws(n: string) returns (nonce: Nonce)
    requires IsScratch(n)
    ensures ScratchName(nonce) == n
  {
    nonce := Unhex(n[..16]);
    HexUnhex(n[..16]);
    assert n == n[..16] + n[16..];
  }

  // ---- Separation of the name spaces -----------------------------------------------

  /** `n` is a name that some row keyed by `slug` could own. */
  predicate Belongs(n: string, slug: string) {
    ValidSlug(slug) && |n| >= 8 && n[..8] == slug && SaneExt(n[8..])
  }

  predicate IsDiskName(n: string) {
    |n| >= 8 && Belongs(n, n[..8])
  }

  /** `<slug><ext>` determines both halves, carries no path separator, and is never a
      scratch name, although a scratch name may well begin with a valid slug. */
  lemma NameSpaces(slug: string, ext: string, slug': string, ext': string, nonce: Nonce)
    requires ValidSlug(slug) && SaneExt(ext) && ValidSlug(slug') && SaneExt(ext')
    ensures slug + ext == slug' + ext' ==> slug == slug' && ext == ext'
    ensures slug + ext != ScratchName(nonce)
    ensures '/' !in slug + ext && '\\' !in slug + ext
    ensures Belongs(slug + ext, slug') <==> slug == slug'
  {
    assert (slug + ext)[..8] == slug && (slug + ext)[8..] == ext;
    assert (slug' + ext')[..8] == slug' && (slug' + ext')[8..] == ext';
    var p := ScratchName(nonce);
    assert IsHexChar(p[8]);
  }

  lemma ScratchBelongsToNone(n: string, slug: string)
    requires IsScratch(n)
    ensures !Belongs(n, slug) && !IsDiskName(n) && IsPartial(n)
  {
    assert IsHexChar(n[8]);
    assert n[8..][0] == n[8];
  }

  /** A committed file looks like scratch to the boot reaper exactly when its extension
      ends in ".partial": a dot cannot come from the slug. */
  lemma PartialByExtension(slug: string, ext: string)
    requires ValidSlug(slug)
    ensures IsPartial(slug + ext) <==> IsPartial(ext)
    ensures IsPartial(ext) <==> exists stem :: ext == stem + ".partial"
  {
    if IsPartial(ext) {
      assert ext == ext[..|ext| - 8] + ".partial";
    }
    var n := slug + ext;
    if |ext| >= 8 {
      assert n[|n| - 8..] == ext[|ext| - 8..];
    } else {
      assert n[|n| - 8..][0] == slug[|ext|];
    }
  }
}
