/** The sanitiser for uploaders' filenames, on bytes, with the UTF-8 decoding its truncation
    by rune goes through. */
module Filename {
  import opened Common

  // ---- UTF-8 (section 4 of RFC 3629) -----------------------------------------------

  predicate Scalar(r: int) {
    0 <= r < 0xD800 || 0xE000 <= r < 0x110000
  }

  const RUNE_ERROR := 0xFFFD

  predicate Tail(b: Byte) {
    0x80 <= b < 0xC0
  }

  /** How long a sequence with this first byte is; 0 if none starts with it. */
  function SeqLen(b: Byte): (n: nat)
    ensures n <= 4
  {
    if b < 0x80 then 1 else if b < 0xC2 then 0 else if b < 0xE0 then 2
    else if b < 0xF0 then 3 else if b < 0xF5 then 4 else 0
  }

  /** The second byte is narrowed where an overlong form, a surrogate or a value past
      U+10FFFF would start. */
  predicate SecondOk(b0: Byte, b1: Byte) {
    && Tail(b1)
    && (b0 == 0xE0 ==> b1 >= 0xA0) && (b0 == 0xED ==> b1 < 0xA0)
    && (b0 == 0xF0 ==> b1 >= 0x90) && (b0 == 0xF4 ==> b1 < 0x90)
  }

  predicate Legal(s: Bytes) {
    && s != [] && SeqLen(s[0]) == |s|
    && (|s| >= 2 ==> SecondOk(s[0], s[1])) && (|s| >= 3 ==> Tail(s[2])) && (|s| == 4 ==> Tail(s[3]))
  }

  function RuneOf(s: Bytes): (r: int)
    requires Legal(s)
    ensures Scalar(r)
  {
    var b: seq<int> := s;
    if |s| == 1 then b[0]
    else if |s| == 2 then (b[0] - 0xC0) * 64 + (b[1] - 0x80)
    else if |s| == 3 then (b[0] - 0xE0) * 4096 + (b[1] - 0x80) * 64 + (b[2] - 0x80)
    else (b[0] - 0xF0) * 262144 + (b[1] - 0x80) * 4096 + (b[2] - 0x80) * 64 + (b[3] - 0x80)
  }

  function Encode(r: int): (s: Bytes)
    requires Scalar(r)
    ensures Legal(s)
  {
    if r < 0x80 then [r]
    else if r < 0x800 then [0xC0 + r / 64, 0x80 + r % 64]
    else if r < 0x10000 then [0xE0 + r / 4096, 0x80 + r / 64 % 64, 0x80 + r % 64]
    else [0xF0 + r / 262144, 0x80 + r / 4096 % 64, 0x80 + r / 64 % 64, 0x80 + r % 64]
  }

  /** The table of RFC 3629, section 3: how long the sequence is, its lead bits, and the six
      bits in each byte after it. */
  lemma EncodingTable(r: int)
    requires 0 <= r < 0xD800 || 0xE000 <= r < 0x110000
    ensures var s: seq<int> := Encode(r);
            && |s| == (if r < 0x80 then 1 else if r < 0x800 then 2 else if r < 0x10000 then 3 else 4)
            && (forall i | 1 <= i < |s| :: 0x80 <= s[i] <= 0xBF)
            && (|s| == 1 ==> s[0] == r)
            && (|s| == 2 ==> 0xC0 <= s[0] <= 0xDF && r == (s[0] - 0xC0) * 64 + (s[1] - 0x80))
            && (|s| == 3 ==> 0xE0 <= s[0] <= 0xEF
                             && r == (s[0] - 0xE0) * 4096 + (s[1] - 0x80) * 64 + (s[2] - 0x80))
            && (|s| == 4 ==> 0xF0 <= s[0] <= 0xF7
                             && r == (s[0] - 0xF0) * 262144 + (s[1] - 0x80) * 4096 + (s[2] - 0x80) * 64
                                     + (s[3] - 0x80))
  {
    RuneOfEncode(r);
  }

  /** Section 3 again: U+00A2, U+20AC and U+10348, and what is refused: an overlong form, a
      surrogate, a lead byte with nothing after it. */
  lemma EncodingExamples()
    ensures Encode(0xA2) == [0xC2, 0xA2] && Encode(0x20AC) == [0xE2, 0x82, 0xAC]
    ensures Encode(0x10348) == [0xF0, 0x90, 0x8D, 0x88]
    ensures !WellFormed([0xC0, 0x80]) && !WellFormed([0xED, 0xA0, 0x80]) && !WellFormed([0xC2])
    ensures Runes([0x61, 0xC2]) == [0x61, 0xFFFD]
  {
    assert [0x61, 0xC2][..1] == [0x61];
    assert [0x61, 0xC2][1..] == [0xC2];
    assert Runes([0xC2]) == [0xFFFD] + Runes([0xC2][1..]);
    assert Runes([0x61, 0xC2]) == [RuneOf([0x61])] + Runes([0xC2]);
  }

  // Base-64 digits and the number they make.

  lemma TwoDigits(p: int, c: int)
    requires 0 <= c < 64
    ensures (p * 64 + c) / 64 == p && (p * 64 + c) % 64 == c
  {
  }

  lemma ThreeDigits(p: int, b: int, c: int)
    requires 0 <= b < 64 && 0 <= c < 64
    ensures var n := p * 4096 + b * 64 + c; n / 4096 == p && n / 64 % 64 == b && n % 64 == c
  {
    var n := p * 4096 + b * 64 + c;
    TwoDigits(p * 64 + b, c);
    assert n == (p * 64 + b) * 64 + c;
    TwoDigits(p, b);
  }

  lemma FourDigits(p: int, a: int, b: int, c: int)
    requires 0 <= a < 64 && 0 <= b < 64 && 0 <= c < 64
    ensures var n := p * 262144 + a * 4096 + b * 64 + c;
            n / 262144 == p && n / 4096 % 64 == a && n / 64 % 64 == b && n % 64 == c
  {
    var n := p * 262144 + a * 4096 + b * 64 + c;
    ThreeDigits(p * 64 + a, b, c);
    assert n == (p * 64 + a) * 4096 + b * 64 + c;
    TwoDigits(p, a);
  }

  lemma DigitsOf(r: int)
    ensures r == r / 262144 * 262144 + r / 4096 % 64 * 4096 + r / 64 % 64 * 64 + r % 64
  {
    assert r / 4096 == r / 64 / 64;
    assert r / 262144 == r / 4096 / 64;
  }

  lemma RuneOfEncodeLong(r: int)
    requires 0x10000 <= r < 0x110000
    ensures RuneOf(Encode(r)) == r
  {
    DigitsOf(r);
    var s: seq<int> := Encode(r);
    assert s == [0xF0 + r / 262144, 0x80 + r / 4096 % 64, 0x80 + r / 64 % 64, 0x80 + r % 64];
  }

  lemma RuneOfEncode(r: int)
    requires Scalar(r)
    ensures RuneOf(Encode(r)) == r
  {
    if r >= 0x10000 {
      RuneOfEncodeLong(r);
    } else if r >= 0x800 {
      assert r == r / 4096 * 4096 + r / 64 % 64 * 64 + r % 64;
    }
  }

  lemma EncodeRuneOf(s: Bytes)
    requires Legal(s)
    ensures Encode(RuneOf(s)) == s
  {
    var b: seq<int> := s;
    if |s| == 2 {
      TwoDigits(b[0] - 0xC0, b[1] - 0x80);
    } else if |s| == 3 {
      ThreeDigits(b[0] - 0xE0, b[1] - 0x80, b[2] - 0x80);
    } else if |s| == 4 {
      FourDigits(b[0] - 0xF0, b[1] - 0x80, b[2] - 0x80, b[3] - 0x80);
    }
  }

  /** The length of the legal sequence `s` begins with, or 0. */
  function Lead(s: Bytes): (n: nat)
    requires s != []
    ensures n <= |s| && (n > 0 <==> n == SeqLen(s[0]) && Legal(s[..n]))
  {
    var n := SeqLen(s[0]);
    if n == 0 || n > |s| || !Legal(s[..n]) then 0 else n
  }

  /** []rune(s): a byte that starts no legal sequence becomes U+FFFD on its own. */
  function Runes(s: Bytes): (rs: seq<int>)
    ensures forall i | 0 <= i < |rs| :: Scalar(rs[i])
    decreases |s|
  {
    if s == [] then []
    else if Lead(s) == 0 then [RUNE_ERROR] + Runes(s[1..])
    else [RuneOf(s[..Lead(s)])] + Runes(s[Lead(s)..])
  }

  predicate Scalars(rs: seq<int>) {
    forall i | 0 <= i < |rs| :: Scalar(rs[i])
  }

  /** string(rs). */
  function Utf8(rs: seq<int>): Bytes
    requires Scalars(rs)
  {
    if rs == [] then [] else Encode(rs[0]) + Utf8(rs[1..])
  }

  predicate WellFormed(s: Bytes)
    decreases |s|
  {
    s == [] || (Lead(s) > 0 && WellFormed(s[Lead(s)..]))
  }

  lemma LeadOf(head: Bytes, rest: Bytes)
    requires Legal(head)
    ensures Lead(head + rest) == |head| && (head + rest)[..|head|] == head && (head + rest)[|head|..] == rest
  {
    assert (head + rest)[..|head|] == head;
  }

  lemma {:induction false} RunesOfUtf8(rs: seq<int>)
    requires Scalars(rs)
    ensures Runes(Utf8(rs)) == rs && WellFormed(Utf8(rs))
  {
    if rs != [] {
      RunesOfUtf8(rs[1..]);
      LeadOf(Encode(rs[0]), Utf8(rs[1..]));
      RuneOfEncode(rs[0]);
    }
  }

  lemma SplitAt(s: Bytes, n: nat)
    requires n <= |s|
    ensures s[..n] + s[n..] == s
  {
  }

  lemma Utf8Cons(r: int, rs: seq<int>)
    requires Scalar(r) && Scalars(rs)
    ensures Utf8([r] + rs) == Encode(r) + Utf8(rs)
  {
    assert ([r] + rs)[1..] == rs;
  }

  lemma {:induction false} Utf8OfRunes(s: Bytes)
    requires WellFormed(s)
    ensures Utf8(Runes(s)) == s
    decreases |s|
  {
    if s != [] {
      var n := Lead(s);
      SplitAt(s, n);
      EncodeRuneOf(s[..n]);
      Utf8Cons(RuneOf(s[..n]), Runes(s[n..]));
      Utf8OfRunes(s[n..]);
    }
  }

  /** Cutting at a rune cuts at a rune boundary. */
  lemma {:induction false} Utf8Prefix(rs: seq<int>, k: nat)
    requires Scalars(rs) && k <= |rs|
    ensures Utf8(rs[..k]) <= Utf8(rs)
  {
    if k != 0 {
      Utf8Prefix(rs[1..], k - 1);
      assert rs[..k][1..] == rs[1..][..k - 1];
    }
  }

  // ---- The sanitiser ---------------------------------------------------------------

  const SLASH: Byte := 0x2F
  const BACKSLASH: Byte := 0x5C
  const QUOTE: Byte := 0x22
  const MAX_RUNES := 200

  predicate Separator(b: Byte) {
    b == SLASH || b == BACKSLASH
  }

  predicate Dropped(b: Byte) {
    b < 0x20 || b == 0x7F || b == QUOTE || b == BACKSLASH
  }

  /** Fit to stand in a quoted header value. */
  predicate Clean(s: Bytes) {
    forall i | 0 <= i < |s| :: !Separator(s[i]) && !Dropped(s[i])
  }

  function LastComponent(name: Bytes): (c: Bytes)
    ensures forall i | 0 <= i < |c| :: !Separator(c[i])
    decreases |name|
  {
    if name == [] || Separator(name[|name| - 1]) then []
    else LastComponent(name[..|name| - 1]) + [name[|name| - 1]]
  }

  function Filter(s: Bytes): (r: Bytes)
    decreases |s|
  {
    if s == [] then [] else (if Dropped(s[0]) then [] else [s[0]]) + Filter(s[1..])
  }

  function Truncate(s: Bytes): Bytes {
    if |Runes(s)| > MAX_RUNES then Utf8(Runes(s)[..MAX_RUNES]) else s
  }

  function Sanitise(name: Bytes): Bytes {
    Truncate(Filter(LastComponent(name)))
  }

  lemma {:induction false} FilterClean(s: Bytes)
    requires forall i | 0 <= i < |s| :: !Separator(s[i])
    ensures Clean(Filter(s))
    decreases |s|
  {
    if s != [] {
      FilterClean(s[1..]);
    }
  }

  lemma {:induction false} CleanFixed(s: Bytes)
    requires Clean(s)
    ensures LastComponent(s) == s && Filter(s) == s
    decreases |s|
  {
    if s != [] {
      CleanFixedFilter(s);
      CleanFixed(s[..|s| - 1]);
    }
  }

  lemma {:induction false} CleanFixedFilter(s: Bytes)
    requires Clean(s)
    ensures Filter(s) == s
    decreases |s|
  {
    if s != [] {
      CleanFixedFilter(s[1..]);
    }
  }

  /** Runes that encode cleanly: not ASCII, or a clean byte. */
  predicate CleanRunes(rs: seq<int>) {
    Scalars(rs) && forall i | 0 <= i < |rs| && rs[i] < 0x80 :: !Separator(rs[i]) && !Dropped(rs[i])
  }

  lemma {:induction false} RunesClean(s: Bytes)
    requires Clean(s)
    ensures CleanRunes(Runes(s))
    decreases |s|
  {
    if s != [] {
      var n := if Lead(s) == 0 then 1 else Lead(s);
      RunesClean(s[n..]);
      if Lead(s) != 0 {
        EncodeRuneOf(s[..n]);
        assert s[..n][0] == s[0];
      }
    }
  }

  lemma {:induction false} Utf8Clean(rs: seq<int>)
    requires CleanRunes(rs)
    ensures Clean(Utf8(rs))
  {
    if rs != [] {
      Utf8Clean(rs[1..]);
      assert forall i | 0 <= i < |Encode(rs[0])| :: Encode(rs[0])[i] >= 0x80 || Encode(rs[0])[i] == rs[0];
    }
  }

  /** For every byte string, valid text or not: no separator, quote, control or DEL byte is
      left, there are at most 200 runes, and sanitising again changes nothing. */
  lemma SanitiseSafe(name: Bytes)
    ensures forall b | b in Sanitise(name) :: b >= 0x20 && b != 0x7F && b != 0x22 && b != 0x2F && b != 0x5C
    ensures |Runes(Sanitise(name))| <= 200
    ensures Sanitise(Sanitise(name)) == Sanitise(name)
  {
    var f := Filter(LastComponent(name));
    FilterClean(LastComponent(name));
    RunesClean(f);
    if |Runes(f)| > MAX_RUNES {
      Utf8Clean(Runes(f)[..MAX_RUNES]);
      RunesOfUtf8(Runes(f)[..MAX_RUNES]);
    }
    CleanFixed(Sanitise(name));
  }

  /** What is kept: a file name that is clean and not too long is kept as it is, whatever
      directories stand before it, up to a slash or a backslash. */
  lemma SanitiseKeeps(dir: Bytes, name: Bytes)
    requires dir != [] ==> dir[|dir| - 1] == 0x2F || dir[|dir| - 1] == 0x5C
    requires forall b | b in name :: b >= 0x20 && b != 0x7F && b != 0x22 && b != 0x2F && b != 0x5C
    requires |Runes(name)| <= 200
    ensures Sanitise(dir + name) == name
  {
    hide Runes, Utf8, Sanitise, Filter;
    assert forall i | 0 <= i < |name| :: name[i] in name;
    SanitiseParts(dir, name);
    CleanFixedFilter(name);
  }

  /** And what becomes of any other: its last component less the dropped bytes, up to 200
      runes of it. */
  lemma SanitiseParts(dir: Bytes, name: Bytes)
    requires dir != [] ==> dir[|dir| - 1] == 0x2F || dir[|dir| - 1] == 0x5C
    requires forall b | b in name :: b != 0x2F && b != 0x5C
    ensures var kept := Filter(name);
            Sanitise(dir + name) == if |Runes(kept)| <= 200 then kept else Utf8(Runes(kept)[..200])
  {
    hide Runes, Utf8, Filter, LastComponent;
    assert forall i | 0 <= i < |name| :: name[i] in name;
    if dir == [] {
      assert dir + name == name;
      NoSeparator(name);
    } else {
      AfterSeparator(dir, name);
    }
  }

  // ---- Well-formed names -----------------------------------------------------------

  lemma TailsOnly(s: Bytes, n: nat)
    requires s != [] && n == Lead(s)
    ensures forall i | 1 <= i < n :: s[i] >= 0x80
  {
    assert forall i | 0 <= i < n :: s[i] == s[..n][i];
  }

  lemma {:induction false} WellFormedTail(a: Bytes, c: Bytes)
    requires WellFormed(a + c) && (c != [] ==> c[0] < 0x80)
    ensures WellFormed(a) && WellFormed(c)
    decreases |a|
  {
    if a == [] {
      assert a + c == c;
    } else {
      var s := a + c;
      var n := Lead(s);
      TailsOnly(s, n);
      assert c != [] ==> s[|a|] == c[0];
      assert s[..n] == a[..n] && s[n..] == a[n..] + c;
      LeadOf(a[..n], a[n..]);
      assert a[..n] + a[n..] == a;
      WellFormedTail(a[n..], c);
    }
  }

  lemma LastComponentSplits(name: Bytes) returns (dir: Bytes)
    ensures name == dir + LastComponent(name) && (dir == [] || Separator(dir[|dir| - 1]))
    decreases |name|
  {
    if name == [] || Separator(name[|name| - 1]) {
      dir := name;
    } else {
      dir := LastComponentSplits(name[..|name| - 1]);
      assert name == name[..|name| - 1] + [name[|name| - 1]];
    }
  }

  lemma LastComponentWellFormed(name: Bytes)
    requires WellFormed(name)
    ensures WellFormed(LastComponent(name))
  {
    var dir := LastComponentSplits(name);
    var c := LastComponent(name);
    if dir == [] {
      assert name == c;
    } else {
      var head, sep := dir[..|dir| - 1], dir[|dir| - 1];
      assert name == head + ([sep] + c);
      WellFormedTail(head, [sep] + c);
      assert ([sep] + c)[..1] == [sep] && ([sep] + c)[1..] == c;
    }
  }

  lemma {:induction false} FilterKeeps(head: Bytes, rest: Bytes)
    requires forall i | 0 <= i < |head| :: head[i] >= 0x80
    ensures Filter(head + rest) == head + Filter(rest)
    decreases |head|
  {
    if head == [] {
      assert head + rest == rest;
    } else {
      assert (head + rest)[1..] == head[1..] + rest;
      FilterKeeps(head[1..], rest);
    }
  }

  lemma {:induction false} FilterWellFormed(s: Bytes)
    requires WellFormed(s)
    ensures WellFormed(Filter(s))
    decreases |s|
  {
    if s != [] {
      var n := Lead(s);
      FilterWellFormed(s[n..]);
      assert s == s[..n] + s[n..];
      if n > 1 {
        FilterKeeps(s[..n], s[n..]);
        LeadOf(s[..n], Filter(s[n..]));
      } else if !Dropped(s[0]) {
        assert n == 1 && s[..1] == [s[0]];
        LeadOf([s[0]], Filter(s[1..]));
      } else {
        assert Filter(s) == Filter(s[1..]);
      }
    }
  }

  /** Well-formed text stays well-formed: the result is a prefix of the filtered last
      component, cut between two runes, the whole of it if it has at most 200. */
  lemma SanitiseWellFormed(name: Bytes)
    requires WellFormed(name)
    ensures var f := Filter(LastComponent(name));
            && WellFormed(Sanitise(name)) && Sanitise(name) <= f
            && Runes(Sanitise(name)) == if |Runes(f)| > 200 then Runes(f)[..200] else Runes(f)
  {
    var f := Filter(LastComponent(name));
    LastComponentWellFormed(name);
    FilterWellFormed(LastComponent(name));
    if |Runes(f)| > MAX_RUNES {
      RunesOfUtf8(Runes(f)[..MAX_RUNES]);
      Utf8Prefix(Runes(f), MAX_RUNES);
      Utf8OfRunes(f);
    }
  }

  /** The dropped bytes, each on its own: control bytes, DEL, the double quote and the
      backslash. */
  lemma {:induction false} FilterAppend(s: Bytes, b: Byte)
    ensures Filter([]) == []
    ensures Filter(s + [b]) == Filter(s) + if b < 0x20 || b == 0x7F || b == 0x22 || b == 0x5C then [] else [b]
    decreases |s|
  {
    if s == [] {
      assert s + [b] == [b] && [b][1..] == [];
    } else {
      assert (s + [b])[1..] == s[1..] + [b];
      FilterAppend(s[1..], b);
    }
  }

  lemma {:induction false} NoSeparator(s: Bytes)
    requires forall i | 0 <= i < |s| :: !Separator(s[i])
    ensures LastComponent(s) == s
    decreases |s|
  {
    if s != [] {
      NoSeparator(s[..|s| - 1]);
    }
  }

  lemma {:induction false} AfterSeparator(head: Bytes, c: Bytes)
    requires head != [] && Separator(head[|head| - 1]) && forall i | 0 <= i < |c| :: !Separator(c[i])
    ensures LastComponent(head + c) == c
    decreases |c|
  {
    if c == [] {
      assert head + c == head;
    } else {
      assert (head + c)[..|head + c| - 1] == head + c[..|c| - 1];
      AfterSeparator(head, c[..|c| - 1]);
    }
  }

  /** The search back for the last separator. */
  method CutToLastComponent(name: Bytes) returns (part: Bytes)
    ensures part == LastComponent(name)
    ensures |part| <= |name| && part == name[|name| - |part|..] && 0x2F !in part && 0x5C !in part
    ensures part == name || name[|name| - |part| - 1] == 0x2F || name[|name| - |part| - 1] == 0x5C
  {
    var start := |name|;
    while start > 0 && !Separator(name[start - 1])
      invariant 0 <= start <= |name| && forall i | start <= i < |name| :: !Separator(name[i])
    {
      start := start - 1;
    }
    part := name[start..];
    assert name == name[..start] + part;
    if start > 0 {
      AfterSeparator(name[..start], part);
    } else {
      assert part == name;
      NoSeparator(name);
    }
  }

  /** Byte by byte into a builder, then the cut of the rune slice. */
  method SanitiseOriginalFilename(name: Bytes) returns (out: Bytes)
    ensures out == Sanitise(name)
  {
    var part := CutToLastComponent(name);
    out := [];
    var i := 0;
    while i < |part|
      invariant 0 <= i <= |part| && out == Filter(part[..i])
    {
      FilterAppend(part[..i], part[i]);
      assert part[..i + 1] == part[..i] + [part[i]];
      if !Dropped(part[i]) {
        out := out + [part[i]];
      }
      i := i + 1;
    }
    assert part[..i] == part;
    var rs := Runes(out);
    if |rs| > MAX_RUNES {
      out := Utf8(rs[..MAX_RUNES]);
    }
  }
}
