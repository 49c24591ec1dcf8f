/** The name under which an uploaded file is stored: the original base
    name and extension with path separators and control characters
    replaced, and a timestamp to the second between them. */
module Uploads {
  import opened Text

  // ---------------------------------------------------------------------
  // Sanitising.

  /** The characters `sanitizeFilename` replaces: backslash, slash, the
      controls U+0000 to U+001F (NUL among them) and DEL. */
  predicate IsForbidden(c: char) {
    c == '\\' || c == '/' || c <= '\U{1F}' || c == '\U{7F}'
  }

  /** No forbidden character anywhere. */
  predicate Clean(s: string) {
    forall k :: 0 <= k < |s| ==> !IsForbidden(s[k])
  }

  /** The length of the run of forbidden characters starting `s`. */
  function RunLength(s: string): (n: nat)
    ensures n <= |s|
    ensures forall k :: 0 <= k < n ==> IsForbidden(s[k])
    ensures n < |s| ==> !IsForbidden(s[n])
  {
    if s != [] && IsForbidden(s[0]) then 1 + RunLength(s[1..]) else 0
  }

  /** `sanitizeFilename`: a global replace of the pattern
      `[\\/\0\x00-\x1F\x7F]+` by `_`, that is, each maximal run of
      forbidden characters becomes a single underscore. */
  function Sanitize(s: string): (r: string)
    ensures Clean(r)
    ensures |r| <= |s|
    ensures r == [] <==> s == []
    decreases |s|
  {
    if s == [] then []
    else if IsForbidden(s[0]) then
      var n := RunLength(s);
      "_" + Sanitize(s[n..])
    else
      [s[0]] + Sanitize(s[1..])
  }

  /** Reference definition, one character at a time: a kept character
      stands for itself, a forbidden one that starts a run becomes `_`, and
      a forbidden one that continues a run disappears. `prev` says whether
      the character before was forbidden. */
  function Emit(prev: bool, c: char): string {
    if !IsForbidden(c) then [c] else if prev then [] else "_"
  }

  function Local(s: string, prev: bool): string
    decreases |s|
  {
    if s == [] then [] else Emit(prev, s[0]) + Local(s[1..], IsForbidden(s[0]))
  }

  /** Inside a run, the rest of the run emits nothing. */
  lemma {:induction false} LocalSkipsRun(s: string)
    ensures Local(s, true) == Local(s[RunLength(s)..], true)
    decreases |s|
  {
    if s != [] && IsForbidden(s[0]) {
      var t := s[1..];
      LocalSkipsRun(t);
      assert t[RunLength(t)..] == s[RunLength(s)..];
    }
  }

  /** Before a kept character (or the end) the previous character does
      not matter. */
  lemma LocalAfterRun(q: string)
    requires q == [] || !IsForbidden(q[0])
    ensures Local(q, true) == Local(q, false)
  {
  }

  /** The sanitiser agrees with the character-by-character definition:
      every run of forbidden characters becomes exactly one `_` and every
      other character is kept, in order. */
  lemma {:induction false} SanitizeIsLocal(s: string)
    ensures Sanitize(s) == Local(s, false)
    decreases |s|
  {
    if s != [] {
      if IsForbidden(s[0]) {
        var n := RunLength(s);
        var t := s[1..];
        LocalSkipsRun(t);
        assert t[RunLength(t)..] == s[n..];
        LocalAfterRun(s[n..]);
        SanitizeIsLocal(s[n..]);
      } else {
        SanitizeIsLocal(s[1..]);
      }
    }
  }

  /** A string with no forbidden character is returned unchanged. */
  lemma {:induction false} SanitizeClean(s: string)
    requires Clean(s)
    ensures Sanitize(s) == s
    decreases |s|
  {
    if s != [] {
      SanitizeClean(s[1..]);
    }
  }

  /** Sanitising twice is sanitising once. */
  lemma SanitizeIdempotent(s: string)
    ensures Sanitize(Sanitize(s)) == Sanitize(s)
  {
    SanitizeClean(Sanitize(s));
  }

  /** A clean prefix passes through untouched. */
  lemma {:induction false} SanitizeCleanPrefix(p: string, q: string)
    requires Clean(p)
    ensures Sanitize(p + q) == p + Sanitize(q)
    decreases |p|
  {
    if p == [] {
      assert p + q == q;
    } else {
      SanitizeCleanPrefix(p[1..], q);
      SanitizeKept(p[0], p[1..] + q);
      assert p + q == [p[0]] + (p[1..] + q);
      assert p == [p[0]] + p[1..];
    }
  }

  /** One kept character at the front. */
  lemma SanitizeKept(c: char, t: string)
    requires !IsForbidden(c)
    ensures Sanitize([c] + t) == [c] + Sanitize(t)
  {
    assert ([c] + t)[1..] == t;
  }

  /** A whole run of forbidden characters, however long, becomes one `_`. */
  lemma SanitizeRun(run: string, q: string)
    requires run != [] && forall k :: 0 <= k < |run| ==> IsForbidden(run[k])
    requires q == [] || !IsForbidden(q[0])
    ensures Sanitize(run + q) == "_" + Sanitize(q)
  {
    var s := run + q;
    RunOfPrefix(run, q);
    assert s[|run|..] == q;
  }

  lemma {:induction false} RunOfPrefix(run: string, q: string)
    requires forall k :: 0 <= k < |run| ==> IsForbidden(run[k])
    requires q == [] || !IsForbidden(q[0])
    ensures RunLength(run + q) == |run|
    decreases |run|
  {
    if run != [] {
      assert (run + q)[1..] == run[1..] + q;
      RunOfPrefix(run[1..], q);
    } else {
      assert run + q == q;
    }
  }

  // ---------------------------------------------------------------------
  // The timestamp.

  /** `.replace(/[:.]/g, "-")`. */
  function DashColonsAndDots(s: string): (r: string)
    ensures |r| == |s|
    ensures forall k :: 0 <= k < |s| ==> r[k] == if s[k] == ':' || s[k] == '.' then '-' else s[k]
  {
    if s == [] then []
    else [if s[0] == ':' || s[0] == '.' then '-' else s[0]] + DashColonsAndDots(s[1..])
  }

  /** `.replace(a, b)` with one-character strings: only the first
      occurrence of `a`, if there is one, becomes `b`. */
  function ReplaceFirst(s: string, a: char, b: char): (r: string)
    ensures |r| == |s|
    ensures forall k :: 0 <= k < |s| ==> r[k] == if k == IndexOf(s, a) then b else s[k]
  {
    if s == [] then []
    else if s[0] == a then [b] + s[1..]
    else [s[0]] + ReplaceFirst(s[1..], a, b)
  }

  /** `.slice(0, 19)`. */
  function Take19(s: string): (r: string)
    ensures |r| == if |s| < 19 then |s| else 19
    ensures r == s[..|r|]
  {
    if |s| <= 19 then s else s[..19]
  }

  /** The stamp made from an ISO-8601 time string. */
  function Stamp(iso: string): (r: string)
    ensures |r| == if |iso| < 19 then |iso| else 19
    ensures forall k :: 0 <= k < |r| ==> r[k] != ':' && r[k] != '.'
  {
    Take19(ReplaceFirst(DashColonsAndDots(iso), 'T', '_'))
  }

  predicate IsDigit(c: char) {
    '0' <= c <= '9'
  }

  /** The first 19 characters of what `Date.prototype.toISOString`
      returns for a four-digit year: `YYYY-MM-DDTHH:mm:ss`. */
  predicate IsoShaped(iso: string) {
    |iso| >= 19 &&
    forall k :: 0 <= k < 19 ==>
      if k == 4 || k == 7 then iso[k] == '-'
      else if k == 10 then iso[k] == 'T'
      else if k == 13 || k == 16 then iso[k] == ':'
      else IsDigit(iso[k])
  }

  /** On an ISO time the stamp is `YYYY-MM-DD_HH-mm-ss`: the date kept,
      `T` turned into `_`, the colons into `-`, the fraction and zone
      dropped. */
  lemma StampOfIso(iso: string)
    requires IsoShaped(iso)
    ensures |Stamp(iso)| == 19
    ensures forall k :: 0 <= k < 19 ==>
              Stamp(iso)[k] == if k == 10 then '_' else if k == 13 || k == 16 then '-' else iso[k]
  {
    var d := DashColonsAndDots(iso);
    IndexOfFirst(d, 'T', 10);
  }

  /** Two ISO times give the same stamp exactly when they agree to the
      second. */
  lemma StampsDistinguishSeconds(a: string, b: string)
    requires IsoShaped(a) && IsoShaped(b)
    ensures Stamp(a) == Stamp(b) <==> a[..19] == b[..19]
  {
    StampOfIso(a);
    StampOfIso(b);
    if Stamp(a) == Stamp(b) {
      forall k | 0 <= k < 19 ensures a[k] == b[k] {
        if !(k == 4 || k == 7 || k == 10 || k == 13 || k == 16) {
          assert Stamp(a)[k] == Stamp(b)[k];
        }
      }
      assert a[..19] == b[..19] by {
        forall k | 0 <= k < 19 ensures a[..19][k] == b[..19][k] {
        }
      }
    }
    if a[..19] == b[..19] {
      assert forall k :: 0 <= k < 19 ==> a[k] == a[..19][k] == b[..19][k] == b[k];
    }
  }

  /** A clean time string gives a clean stamp. */
  lemma StampClean(iso: string)
    requires Clean(iso)
    ensures Clean(Stamp(iso))
  {
    var d := DashColonsAndDots(iso);
    var t := ReplaceFirst(d, 'T', '_');
    assert Stamp(iso) == t[..|Stamp(iso)|];
    forall k | 0 <= k < |Stamp(iso)| ensures !IsForbidden(Stamp(iso)[k]) {
      assert Stamp(iso)[k] == t[k];
    }
  }

  // ---------------------------------------------------------------------
  // The stored name.

  /** `sanitizeFilename(base) || "file"`: the placeholder is used only
      when the base name is empty. */
  function SafeBase(base: string): (r: string)
    ensures Clean(r) && r != []
    ensures base == [] ==> r == "file"
    ensures base != [] ==> r == Sanitize(base)
  {
    var s := Sanitize(base);
    if s == [] then "file" else s
  }

  /** `uniqueFilename`, with `path.basename` and `path.extname` of the
      original name and `new Date().toISOString()` as inputs. */
  function UniqueFilename(base: string, ext: string, iso: string): (r: string)
    ensures |r| == |SafeBase(base)| + 2 + |Stamp(iso)| + |Sanitize(ext)|
    ensures r[..|SafeBase(base)|] == SafeBase(base)
    ensures r[|SafeBase(base)|..|SafeBase(base)| + 2] == "__"
    ensures r[|SafeBase(base)| + 2..|r| - |Sanitize(ext)|] == Stamp(iso)
    ensures r[|r| - |Sanitize(ext)|..] == Sanitize(ext)
  {
    SafeBase(base) + "__" + Stamp(iso) + Sanitize(ext)
  }

  /** With a clean time string the stored name holds no path separator
      and no control character. */
  lemma UniqueFilenameClean(base: string, ext: string, iso: string)
    requires Clean(iso)
    ensures Clean(UniqueFilename(base, ext, iso))
  {
    StampClean(iso);
    var p := SafeBase(base) + "__";
    assert Clean(p) by {
      forall k | 0 <= k < |p| ensures !IsForbidden(p[k]) {
        if k < |SafeBase(base)| {
          assert p[k] == SafeBase(base)[k];
        }
      }
    }
    CleanConcat(p, Stamp(iso));
    CleanConcat(p + Stamp(iso), Sanitize(ext));
  }

  lemma CleanConcat(p: string, q: string)
    requires Clean(p) && Clean(q)
    ensures Clean(p + q)
  {
    forall k | 0 <= k < |p + q| ensures !IsForbidden((p + q)[k]) {
      if k >= |p| {
        assert (p + q)[k] == q[k - |p|];
      }
    }
  }

  /** For the same original name, two upload times give the same stored
      name exactly when they fall in the same second. */
  lemma UniqueFilenamePerSecond(base: string, ext: string, a: string, b: string)
    requires IsoShaped(a) && IsoShaped(b)
    ensures UniqueFilename(base, ext, a) == UniqueFilename(base, ext, b) <==> a[..19] == b[..19]
  {
    StampsDistinguishSeconds(a, b);
    StampOfIso(a);
    StampOfIso(b);
    var p := SafeBase(base) + "__";
    var x := UniqueFilename(base, ext, a);
    var y := UniqueFilename(base, ext, b);
    assert x == p + Stamp(a) + Sanitize(ext);
    assert y == p + Stamp(b) + Sanitize(ext);
    if x == y {
      assert x[|p|..|p| + 19] == Stamp(a);
      assert y[|p|..|p| + 19] == Stamp(b);
    }
  }
}
