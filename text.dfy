/** Character-level helpers shared by the tokenizer and the record builder:
    the whitespace that JavaScript's String.prototype.trim removes, trimming,
    and splitting a string at a separator character. */
module Text {

  /** ECMAScript WhiteSpace and LineTerminator code points: exactly the
      characters String.prototype.trim strips (U+FEFF, the byte-order mark,
      is one of them). */
  predicate IsSpace(c: char) {
    || c == '\t' || c == '\n' || c == '\U{0B}' || c == '\U{0C}' || c == '\r' || c == ' '
    || c == '\U{A0}' || c == '\U{1680}' || ('\U{2000}' <= c <= '\U{200A}')
    || c == '\U{2028}' || c == '\U{2029}' || c == '\U{202F}' || c == '\U{205F}'
    || c == '\U{3000}' || c == '\U{FEFF}'
  }

  predicate AllSpace(s: string) {
    forall k :: 0 <= k < |s| ==> IsSpace(s[k])
  }

  /** Drops the leading whitespace. */
  function TrimStart(s: string): (r: string)
    ensures |r| <= |s| && r == s[|s| - |r|..]
    ensures AllSpace(s[..|s| - |r|])
    ensures r == [] || !IsSpace(r[0])
  {
    if s != [] && IsSpace(s[0]) then TrimStart(s[1..]) else s
  }

  /** Drops the trailing whitespace. */
  function TrimEnd(s: string): (r: string)
    ensures |r| <= |s| && r == s[..|r|]
    ensures AllSpace(s[|r|..])
    ensures r == [] || !IsSpace(r[|r| - 1])
  {
    if s != [] && IsSpace(s[|s| - 1]) then TrimEnd(s[..|s| - 1]) else s
  }

  /** String.prototype.trim: the string without its leading and trailing
      whitespace; it is empty exactly when every character is whitespace. */
  function Trim(s: string): (r: string)
    ensures |r| <= |s|
    ensures r != [] ==> !IsSpace(r[0]) && !IsSpace(r[|r| - 1])
    ensures r == [] <==> AllSpace(s)
    ensures exists i, j :: 0 <= i <= j <= |s| && r == s[i..j] && AllSpace(s[..i]) && AllSpace(s[j..])
  {
    TrimEnds(s);
    TrimEmpty(s);
    TrimIsMiddle(s);
    TrimStart(TrimEnd(s))
  }

  /** What trimming keeps is a slice of the input with only whitespace
      on either side of it. */
  lemma TrimIsMiddle(s: string)
    ensures var e := TrimEnd(s);
            var r := TrimStart(e);
            r == s[|e| - |r|..|e|] && AllSpace(s[..|e| - |r|]) && AllSpace(s[|e|..])
  {
    MiddleOf(s, TrimEnd(s), TrimStart(TrimEnd(s)));
  }

  /** A suffix `r` of a prefix `e` of `s`, with whitespace around each cut,
      is a middle slice of `s` with whitespace on both sides. */
  lemma MiddleOf(s: string, e: string, r: string)
    requires |e| <= |s| && e == s[..|e|] && AllSpace(s[|e|..])
    requires |r| <= |e| && r == e[|e| - |r|..] && AllSpace(e[..|e| - |r|])
    ensures r == s[|e| - |r|..|e|] && AllSpace(s[..|e| - |r|])
  {
    assert e[..|e| - |r|] == s[..|e| - |r|];
  }


  /** A whitespace character put in front changes what trimming keeps only
      by being kept itself, and only when something else is kept. */
  lemma {:induction false} TrimEndAfterSpace(c: char, x: string)
    requires IsSpace(c)
    ensures TrimEnd([c] + x) == if AllSpace(x) then [] else [c] + TrimEnd(x)
    decreases |x|
  {
    var s := [c] + x;
    if x == [] {
      assert TrimEnd(s) == TrimEnd(s[..0]);
    } else if IsSpace(x[|x| - 1]) {
      var y := x[..|x| - 1];
      assert s[..|s| - 1] == [c] + y;
      TrimEndAfterSpace(c, y);
      assert AllSpace(x) <==> AllSpace(y) by {
        assert forall k :: 0 <= k < |y| ==> y[k] == x[k];
      }
    } else {
      assert !AllSpace(x);
    }
  }

  /** Trimming ignores a whitespace character put in front. */
  lemma TrimAfterSpace(c: char, x: string)
    requires IsSpace(c)
    ensures Trim([c] + x) == Trim(x)
  {
    TrimEndAfterSpace(c, x);
    if !AllSpace(x) {
      var y := TrimEnd(x);
      assert ([c] + y)[1..] == y;
    }
  }

  /** The last character survives trimming at the front. */
  lemma TrimEnds(s: string)
    ensures var e := TrimEnd(s);
            var r := TrimStart(e);
            r != [] ==> r[|r| - 1] == e[|e| - 1]
  {
  }

  /** Trimming leaves nothing exactly when every character is whitespace. */
  lemma TrimEmpty(s: string)
    ensures TrimStart(TrimEnd(s)) == [] <==> AllSpace(s)
  {
    TrimEndEmpty(s);
    TrimStartEmpty(TrimEnd(s));
  }

  lemma {:induction false} TrimStartEmpty(s: string)
    ensures TrimStart(s) == [] <==> AllSpace(s)
    decreases |s|
  {
    if s != [] && IsSpace(s[0]) {
      TrimStartEmpty(s[1..]);
      assert forall k :: 0 <= k < |s| - 1 ==> s[1..][k] == s[k + 1];
    }
  }

  lemma {:induction false} TrimEndEmpty(s: string)
    ensures TrimEnd(s) == [] <==> AllSpace(s)
    decreases |s|
  {
    if s != [] && IsSpace(s[|s| - 1]) {
      TrimEndEmpty(s[..|s| - 1]);
      assert forall k :: 0 <= k < |s| - 1 ==> s[..|s| - 1][k] == s[k];
    }
  }

  /** The pieces of `s` between occurrences of `sep` (at least one piece). */
  function Split(s: string, sep: char): (r: seq<string>)
    ensures |r| >= 1
    ensures forall k :: 0 <= k < |r| ==> sep !in r[k]
  {
    if s == [] then [[]]
    else
      var rest := Split(s[1..], sep);
      if s[0] == sep then [[]] + rest
      else [[s[0]] + rest[0]] + rest[1..]
  }

  /** The index of the first `c` in `s`, or `|s|` when there is none. */
  function IndexOf(s: string, c: char): (k: nat)
    ensures k <= |s|
    ensures c !in s[..k]
    ensures k < |s| ==> s[k] == c
  {
    if s == [] || s[0] == c then 0 else 1 + IndexOf(s[1..], c)
  }

  /** `IndexOf` finds the first occurrence. */
  lemma {:induction false} IndexOfFirst(s: string, c: char, j: nat)
    requires j < |s| && s[j] == c
    requires forall i :: 0 <= i < j ==> s[i] != c
    ensures IndexOf(s, c) == j
  {
    if j > 0 {
      IndexOfFirst(s[1..], c, j - 1);
    }
  }

  /** The pieces glued back together with `sep` between neighbours. */
  function Join(pieces: seq<string>, sep: char): string
    requires |pieces| >= 1
  {
    if |pieces| == 1 then pieces[0] else pieces[0] + [sep] + Join(pieces[1..], sep)
  }

  /** Splitting and joining are inverse: joining the pieces restores the text. */
  lemma {:induction false} JoinSplit(s: string, sep: char)
    ensures Join(Split(s, sep), sep) == s
  {
    if s != [] {
      JoinSplit(s[1..], sep);
      var rest := Split(s[1..], sep);
      var pieces := Split(s, sep);
      assert s == [s[0]] + s[1..];
      if s[0] == sep {
        assert pieces[0] == [] && pieces[1..] == rest;
      } else if |rest| == 1 {
        assert pieces == [[s[0]] + rest[0]];
      } else {
        assert pieces[0] == [s[0]] + rest[0] && pieces[1..] == rest[1..];
        assert Join(rest, sep) == rest[0] + [sep] + Join(rest[1..], sep);
      }
    }
  }

  /** ... and splitting a join of separator-free pieces gives the pieces back. */
  lemma {:induction false} SplitJoin(pieces: seq<string>, sep: char)
    requires |pieces| >= 1
    requires forall k :: 0 <= k < |pieces| ==> sep !in pieces[k]
    ensures Split(Join(pieces, sep), sep) == pieces
  {
    if |pieces| == 1 {
      SplitFree(pieces[0], sep);
    } else {
      SplitJoin(pieces[1..], sep);
      SplitPrefix(pieces[0], [sep] + Join(pieces[1..], sep), sep);
      assert Join(pieces, sep) == pieces[0] + ([sep] + Join(pieces[1..], sep));
      assert ([sep] + Join(pieces[1..], sep))[1..] == Join(pieces[1..], sep);
      assert pieces == [pieces[0]] + pieces[1..];
    }
  }

  /** A string free of the separator is one piece. */
  lemma {:induction false} SplitFree(s: string, sep: char)
    requires sep !in s
    ensures Split(s, sep) == [s]
  {
    if s != [] {
      assert s[0] != sep;
      SplitFree(s[1..], sep);
      assert [s[0]] + s[1..] == s;
    }
  }

  /** A separator-free prefix followed by text starting with the separator. */
  lemma {:induction false} SplitPrefix(p: string, q: string, sep: char)
    requires sep !in p
    requires q != [] && q[0] == sep
    ensures Split(p + q, sep) == [p] + Split(q[1..], sep)
  {
    if p == [] {
      assert p + q == q;
    } else {
      SplitPrefix(p[1..], q, sep);
      assert (p + q)[1..] == p[1..] + q;
      assert [p[0]] + p[1..] == p;
    }
  }
}
