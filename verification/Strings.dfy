/** Python string operations the audit relies on, written out over `seq<char>`:
    one-character `split`, substring `in`, `startswith`/`endswith`, the slices
    `[:-1]` and `[1:-1]`, and the character classes its regular expressions use. */
module Strings {

  /** Number of occurrences of `c` in `s`. */
  function Count(s: string, c: char): nat
  {
    if s == [] then 0 else (if s[0] == c then 1 else 0) + Count(s[1..], c)
  }

  /** The inverse of `Split`: the pieces glued back together with `sep` between them. */
  function Join(pieces: seq<string>, sep: char): string
    requires |pieces| > 0
  {
    if |pieces| == 1 then pieces[0] else pieces[0] + [sep] + Join(pieces[1..], sep)
  }

  /** Python's `s.split(sep)` for a one-character separator: the text between
      consecutive separators, so always one piece more than there are separators. */
  function Split(s: string, sep: char): (r: seq<string>)
    ensures |r| == Count(s, sep) + 1
    ensures forall k :: 0 <= k < |r| ==> sep !in r[k]
    ensures Join(r, sep) == s
  {
    if s == [] then [""]
    else
      var rest := Split(s[1..], sep);
      if s[0] == sep then [""] + rest
      else
        assert Join(rest, sep) == rest[0] + (if |rest| == 1 then "" else [sep] + Join(rest[1..], sep));
        [[s[0]] + rest[0]] + rest[1..]
  }

  /** Splitting what `Join` glued back gives the pieces, when no piece holds the separator. */
  lemma {:induction false} SplitJoin(pieces: seq<string>, sep: char)
    requires |pieces| > 0
    requires forall k :: 0 <= k < |pieces| ==> sep !in pieces[k]
    ensures Split(Join(pieces, sep), sep) == pieces
  {
    if |pieces| == 1 {
      SplitPiece(pieces[0], sep);
    } else {
      SplitJoin(pieces[1..], sep);
      SplitAfterPiece(pieces[0], Join(pieces[1..], sep), sep);
      assert Join(pieces, sep) == pieces[0] + ([sep] + Join(pieces[1..], sep));
    }
  }

  /** A string without the separator splits into itself. */
  lemma {:induction false} SplitPiece(p: string, sep: char)
    requires sep !in p
    ensures Split(p, sep) == [p]
  {
    if p != [] {
      SplitPiece(p[1..], sep);
    }
  }

  /** A separator-free piece followed by a separator starts a new piece. */
  lemma {:induction false} SplitAfterPiece(p: string, rest: string, sep: char)
    requires sep !in p
    ensures Split(p + ([sep] + rest), sep) == [p] + Split(rest, sep)
  {
    if p == [] {
      assert p + ([sep] + rest) == [sep] + rest;
      assert ([sep] + rest)[1..] == rest;
    } else {
      assert (p + ([sep] + rest))[1..] == p[1..] + ([sep] + rest);
      SplitAfterPiece(p[1..], rest, sep);
      assert [p[0]] + p[1..] == p;
    }
  }

  /** `t` sits in `s` starting at index `i`. */
  predicate OccursAt(s: string, t: string, i: nat)
  {
    i + |t| <= |s| && s[i..i + |t|] == t
  }

  /** A text found at `i` starts with the character at `i`. */
  lemma OccursAtFirst(s: string, t: string, i: nat)
    ensures OccursAt(s, t, i) && |t| > 0 ==> s[i] == t[0]
  {
    if OccursAt(s, t, i) && |t| > 0 {
      assert s[i..i + |t|][0] == s[i];
    }
  }

  /** Python's `s.startswith(t)`. */
  predicate StartsWith(s: string, t: string)
  {
    |t| <= |s| && s[..|t|] == t
  }

  /** Python's `s.endswith(t)`. */
  predicate EndsWith(s: string, t: string)
  {
    |t| <= |s| && s[|s| - |t|..] == t
  }

  /** Python's `t in s` on strings: `t` occurs somewhere in `s`. */
  function Contains(s: string, t: string): (b: bool)
    ensures b <==> exists i: nat :: OccursAt(s, t, i)
    decreases |s|
  {
    if StartsWith(s, t) then
      assert OccursAt(s, t, 0);
      true
    else if |s| > |t| then
      var b := Contains(s[1..], t);
      assert forall i: nat :: OccursAt(s[1..], t, i) <==> OccursAt(s, t, i + 1);
      assert forall i: nat :: OccursAt(s, t, i) && i > 0 ==> OccursAt(s[1..], t, i - 1);
      b
    else
      assert forall i: nat :: !OccursAt(s, t, i);
      false
  }

  /** Python's `s[:-1]`: everything but the last character. */
  function DropLast(s: string): (r: string)
    ensures |s| > 0 ==> r + [s[|s| - 1]] == s
    ensures |s| == 0 ==> r == ""
  {
    if |s| == 0 then "" else s[..|s| - 1]
  }

  /** Python's `s[1:-1]`: everything but the first and the last character. */
  function Inner(s: string): (r: string)
    ensures |s| >= 2 ==> [s[0]] + r + [s[|s| - 1]] == s
    ensures |s| < 2 ==> r == ""
  {
    if |s| <= 2 then "" else s[1..|s| - 1]
  }

  /** The character classes of the audit's regular expressions: ` `, `[0-9]`,
      `[a-zA-Z0-9]`, the `[0-9/]` of port numbers and `.` (anything but a newline). */
  datatype CharClass = Space | Digit | Alnum | PortChar | NotNewline

  predicate InClass(c: char, k: CharClass)
  {
    match k
    case Space => c == ' '
    case Digit => '0' <= c <= '9'
    case Alnum => '0' <= c <= '9' || 'a' <= c <= 'z' || 'A' <= c <= 'Z'
    case PortChar => '0' <= c <= '9' || c == '/'
    case NotNewline => c != '\n'
  }

  /** Length of the longest run of class `k` starting at index `i` (a greedy `[k]*`). */
  function Span(s: string, i: nat, k: CharClass): (n: nat)
    requires i <= |s|
    ensures i + n <= |s|
    decreases |s| - i
  {
    if i == |s| || !InClass(s[i], k) then 0 else 1 + Span(s, i + 1, k)
  }

  /** The run is all of class `k` and is followed by the end of the text or
      by a character of another class. */
  lemma {:induction false} SpanRun(s: string, i: nat, k: CharClass)
    requires i <= |s|
    ensures forall j :: i <= j < i + Span(s, i, k) ==> InClass(s[j], k)
    ensures i + Span(s, i, k) == |s| || !InClass(s[i + Span(s, i, k)], k)
    decreases |s| - i
  {
    if i < |s| && InClass(s[i], k) {
      SpanRun(s, i + 1, k);
    }
  }

  /** A word of class `k` at `i`, not followed by another character of that
      class, is the longest run there. */
  lemma SpanOfWord(s: string, i: nat, w: string, k: CharClass)
    requires forall j :: 0 <= j < |w| ==> InClass(w[j], k)
    requires i + |w| <= |s| && s[i..i + |w|] == w
    requires i + |w| == |s| || !InClass(s[i + |w|], k)
    ensures Span(s, i, k) == |w|
  {
    SpanRun(s, i, k);
    forall j | i <= j < i + |w|
      ensures InClass(s[j], k)
    {
      assert s[j] == w[j - i];
    }
  }

  /** The `n` characters of `s` from index `i`. */
  function Slice(s: string, i: nat, n: nat): (r: string)
    requires i + n <= |s|
    ensures |r| == n && OccursAt(s, r, i)
  {
    s[i..i + n]
  }

  /** The run of class `k` at `i`, taken out of the text, is all of class `k`. */
  lemma SpanSlice(s: string, i: nat, k: CharClass)
    requires i <= |s|
    ensures forall j :: 0 <= j < Span(s, i, k) ==> InClass(Slice(s, i, Span(s, i, k))[j], k)
  {
    SpanRun(s, i, k);
    var n := Span(s, i, k);
    forall j | 0 <= j < n
      ensures InClass(Slice(s, i, n)[j], k)
    {
      assert Slice(s, i, n)[j] == s[i + j];
    }
  }

  /** Where the run of spaces starting at `p` ends: a greedy ` *`. */
  function SkipSpaces(s: string, p: nat): (q: nat)
    requires p <= |s|
    ensures p <= q <= |s|
  {
    p + Span(s, p, Space)
  }

  /** Only spaces lie between `p` and `SkipSpaces(s, p)`, and no space follows. */
  lemma SkipSpacesRun(s: string, p: nat)
    requires p <= |s|
    ensures forall k :: p <= k < SkipSpaces(s, p) ==> s[k] == ' '
    ensures SkipSpaces(s, p) == |s| || s[SkipSpaces(s, p)] != ' '
  {
    SpanRun(s, p, Space);
  }

  /** Skipping spaces a second time stays put. */
  lemma SkipSpacesIdempotent(s: string, p: nat)
    requires p <= |s|
    ensures SkipSpaces(s, SkipSpaces(s, p)) == SkipSpaces(s, p)
  {
    SkipSpacesRun(s, p);
  }

  /** Index of the end of the line holding index `i`: where a greedy `.*` from `i` stops. */
  function LineEnd(s: string, i: nat): (e: nat)
    requires i <= |s|
    ensures i <= e <= |s|
  {
    i + Span(s, i, NotNewline)
  }

  /** No newline lies between `i` and `LineEnd(s, i)`, and a newline or the end
      of the text follows. */
  lemma LineEndRun(s: string, i: nat)
    requires i <= |s|
    ensures forall j :: i <= j < LineEnd(s, i) ==> s[j] != '\n'
    ensures LineEnd(s, i) == |s| || s[LineEnd(s, i)] == '\n'
  {
    SpanRun(s, i, NotNewline);
  }
}
