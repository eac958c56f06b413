/** The `java.lang.String` operations the notes app relies on, with Java's semantics spelled out. */
module Strings {

  /** `p` occurs in `s` starting at index `i`. */
  predicate PrefixAt(s: string, i: int, p: string) {
    0 <= i && i + |p| <= |s| && s[i..i + |p|] == p
  }

  /** `r` is what `s.indexOf(p, from)` returns: the first occurrence of `p` at or after `from`, or -1. */
  ghost predicate IsFirstIndex(s: string, p: string, from: nat, r: int) {
    && (r == -1 || (from <= r && PrefixAt(s, r, p)))
    && forall j :: from <= j && (r == -1 || j < r) ==> !PrefixAt(s, j, p)
  }

  /** Java's `s.indexOf(p, from)` for a non-empty `p`. */
  function IndexOf(s: string, p: string, from: nat): (r: int)
    requires |p| > 0
    ensures r == -1 || (from <= r && PrefixAt(s, r, p))
    decreases |s| - from
  {
    if from + |p| > |s| then -1
    else if s[from..from + |p|] == p then from
    else IndexOf(s, p, from + 1)
  }

  /** `IndexOf` finds the first occurrence: none is skipped. */
  lemma {:induction false} IndexOfIsFirst(s: string, p: string, from: nat)
    requires |p| > 0
    ensures IsFirstIndex(s, p, from, IndexOf(s, p, from))
    decreases |s| - from
  {
    if from + |p| <= |s| && s[from..from + |p|] != p {
      IndexOfIsFirst(s, p, from + 1);
    }
  }

  /** The first occurrence is unique: anything with its defining property is `IndexOf`. */
  lemma {:induction false} IndexOfUnique(s: string, p: string, from: nat, r: int)
    requires |p| > 0 && IsFirstIndex(s, p, from, r)
    ensures IndexOf(s, p, from) == r
  {
    IndexOfIsFirst(s, p, from);
  }

  /** Java's `s.contains(p)`: a literal (not a regular-expression) search. */
  predicate Contains(s: string, p: string)
    requires |p| > 0
  {
    IndexOf(s, p, 0) != -1
  }

  /** `contains` holds exactly when the pattern occurs somewhere in the text. */
  lemma ContainsAt(s: string, p: string)
    requires |p| > 0
    ensures Contains(s, p) <==> exists i :: PrefixAt(s, i, p)
  {
    IndexOfIsFirst(s, p, 0);
  }

  /** The text behind the first character of a concatenation. */
  lemma DropFirst(a: string, c: string)
    requires |a| > 0
    ensures (a + c)[1..] == a[1..] + c
  {
  }

  /** A one-character pattern occurs exactly where that character stands. */
  lemma {:induction false} PrefixAtChar(s: string, i: int, c: char)
    ensures PrefixAt(s, i, [c]) <==> 0 <= i < |s| && s[i] == c
  {
    if 0 <= i < |s| {
      assert s[i..i + 1] == [s[i]];
    }
  }

  /** An occurrence of `p` inside `s` needs every character of `p` to be in `s`. */
  lemma {:induction false} PrefixAtChars(s: string, i: int, p: string, k: nat)
    requires k < |p| && PrefixAt(s, i, p)
    ensures p[k] in s
  {
    assert s[i + k] == s[i..i + |p|][k];
  }

  /** Occurrences in a concatenation `a + c` that start after `a` are occurrences in `c`. */
  lemma {:induction false} PrefixAtShift(a: string, c: string, j: int, p: string)
    requires j >= |a|
    ensures PrefixAt(a + c, j, p) <==> PrefixAt(c, j - |a|, p)
  {
    if j + |p| <= |a| + |c| {
      assert (a + c)[j..j + |p|] == c[j - |a|..j - |a| + |p|];
    }
  }

  /** When `a` cannot start an occurrence of `p`, searching `a + c` is searching `c`. */
  lemma {:induction false} IndexOfSkip(a: string, c: string, p: string)
    requires |p| > 0
    requires forall j :: 0 <= j < |a| ==> !PrefixAt(a + c, j, p)
    ensures IndexOf(a + c, p, 0) == (if IndexOf(c, p, 0) == -1 then -1 else |a| + IndexOf(c, p, 0))
  {
    var k := IndexOf(c, p, 0);
    var r := if k == -1 then -1 else |a| + k;
    IndexOfIsFirst(c, p, 0);
    forall j | 0 <= j && (r == -1 || j < r)
      ensures !PrefixAt(a + c, j, p)
    {
      if j >= |a| {
        PrefixAtShift(a, c, j, p);
      }
    }
    if r != -1 {
      PrefixAtShift(a, c, r, p);
    }
    IndexOfUnique(a + c, p, 0, r);
  }

  /** If the first character of `p` is not in `a`, no occurrence of `p` in `a + c` starts inside `a`. */
  lemma {:induction false} NoStartIn(a: string, c: string, p: string)
    requires |p| > 0 && p[0] !in a
    ensures forall j :: 0 <= j < |a| ==> !PrefixAt(a + c, j, p)
  {
    forall j | 0 <= j < |a|
      ensures !PrefixAt(a + c, j, p)
    {
      if j + |p| <= |a| + |c| {
        assert (a + c)[j..j + |p|][0] == a[j];
      }
    }
  }

  /** Java's `s.replace(pat, rep)`: every occurrence of `pat`, left to right and never overlapping,
      becomes `rep`. Scanning from the left, an occurrence at the current position is replaced
      and the scan resumes after it; any other character is copied. */
  function ReplaceLiteral(s: string, pat: string, rep: string): (r: string)
    requires |pat| > 0
    decreases |s|
  {
    if |s| == 0 then ""
    else if PrefixAt(s, 0, pat) then rep + ReplaceLiteral(s[|pat|..], pat, rep)
    else [s[0]] + ReplaceLiteral(s[1..], pat, rep)
  }

  /** `replace` leaves a text in which the pattern does not occur as it is. */
  lemma {:induction false} ReplaceLiteralNone(s: string, pat: string, rep: string)
    requires |pat| > 0 && !Contains(s, pat)
    ensures ReplaceLiteral(s, pat, rep) == s
    decreases |s|
  {
    ContainsAt(s, pat);
    if |s| > 0 {
      assert !PrefixAt(s, 0, pat);
      ContainsAt(s[1..], pat);
      forall i | PrefixAt(s[1..], i, pat)
        ensures PrefixAt(s, i + 1, pat)
      {
        assert s[i + 1..i + 1 + |pat|] == s[1..][i..i + |pat|];
      }
      ReplaceLiteralNone(s[1..], pat, rep);
    }
  }

  /** Text that cannot start the pattern is copied through unchanged. */
  lemma {:induction false} ReplaceLiteralSkip(a: string, c: string, pat: string, rep: string)
    requires |pat| > 0 && pat[0] !in a
    ensures ReplaceLiteral(a + c, pat, rep) == a + ReplaceLiteral(c, pat, rep)
    decreases |a|
  {
    if |a| > 0 {
      var s := a + c;
      assert s[0] == a[0];
      assert !PrefixAt(s, 0, pat) by {
        if |pat| <= |s| {
          assert s[0..|pat|][0] == s[0];
        }
      }
      DropFirst(a, c);
      ReplaceLiteralSkip(a[1..], c, pat, rep);
      calc {
        ReplaceLiteral(s, pat, rep);
        [a[0]] + ReplaceLiteral(a[1..] + c, pat, rep);
        [a[0]] + (a[1..] + ReplaceLiteral(c, pat, rep));
        { assert [a[0]] + a[1..] == a; }
        a + ReplaceLiteral(c, pat, rep);
      }
    } else {
      assert a + c == c;
    }
  }

  /** A string without the pattern's first character is left as it is. */
  lemma {:induction false} ReplaceLiteralAbsent(s: string, pat: string, rep: string)
    requires |pat| > 0 && pat[0] !in s
    ensures ReplaceLiteral(s, pat, rep) == s
  {
    ReplaceLiteralSkip(s, "", pat, rep);
    assert s + "" == s;
  }

  /** An occurrence at the very start is replaced, and the scan resumes right after it. */
  lemma {:induction false} ReplaceLiteralHead(c: string, pat: string, rep: string)
    requires |pat| > 0
    ensures ReplaceLiteral(pat + c, pat, rep) == rep + ReplaceLiteral(c, pat, rep)
  {
    assert PrefixAt(pat + c, 0, pat) by {
      assert (pat + c)[..|pat|] == pat;
    }
    assert (pat + c)[|pat|..] == c;
  }

  /** The pieces of `s` between its `'\n'` characters, empty ones included. */
  function SplitAll(s: string): (r: seq<string>)
    ensures |r| > 0
    ensures forall k :: 0 <= k < |r| ==> '\n' !in r[k]
    decreases |s|
  {
    var i := IndexOf(s, "\n", 0);
    IndexOfIsFirst(s, "\n", 0);
    if i == -1 then
      assert '\n' !in s by {
        forall j | 0 <= j < |s| ensures s[j] != '\n' { PrefixAtChar(s, j, '\n'); }
      }
      [s]
    else
      assert '\n' !in s[..i] by {
        forall j | 0 <= j < i ensures s[j] != '\n' { PrefixAtChar(s, j, '\n'); }
      }
      assert s[i] == '\n' by { PrefixAtChar(s, i, '\n'); }
      [s[..i]] + SplitAll(s[i + 1..])
  }

  /** The pieces joined back together with `'\n'`. */
  function JoinLines(ls: seq<string>): string
    requires |ls| > 0
  {
    if |ls| == 1 then ls[0] else ls[0] + "\n" + JoinLines(ls[1..])
  }

  /** Splitting loses nothing: joining the pieces with `'\n'` gives the string back. */
  lemma {:induction false} SplitAllJoin(s: string)
    ensures JoinLines(SplitAll(s)) == s
    decreases |s|
  {
    var i := IndexOf(s, "\n", 0);
    if i != -1 {
      PrefixAtChar(s, i, '\n');
      SplitAllJoin(s[i + 1..]);
      assert s == s[..i] + "\n" + s[i + 1..];
    }
  }

  /** Java's removal of trailing empty strings from the result of `split`. */
  function DropTrailingEmpty(ls: seq<string>): (r: seq<string>)
    ensures |r| <= |ls| && r == ls[..|r|]
    ensures |r| > 0 ==> r[|r| - 1] != ""
    ensures forall k :: |r| <= k < |ls| ==> ls[k] == ""
  {
    if |ls| > 0 && ls[|ls| - 1] == "" then DropTrailingEmpty(ls[..|ls| - 1]) else ls
  }

  /** Java's `s.split("\n")`: when `s` has no line break the result is `[s]` (so `""` gives `[""]`);
      otherwise the pieces between line breaks with trailing empty pieces removed. */
  function SplitLines(s: string): (r: seq<string>)
    ensures forall k :: 0 <= k < |r| ==> '\n' !in r[k]
  {
    if '\n' !in s then [s] else DropTrailingEmpty(SplitAll(s))
  }

  /** `"".split("\n")` is one empty line. */
  lemma {:induction false} SplitLinesEmpty()
    ensures SplitLines("") == [""]
  {
  }

  /** A text made only of line breaks has no lines at all. */
  lemma {:induction false} SplitLinesOnlyNewlines(s: string)
    requires |s| > 0 && forall k :: 0 <= k < |s| ==> s[k] == '\n'
    ensures SplitLines(s) == []
  {
    assert '\n' in s by { assert s[0] == '\n'; }
    SplitAllOnlyNewlines(s);
  }

  lemma {:induction false} SplitAllOnlyNewlines(s: string)
    requires forall k :: 0 <= k < |s| ==> s[k] == '\n'
    ensures forall k :: 0 <= k < |SplitAll(s)| ==> SplitAll(s)[k] == ""
    decreases |s|
  {
    var i := IndexOf(s, "\n", 0);
    if i == -1 {
      if |s| > 0 {
        PrefixAtChar(s, 0, '\n');
      }
    } else {
      if i > 0 {
        PrefixAtChar(s, 0, '\n');
      }
      SplitAllOnlyNewlines(s[i + 1..]);
    }
  }

  /** Split then join: the lines come back, followed by nothing but the line breaks that were
      dropped with the trailing empty pieces. */
  lemma {:induction false} SplitLinesJoin(s: string)
    requires |SplitLines(s)| > 0
    ensures var j := JoinLines(SplitLines(s));
      |j| <= |s| && s[..|j|] == j && forall k :: |j| <= k < |s| ==> s[k] == '\n'
  {
    if '\n' in s {
      var all := SplitAll(s);
      var r := DropTrailingEmpty(all);
      SplitAllJoin(s);
      JoinPrefix(all, |r|);
    }
  }

  /** Joining a prefix of the pieces gives a prefix of the joined string; when the rest are empty
      pieces, what follows is only line breaks. */
  lemma {:induction false} JoinPrefix(ls: seq<string>, n: nat)
    requires 0 < n <= |ls|
    requires forall k :: n <= k < |ls| ==> ls[k] == ""
    ensures var j := JoinLines(ls[..n]); var full := JoinLines(ls);
      |j| <= |full| && full[..|j|] == j && forall k :: |j| <= k < |full| ==> full[k] == '\n'
  {
    if n == |ls| {
      assert ls[..n] == ls;
    } else if |ls| > 1 {
      if n == 1 {
        assert ls[..1] == [ls[0]];
        JoinAllEmpty(ls[1..]);
      } else {
        assert ls[..n][1..] == ls[1..][..n - 1];
        JoinPrefix(ls[1..], n - 1);
      }
    }
  }

  /** Joining empty pieces gives only line breaks. */
  lemma {:induction false} JoinAllEmpty(ls: seq<string>)
    requires |ls| > 0 && forall k :: 0 <= k < |ls| ==> ls[k] == ""
    ensures forall k :: 0 <= k < |JoinLines(ls)| ==> JoinLines(ls)[k] == '\n'
  {
    if |ls| > 1 {
      JoinAllEmpty(ls[1..]);
    }
  }

  /** A string in which `p` does not occur, followed by one that starts with a character `p`
      lacks: no occurrence of `p` starts in the first string, whatever comes after. */
  lemma {:induction false} NoStraddle(a: string, t: string, x: string, p: string)
    requires |p| > 0 && IndexOf(a, p, 0) == -1
    requires |t| > 0 && t[0] !in p
    ensures forall j :: 0 <= j < |a| ==> !PrefixAt(a + t + x, j, p)
  {
    IndexOfIsFirst(a, p, 0);
    var s := a + t + x;
    forall j | 0 <= j < |a|
      ensures !PrefixAt(s, j, p)
    {
      if j + |p| <= |a| {
        assert !PrefixAt(a, j, p);
        assert s[j..j + |p|] == a[j..j + |p|];
      } else if j + |p| <= |s| {
        assert s[j..j + |p|][|a| - j] == t[0] != p[|a| - j];
      }
    }
  }

  /** A pattern occurs only where its first character does. */
  lemma {:induction false} ContainsFirst(s: string, p: string)
    requires |p| > 0 && Contains(s, p)
    ensures p[0] in s
  {
    PrefixAtChars(s, IndexOf(s, p, 0), p, 0);
  }

  /** The pieces of a split hold only characters of the string. */
  lemma {:induction false} SplitAllChars(s: string, c: char)
    requires c !in s
    ensures forall k :: 0 <= k < |SplitAll(s)| ==> c !in SplitAll(s)[k]
    decreases |s|
  {
    var i := IndexOf(s, "\n", 0);
    if i != -1 {
      SplitAllChars(s[i + 1..], c);
      assert c !in s[..i];
    }
  }

  /** The lines of a split hold only characters of the string. */
  lemma {:induction false} SplitLinesChars(s: string, c: char)
    requires c !in s
    ensures forall k :: 0 <= k < |SplitLines(s)| ==> c !in SplitLines(s)[k]
  {
    if '\n' in s {
      SplitAllChars(s, c);
    }
  }

  /** A string cut at the first occurrence of `p`: the part before holds no occurrence. */
  lemma {:induction false} FirstSplit(l: string, p: string)
    requires |p| > 0 && IndexOf(l, p, 0) != -1
    ensures var i := IndexOf(l, p, 0);
      i + |p| <= |l| && IndexOf(l[..i], p, 0) == -1 && l == l[..i] + p + l[i + |p|..]
  {
    var i := IndexOf(l, p, 0);
    IndexOfIsFirst(l, p, 0);
    forall j | 0 <= j
      ensures !PrefixAt(l[..i], j, p)
    {
      if j + |p| <= i {
        assert l[..i][j..j + |p|] == l[j..j + |p|];
        assert !PrefixAt(l, j, p);
      }
    }
    IndexOfUnique(l[..i], p, 0, -1);
    assert l[i..i + |p|] == p;
    assert l == l[..i] + l[i..i + |p|] + l[i + |p|..];
  }

  /** Searching past a prefix without `p` that ends in a piece `p` shares no character with. */
  lemma {:induction false} IndexPastPiece(a: string, t: string, x: string, p: string)
    requires |p| > 0 && IndexOf(a, p, 0) == -1
    requires |t| > 0 && t[0] !in p && p[0] !in t
    ensures IndexOf(a + t + x, p, 0) == (if IndexOf(x, p, 0) == -1 then -1 else |a + t| + IndexOf(x, p, 0))
  {
    var q := a + t;
    assert forall j :: 0 <= j < |q| ==> !PrefixAt(q + x, j, p) by {
      NoStraddle(a, t, x, p);
      forall j | |a| <= j < |q|
        ensures !PrefixAt(q + x, j, p)
      {
        assert (q + x)[j] == t[j - |a|];
        if j + |p| <= |q + x| {
          assert (q + x)[j..j + |p|][0] == (q + x)[j];
        }
      }
    }
    IndexOfSkip(q, x, p);
  }

  /** Replacing a piece behind a prefix. */
  lemma SpliceShift(q: string, x: string, i: nat, m: nat, rep: string)
    requires i + m <= |x|
    ensures (q + x)[..|q| + i] + rep + (q + x)[|q| + i + m..] == q + (x[..i] + rep + x[i + m..])
  {
    assert (q + x)[..|q| + i] == q + x[..i];
    assert (q + x)[|q| + i + m..] == x[i + m..];
  }

  /** Regrouping a concatenation of four strings. */
  lemma Regroup(a: string, b: string, c: string, d: string)
    ensures a + b + c + d == a + (b + (c + d))
  {
  }

  lemma Assoc<T>(a: seq<T>, b: seq<T>, c: seq<T>)
    ensures a + (b + c) == a + b + c
  {
  }

  /** A slice is its first element followed by the rest of it. */
  lemma SliceCons<T>(s: seq<T>, i: nat, j: nat)
    requires i < j <= |s|
    ensures s[i..j] == [s[i]] + s[i + 1..j]
  {
  }

  /** A slice split in two. */
  lemma SliceSplit<T>(s: seq<T>, i: nat, j: nat, m: nat)
    requires i <= j <= m <= |s|
    ensures s[i..m] == s[i..j] + s[j..m]
  {
  }

  /** A character missing from a text is missing from the parts around any slice of it. */
  lemma PiecesLack(l: string, i: nat, j: nat, ch: char)
    requires i <= j <= |l| && ch !in l
    ensures ch !in l[..i] && ch !in l[j..]
  {
    assert forall t :: 0 <= t < i ==> l[..i][t] == l[t];
    assert forall t :: 0 <= t < |l| - j ==> l[j..][t] == l[j + t];
  }
}
