/**
  Python's string operations as far as the path derivation needs them:
  `str.replace(old, new)` (no count, so every occurrence), and, as an
  independent reference for it, `str.find`, `str.split` and `str.join`.
 */
module PyStr {

  /** `pat` occurs in `s` starting at index `i`. */
  predicate OccursAt(s: string, pat: string, i: int)
  {
    0 <= i && i + |pat| <= |s| && s[i..i + |pat|] == pat
  }

  /** `pat` occurs somewhere in `s` (Python's `pat in s`). */
  ghost predicate Contains(s: string, pat: string)
  {
    exists i :: OccursAt(s, pat, i)
  }

  /**
    `s.replace(pat, rep)`: scans left to right and substitutes every
    non-overlapping occurrence of `pat`. An empty `pat` inserts `rep` before
    every character and once at the end, as CPython does.
   */
  function Replace(s: string, pat: string, rep: string): (r: string)
    ensures pat == [] ==> |r| == |s| + (|s| + 1) * |rep|
    ensures pat != [] && |rep| == |pat| ==> |r| == |s|
    decreases |s|
  {
    if pat == [] then
      if s == [] then rep else rep + [s[0]] + Replace(s[1..], pat, rep)
    else if OccursAt(s, pat, 0) then rep + Replace(s[|pat|..], pat, rep)
    else if s == [] then []
    else [s[0]] + Replace(s[1..], pat, rep)
  }

  /** `s.find(pat)`: the leftmost index at which `pat` occurs, or -1. */
  function Find(s: string, pat: string): (i: int)
    ensures -1 <= i <= |s|
    ensures i >= 0 ==> OccursAt(s, pat, i)
    ensures forall j :: 0 <= j && (i < 0 || j < i) ==> !OccursAt(s, pat, j)
    decreases |s|
  {
    if OccursAt(s, pat, 0) then 0
    else if s == [] then -1
    else
      var k := Find(s[1..], pat);
      assert forall j :: 1 <= j ==> (OccursAt(s, pat, j) <==> OccursAt(s[1..], pat, j - 1)) by {
        forall j | 1 <= j ensures OccursAt(s, pat, j) <==> OccursAt(s[1..], pat, j - 1) {
          OccursInTail(s, pat, j);
        }
      }
      if k < 0 then -1 else k + 1
  }

  /** `s.split(pat)` for a non-empty separator: the pieces between the
      leftmost non-overlapping occurrences. */
  function Split(s: string, pat: string): (parts: seq<string>)
    requires pat != []
    ensures |parts| >= 1
    decreases |s|
  {
    var i := Find(s, pat);
    if i < 0 then [s] else [s[..i]] + Split(s[i + |pat|..], pat)
  }

  /** Cutting `s` at `i` and `j` and pasting the three pieces gives `s`. */
  lemma Decompose(s: string, i: int, j: int)
    requires 0 <= i <= j <= |s|
    ensures s == s[..i] + s[i..j] + s[j..]
  {
  }

  lemma ConcatAssoc(a: string, b: string, c: string)
    ensures a + (b + c) == a + b + c
  {
  }

  /** The leftmost occurrence splits off the first piece. */
  lemma SplitAtFirst(s: string, pat: string)
    requires pat != [] && Find(s, pat) >= 0
    ensures Split(s, pat) == [s[..Find(s, pat)]] + Split(s[Find(s, pat) + |pat|..], pat)
  {
  }

  /** `sep.join(parts)`. */
  function Join(parts: seq<string>, sep: string): string
  {
    if |parts| == 0 then []
    else if |parts| == 1 then parts[0]
    else parts[0] + sep + Join(parts[1..], sep)
  }

  lemma OccursInTail(s: string, pat: string, j: int)
    requires s != [] && 1 <= j
    ensures OccursAt(s, pat, j) <==> OccursAt(s[1..], pat, j - 1)
  {
    if j + |pat| <= |s| {
      assert s[1..][j - 1..j - 1 + |pat|] == s[j..j + |pat|];
    }
  }

  lemma JoinCons(a: string, parts: seq<string>, sep: string)
    requires |parts| >= 1
    ensures Join([a] + parts, sep) == a + sep + Join(parts, sep)
  {
    assert ([a] + parts)[1..] == parts;
  }

  lemma ReplaceSkip(s: string, pat: string, rep: string)
    requires pat != [] && s != [] && !OccursAt(s, pat, 0)
    ensures Replace(s, pat, rep) == [s[0]] + Replace(s[1..], pat, rep)
  {
  }

  lemma ReplaceHit(s: string, pat: string, rep: string)
    requires pat != [] && OccursAt(s, pat, 0)
    ensures Replace(s, pat, rep) == rep + Replace(s[|pat|..], pat, rep)
  {
  }

  /** A stretch of `s` in which `pat` never starts is copied unchanged. */
  lemma {:induction false} ReplaceCopiesPrefix(s: string, pat: string, rep: string, i: int)
    requires pat != [] && 0 <= i <= |s|
    requires forall j :: 0 <= j < i ==> !OccursAt(s, pat, j)
    ensures Replace(s, pat, rep) == s[..i] + Replace(s[i..], pat, rep)
  {
    if i > 0 {
      assert Replace(s[1..], pat, rep) == s[1..][..i - 1] + Replace(s[1..][i - 1..], pat, rep) by {
        NoOccurrenceInTail(s, pat, i);
        ReplaceCopiesPrefix(s[1..], pat, rep, i - 1);
      }
      assert !OccursAt(s, pat, 0);
      ReplaceCopiesStep(s, pat, rep, i);
    }
  }

  /** The step of `ReplaceCopiesPrefix`: one more copied character in front. */
  lemma ReplaceCopiesStep(s: string, pat: string, rep: string, i: int)
    requires pat != [] && 0 < i <= |s| && !OccursAt(s, pat, 0)
    requires Replace(s[1..], pat, rep) == s[1..][..i - 1] + Replace(s[1..][i - 1..], pat, rep)
    ensures Replace(s, pat, rep) == s[..i] + Replace(s[i..], pat, rep)
  {
    ReplaceSkip(s, pat, rep);
    ConsSlices(s, i);
    ConcatAssoc([s[0]], s[1..][..i - 1], Replace(s[i..], pat, rep));
  }

  /** Slicing the tail of `s` at `i - 1` is slicing `s` at `i`. */
  lemma ConsSlices(s: string, i: int)
    requires 0 < i <= |s|
    ensures [s[0]] + s[1..][..i - 1] == s[..i]
    ensures s[1..][i - 1..] == s[i..]
  {
  }

  lemma NoOccurrenceInTail(s: string, pat: string, i: int)
    requires s != [] && 1 <= i
    requires forall j :: 0 <= j < i ==> !OccursAt(s, pat, j)
    ensures forall j :: 0 <= j < i - 1 ==> !OccursAt(s[1..], pat, j)
  {
    forall j | 0 <= j < i - 1
      ensures !OccursAt(s[1..], pat, j)
    {
      OccursInTail(s, pat, j + 1);
    }
  }

  /** Reference characterisation: replacing every occurrence is splitting at
      every occurrence and joining the pieces with the replacement. */
  lemma {:induction false} ReplaceIsJoinOfSplit(s: string, pat: string, rep: string)
    requires pat != []
    ensures Replace(s, pat, rep) == Join(Split(s, pat), rep)
    decreases |s|
  {
    var i := Find(s, pat);
    if i < 0 {
      ReplaceNoMatch(s, pat, rep);
    } else {
      ReplaceIsJoinOfSplit(s[i + |pat|..], pat, rep);
      ReplaceFirstMatch(s, pat, rep, i);
    }
  }

  lemma ReplaceNoMatch(s: string, pat: string, rep: string)
    requires pat != [] && Find(s, pat) < 0
    ensures Replace(s, pat, rep) == Join(Split(s, pat), rep)
  {
    ReplaceCopiesPrefix(s, pat, rep, |s|);
    assert s[|s|..] == [];
    assert s[..|s|] == s;
    assert Split(s, pat) == [s];
  }

  /** The step of `ReplaceIsJoinOfSplit` at the leftmost occurrence `i`. */
  lemma ReplaceFirstMatch(s: string, pat: string, rep: string, i: int)
    requires pat != [] && i == Find(s, pat) && i >= 0
    requires Replace(s[i + |pat|..], pat, rep) == Join(Split(s[i + |pat|..], pat), rep)
    ensures Replace(s, pat, rep) == Join(Split(s, pat), rep)
  {
    var head, rest := s[..i], s[i + |pat|..];
    assert Replace(s, pat, rep) == head + Replace(s[i..], pat, rep) by {
      ReplaceCopiesPrefix(s, pat, rep, i);
    }
    ReplaceAtMatch(s, pat, rep, i);
    JoinAtFirst(s, pat, rep);
    ConcatAssoc(head, rep, Replace(rest, pat, rep));
  }

  /** At an occurrence, the replacement is emitted and the scan resumes after it. */
  lemma ReplaceAtMatch(s: string, pat: string, rep: string, i: int)
    requires pat != [] && OccursAt(s, pat, i)
    ensures Replace(s[i..], pat, rep) == rep + Replace(s[i + |pat|..], pat, rep)
  {
    var from := s[i..];
    assert OccursAt(from, pat, 0) by {
      assert from[0..|pat|] == s[i..i + |pat|];
    }
    ReplaceHit(from, pat, rep);
    assert from[|pat|..] == s[i + |pat|..];
  }

  /** Joining the split of `s` puts the first piece, then the separator, in front. */
  lemma JoinAtFirst(s: string, pat: string, sep: string)
    requires pat != [] && Find(s, pat) >= 0
    ensures Join(Split(s, pat), sep)
         == s[..Find(s, pat)] + sep + Join(Split(s[Find(s, pat) + |pat|..], pat), sep)
  {
    SplitAtFirst(s, pat);
    JoinCons(s[..Find(s, pat)], Split(s[Find(s, pat) + |pat|..], pat), sep);
  }

  /** Joining the pieces back with the separator gives the original string. */
  lemma {:induction false} SplitJoinRoundTrip(s: string, pat: string)
    requires pat != []
    ensures Join(Split(s, pat), pat) == s
    decreases |s|
  {
    var i := Find(s, pat);
    if i < 0 {
      assert Split(s, pat) == [s];
    } else {
      SplitJoinRoundTrip(s[i + |pat|..], pat);
      SplitJoinStep(s, pat, i);
    }
  }

  /** The step of `SplitJoinRoundTrip` at the leftmost occurrence `i`. */
  lemma SplitJoinStep(s: string, pat: string, i: int)
    requires pat != [] && i == Find(s, pat) && i >= 0
    requires Join(Split(s[i + |pat|..], pat), pat) == s[i + |pat|..]
    ensures Join(Split(s, pat), pat) == s
  {
    JoinAtFirst(s, pat, pat);
    assert s == s[..i] + pat + s[i + |pat|..] by {
      assert s[i..i + |pat|] == pat;
      Decompose(s, i, i + |pat|);
    }
  }

  /** No piece of a split holds the separator. */
  lemma {:induction false} SplitPiecesAvoidSeparator(s: string, pat: string)
    requires pat != []
    ensures forall k :: 0 <= k < |Split(s, pat)| ==> !Contains(Split(s, pat)[k], pat)
    decreases |s|
  {
    var i := Find(s, pat);
    if i < 0 {
      assert Split(s, pat) == [s];
    } else {
      var rest := s[i + |pat|..];
      SplitPiecesAvoidSeparator(rest, pat);
      var head := s[..i];
      forall j | OccursAt(head, pat, j)
        ensures false
      {
        assert head[j..j + |pat|] == s[j..j + |pat|];
        assert OccursAt(s, pat, j);
      }
      SplitAtFirst(s, pat);
    }
  }

  /** Replacing a pattern by itself is the identity, for any pattern. */
  lemma {:induction false} ReplaceWithItself(s: string, pat: string)
    ensures Replace(s, pat, pat) == s
    decreases |s|
  {
    if pat == [] {
      if s != [] {
        ReplaceWithItself(s[1..], pat);
        assert s == [s[0]] + s[1..];
      }
    } else {
      ReplaceIsJoinOfSplit(s, pat, pat);
      SplitJoinRoundTrip(s, pat);
    }
  }

  /** A non-empty pattern that does not occur leaves the string unchanged. */
  lemma ReplaceWhenAbsent(s: string, pat: string, rep: string)
    ensures pat != [] && !Contains(s, pat) ==> Replace(s, pat, rep) == s
  {
    if pat != [] && !Contains(s, pat) {
      ReplaceIsJoinOfSplit(s, pat, rep);
      assert Find(s, pat) < 0;
    }
  }

  /** No proper suffix of `pat` is also a prefix of it, so no occurrence of
      `pat` can overlap a copy of `pat` appended at the end. */
  predicate Unbordered(pat: string)
  {
    forall t :: 0 < t < |pat| ==> pat[t..] != pat[..|pat| - t]
  }

  lemma OccursWithin(x: string, y: string, pat: string, j: int)
    requires 0 <= j && j + |pat| <= |x|
    ensures OccursAt(x + y, pat, j) <==> OccursAt(x, pat, j)
  {
    assert (x + y)[j..j + |pat|] == x[j..j + |pat|];
  }

  /** An occurrence that starts in `x` and runs into an appended `pat` makes
      a suffix of `pat` equal to a prefix of it. */
  lemma OccursAcrossEnd(x: string, pat: string, j: int)
    requires 0 <= j < |x| < j + |pat|
    ensures OccursAt(x + pat, pat, j) ==> pat[|x| - j..] == pat[..|pat| - (|x| - j)]
  {
    var s, t := x + pat, |x| - j;
    if OccursAt(s, pat, j) {
      forall m | 0 <= m < |pat| - t
        ensures pat[t..][m] == pat[..|pat| - t][m]
      {
        assert s[j + t + m] == pat[m];
        assert s[j..j + |pat|][t + m] == s[j + t + m];
      }
    }
  }

  /** With an unbordered pattern and a pattern-free `x`, only the appended
      copy of `pat` is replaced. */
  lemma ReplaceAtEnd(x: string, pat: string, rep: string)
    requires pat != [] && Unbordered(pat) && !Contains(x, pat)
    ensures Replace(x + pat, pat, rep) == x + rep
  {
    var s := x + pat;
    forall j | 0 <= j < |x|
      ensures !OccursAt(s, pat, j)
    {
      if j + |pat| <= |x| {
        OccursWithin(x, pat, pat, j);
      } else {
        OccursAcrossEnd(x, pat, j);
      }
    }
    ReplaceCopiesPrefix(s, pat, rep, |x|);
    assert s[..|x|] == x;
    assert s[|x|..] == pat;
    assert OccursAt(pat, pat, 0);
    assert pat[|pat|..] == [];
  }
}
