/**
 * The string operations the parser relies on, over code points: first-occurrence
 * search (Rust's `str::find`), splitting on a delimiter (`str::split`) and
 * deleting every NUL character (`str::replace("\x00", "")`).
 */
module Text {
  import opened Wrappers

  /** The NUL character, stripped from every extracted field. */
  const Nul: char := 0 as char

  /** `pat` occurs in `s` starting at position `i`. */
  predicate OccursAt(s: string, pat: string, i: int) {
    0 <= i && i + |pat| <= |s| && s[i..i + |pat|] == pat
  }

  /** `pat` occurs somewhere in `s`. */
  ghost predicate Contains(s: string, pat: string) {
    exists i :: OccursAt(s, pat, i)
  }

  // ---------------------------------------------------------------------------
  // Search

  /** `k` is the first position where `pat` occurs in `s`. */
  predicate FirstAt(s: string, pat: string, k: nat) {
    OccursAt(s, pat, k) && forall j :: 0 <= j < k ==> !OccursAt(s, pat, j)
  }

  /** The smallest position where `pat` occurs in `s`, or None when it never occurs. */
  function Find(s: string, pat: string): (r: Option<nat>)
    ensures r.Some? ==> FirstAt(s, pat, r.value)
    ensures r.None? <==> !Contains(s, pat)
    decreases |s|
  {
    if |s| < |pat| then None
    else if s[..|pat|] == pat then Some(0)
    else
      assert !OccursAt(s, pat, 0);
      OccursInTail(s, pat);
      match Find(s[1..], pat)
      case None => None
      case Some(k) => Some(k + 1)
  }

  /** An occurrence past the first position of `s` is an occurrence in `s[1..]`. */
  lemma OccursInTail(s: string, pat: string)
    requires |s| > 0
    ensures forall j :: 1 <= j ==> (OccursAt(s, pat, j) <==> OccursAt(s[1..], pat, j - 1))
  {
    forall j | 1 <= j ensures OccursAt(s, pat, j) <==> OccursAt(s[1..], pat, j - 1) {
      if j + |pat| <= |s| {
        assert s[1..][j - 1..j - 1 + |pat|] == s[j..j + |pat|];
      }
    }
  }

  /** A first occurrence determines the result of Find. */
  lemma FindIsFirstOccurrence(s: string, pat: string, k: nat)
    requires FirstAt(s, pat, k)
    ensures Find(s, pat) == Some(k)
  {
  }

  // ---------------------------------------------------------------------------
  // Splitting and joining

  /**
   * The pieces of `s` between the non-overlapping occurrences of `delim`,
   * found from left to right. There is always at least one piece.
   */
  function Split(s: string, delim: string): (pieces: seq<string>)
    requires |delim| > 0
    ensures |pieces| >= 1
    decreases |s|
  {
    match Find(s, delim)
    case None => [s]
    case Some(i) => [s[..i]] + Split(s[i + |delim|..], delim)
  }

  /** The pieces glued back together with `delim` between consecutive ones. */
  function Join(pieces: seq<string>, delim: string): string
  {
    if pieces == [] then []
    else if |pieces| == 1 then pieces[0]
    else pieces[0] + delim + Join(pieces[1..], delim)
  }

  /**
   * The number of non-overlapping occurrences of `delim` in `s`, counted by
   * scanning position by position (a definition independent of Find).
   */
  function Occurrences(s: string, delim: string): nat
    requires |delim| > 0
    decreases |s|
  {
    if |s| < |delim| then 0
    else if s[..|delim|] == delim then 1 + Occurrences(s[|delim|..], delim)
    else Occurrences(s[1..], delim)
  }

  /** Joining the pieces with the delimiter gives back the original text. */
  lemma {:induction false} JoinSplit(s: string, delim: string)
    requires |delim| > 0
    ensures Join(Split(s, delim), delim) == s
    decreases |s|
  {
    var f := Find(s, delim);
    if f.Some? {
      var i := f.value;
      var rest := s[i + |delim|..];
      SplitAtFirst(s, delim, i);
      JoinSplit(rest, delim);
    }
  }

  /** One step of Split: the piece before the first occurrence, then the rest. */
  lemma SplitAtFirst(s: string, delim: string, i: nat)
    requires |delim| > 0
    requires Find(s, delim) == Some(i)
    ensures i + |delim| <= |s|
    ensures Split(s, delim) == [s[..i]] + Split(s[i + |delim|..], delim)
    ensures s == s[..i] + delim + s[i + |delim|..]
  {
    AroundOccurrence(s, delim, i);
  }

  /** A text is the part before an occurrence, the occurrence and the part after it. */
  lemma AroundOccurrence(s: string, pat: string, i: nat)
    requires OccursAt(s, pat, i)
    ensures s == s[..i] + pat + s[i + |pat|..]
  {
    assert s[..i] + s[i..] == s;
    assert s[i..] == s[i..i + |pat|] + s[i + |pat|..];
  }

  /** No piece contains the delimiter. */
  lemma {:induction false} SplitPiecesAvoidDelimiter(s: string, delim: string)
    requires |delim| > 0
    ensures forall k :: 0 <= k < |Split(s, delim)| ==> !Contains(Split(s, delim)[k], delim)
    decreases |s|
  {
    var f := Find(s, delim);
    if f.Some? {
      var i := f.value;
      SplitAtFirst(s, delim, i);
      SplitPiecesAvoidDelimiter(s[i + |delim|..], delim);
      PrefixBeforeFirstOccurrence(s, delim, i);
    }
  }

  /** The text before the first occurrence of `pat` does not contain `pat`. */
  lemma PrefixBeforeFirstOccurrence(s: string, pat: string, i: nat)
    requires |pat| > 0 && i <= |s|
    requires forall j :: 0 <= j < i ==> !OccursAt(s, pat, j)
    ensures !Contains(s[..i], pat)
  {
    if Contains(s[..i], pat) {
      var j :| OccursAt(s[..i], pat, j);
      assert s[..i][j..j + |pat|] == s[j..j + |pat|];
      assert OccursAt(s, pat, j);
    }
  }

  /** Splitting yields one more piece than there are occurrences of the delimiter. */
  lemma {:induction false} SplitCount(s: string, delim: string)
    requires |delim| > 0
    ensures |Split(s, delim)| == Occurrences(s, delim) + 1
    decreases |s|
  {
    var f := Find(s, delim);
    if f.None? {
      NoOccurrences(s, delim);
    } else {
      var i := f.value;
      SplitAtFirst(s, delim, i);
      SplitCount(s[i + |delim|..], delim);
      OccurrencesFromFirst(s, delim, i);
    }
  }

  /** A text without the delimiter has no occurrences of it. */
  lemma {:induction false} NoOccurrences(s: string, delim: string)
    requires |delim| > 0
    requires !Contains(s, delim)
    ensures Occurrences(s, delim) == 0
    decreases |s|
  {
    if |s| >= |delim| {
      assert !OccursAt(s, delim, 0);
      OccursInTail(s, delim);
      forall j | 0 <= j ensures !OccursAt(s[1..], delim, j) {
        assert !OccursAt(s, delim, j + 1);
      }
      NoOccurrences(s[1..], delim);
    }
  }

  /** Scanning skips the positions before the first occurrence and counts it. */
  lemma {:induction false} OccurrencesFromFirst(s: string, delim: string, i: nat)
    requires |delim| > 0
    requires OccursAt(s, delim, i)
    requires forall j :: 0 <= j < i ==> !OccursAt(s, delim, j)
    ensures Occurrences(s, delim) == 1 + Occurrences(s[i + |delim|..], delim)
    decreases i
  {
    if i == 0 {
      assert s[..|delim|] == delim;
    } else {
      assert !OccursAt(s, delim, 0);
      assert s[..|delim|] != delim;
      var t := s[1..];
      OccursInTail(s, delim);
      forall j | 0 <= j < i - 1 ensures !OccursAt(t, delim, j) {
        assert !OccursAt(s, delim, j + 1);
      }
      OccurrencesFromFirst(t, delim, i - 1);
      assert t[i - 1 + |delim|..] == s[i + |delim|..];
    }
  }

  /** No proper suffix of `d` is also a prefix of it, so occurrences cannot overlap. */
  predicate Borderless(d: string) {
    forall k :: 0 < k < |d| ==> d[k..] != d[..|d| - k]
  }

  /** A piece without the delimiter, followed by the delimiter, is cut right there. */
  lemma FindAfterPiece(c: string, d: string, rest: string)
    requires |d| > 0 && Borderless(d) && !Contains(c, d)
    ensures Find(c + d + rest, d) == Some(|c|)
  {
    var s := c + d + rest;
    assert s[|c|..|c| + |d|] == d;
    forall j | 0 <= j < |c| ensures !OccursAt(s, d, j) {
      if j + |d| <= |c| {
        assert !OccursAt(c, d, j);
        assert c[j..j + |d|] == s[j..j + |d|];
      } else if j + |d| <= |s| {
        // the occurrence would straddle the end of `c`: a border of `d`
        var k := |c| - j;
        assert s[|c|..j + |d|] == d[..|d| - k];
        assert s[j..j + |d|][k..] == s[|c|..j + |d|];
        assert d[k..] != d[..|d| - k];
      }
    }
    FindIsFirstOccurrence(s, d, |c|);
  }

  /** Splitting pieces joined with a borderless delimiter none of them holds gives them back. */
  lemma {:induction false} SplitJoin(pieces: seq<string>, d: string)
    requires |d| > 0 && Borderless(d) && |pieces| > 0
    requires forall i :: 0 <= i < |pieces| ==> !Contains(pieces[i], d)
    ensures Split(Join(pieces, d), d) == pieces
    decreases |pieces|
  {
    if |pieces| == 1 {
      assert Find(pieces[0], d) == None;
    } else {
      var rest := Join(pieces[1..], d);
      FindAfterPiece(pieces[0], d, rest);
      SplitAtFirst(pieces[0] + d + rest, d, |pieces[0]|);
      assert (pieces[0] + d + rest)[..|pieces[0]|] == pieces[0];
      assert (pieces[0] + d + rest)[|pieces[0]| + |d|..] == rest;
      SplitJoin(pieces[1..], d);
      assert pieces == [pieces[0]] + pieces[1..];
    }
  }

  // ---------------------------------------------------------------------------
  // NUL stripping

  /** `s` with every NUL character removed, the other characters in order. */
  function StripNul(s: string): (r: string)
    ensures Nul !in r
    ensures |r| <= |s|
  {
    if s == [] then [] else (if s[0] == Nul then [] else [s[0]]) + StripNul(s[1..])
  }

  /** Stripping keeps every character other than NUL as often as it occurs. */
  lemma {:induction false} StripNulCounts(s: string)
    ensures forall c :: c != Nul ==> multiset(StripNul(s))[c] == multiset(s)[c]
    decreases |s|
  {
    if s != [] {
      assert s == [s[0]] + s[1..];
      StripNulCounts(s[1..]);
    }
  }

  /** Stripping distributes over concatenation, so the order of characters is kept. */
  lemma {:induction false} StripNulAppend(a: string, b: string)
    ensures StripNul(a + b) == StripNul(a) + StripNul(b)
    decreases |a|
  {
    if a == [] {
      assert a + b == b;
    } else {
      var head := if a[0] == Nul then [] else [a[0]];
      assert (a + b)[0] == a[0];
      assert (a + b)[1..] == a[1..] + b;
      StripNulAppend(a[1..], b);
      calc {
        StripNul(a + b);
        head + StripNul(a[1..] + b);
        head + (StripNul(a[1..]) + StripNul(b));
        (head + StripNul(a[1..])) + StripNul(b);
      }
    }
  }

  /** Stripping changes a text exactly when the text holds a NUL. */
  lemma {:induction false} StripNulIdentity(s: string)
    ensures StripNul(s) == s <==> Nul !in s
  {
    if Nul !in s {
      StripNulNoNul(s);
    }
  }

  lemma {:induction false} StripNulNoNul(s: string)
    requires Nul !in s
    ensures StripNul(s) == s
    decreases |s|
  {
    if s != [] {
      assert s[0] != Nul;
      assert Nul !in s[1..];
      StripNulNoNul(s[1..]);
    }
  }

  /** Stripping twice is stripping once. */
  lemma StripNulIdempotent(s: string)
    ensures StripNul(StripNul(s)) == StripNul(s)
  {
    StripNulNoNul(StripNul(s));
  }
}
