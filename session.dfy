/**
 * One poll cycle of the main loop (src/main.rs:73-124): decode the whole
 * session file, split it into chunks on "oent", keep the track of every chunk
 * that has all four tags, in chunk order, and show the last one.
 */
module Session {
  import opened Wrappers
  import opened Latin1
  import opened Text
  import opened Tracks

  /** The record delimiter the session file is split on. */
  const Delimiter: string := "oent"

  /** The track an optional parse result carries: none or one. */
  function Present(o: Option<Track>): (ts: seq<Track>)
    ensures |ts| <= 1
    ensures o.Some? ==> ts == [o.value]
  {
    match o
    case None => []
    case Some(t) => [t]
  }

  /** The tracks the parse results carry, in order; the failures are skipped. */
  function Keep(opts: seq<Option<Track>>): (ts: seq<Track>)
    ensures |ts| <= |opts|
  {
    if opts == [] then [] else Present(opts[0]) + Keep(opts[1..])
  }

  /** `f` applied to every element, in order. */
  function Map<A, B>(f: A -> B, xs: seq<A>): (ys: seq<B>)
    ensures |ys| == |xs|
    ensures forall i :: 0 <= i < |xs| ==> ys[i] == f(xs[i])
  {
    seq(|xs|, i requires 0 <= i < |xs| => f(xs[i]))
  }

  lemma MapAppend<A, B>(f: A -> B, a: seq<A>, b: seq<A>)
    ensures Map(f, a + b) == Map(f, a) + Map(f, b)
  {
  }

  /** The parse result of every chunk, in chunk order. */
  function Parses(chunks: seq<string>): (opts: seq<Option<Track>>)
    ensures |opts| == |chunks|
    ensures forall i :: 0 <= i < |chunks| ==> opts[i] == ParseChunk(chunks[i])
  {
    Map(ParseChunk, chunks)
  }

  /** The tracks a single chunk contributes: none or one. */
  function Contribution(chunk: string): (ts: seq<Track>)
    ensures |ts| <= 1
    ensures forall k :: 0 <= k < |ts| ==> FieldsClean(ts[k])
  {
    Present(ParseChunk(chunk))
  }

  /** The tracks of a list of chunks, in chunk order. */
  function TracksOf(chunks: seq<string>): (ts: seq<Track>)
    ensures |ts| <= |chunks|
  {
    Keep(Parses(chunks))
  }

  /** The track list one poll cycle builds from the bytes of the session file. */
  function SessionTracks(content: seq<byte>): (ts: seq<Track>)
    ensures |ts| <= |Split(Decode(content), Delimiter)|
    ensures forall k :: 0 <= k < |ts| ==> FieldsClean(ts[k])
  {
    var chunks := Split(Decode(content), Delimiter);
    TracksOfClean(chunks);
    TracksOf(chunks)
  }

  /**
   * The body of the poll loop up to the display: decode, split, and for each
   * chunk look up the four tags, skip the chunk unless all are present, and
   * otherwise push the extracted track.
   */
  method ReadTracks(content: seq<byte>) returns (tracks: seq<Track>)
    ensures tracks == SessionTracks(content)
  {
    var text := Decode(content);
    var chunks := Split(text, Delimiter);
    tracks := [];
    for i := 0 to |chunks|
      invariant tracks == TracksOf(chunks[..i])
    {
      var chunk := chunks[i];
      var titleStart := Find(chunk, TitleTag);
      var artistStart := Find(chunk, ArtistTag);
      var styleStart := Find(chunk, StyleTag);
      var end := Find(chunk, EndTag);
      TracksOfStep(chunks, i);
      if titleStart.None? || artistStart.None? || styleStart.None? || end.None? {
        continue;
      }
      var track := GetTrack(chunk, titleStart.value, artistStart.value, styleStart.value, end.value);
      tracks := tracks + [track];
    }
    assert chunks[..|chunks|] == chunks;
  }

  /** The track shown after a cycle: the last one, if there is any. */
  function Shown(tracks: seq<Track>): (r: Option<string>)
    ensures r.Some? <==> |tracks| > 0
    ensures r.Some? ==> r.value == Display(tracks[|tracks| - 1])
  {
    if |tracks| > 0 then Some(Display(tracks[|tracks| - 1])) else None
  }

  // ---------------------------------------------------------------------------
  // Properties of the track list

  /** Filtering consecutive lists of results is concatenating their filtrates. */
  lemma {:induction false} KeepAppend(a: seq<Option<Track>>, b: seq<Option<Track>>)
    ensures Keep(a + b) == Keep(a) + Keep(b)
    decreases |a|
  {
    if a == [] {
      assert a + b == b;
    } else {
      assert (a + b)[0] == a[0];
      assert (a + b)[1..] == a[1..] + b;
      KeepAppend(a[1..], b);
    }
  }

  /** When every result is a success, filtering keeps all of them. */
  lemma {:induction false} KeepAllPresent(opts: seq<Option<Track>>, ts: seq<Track>)
    requires |opts| == |ts|
    requires forall i :: 0 <= i < |opts| ==> opts[i] == Some(ts[i])
    ensures Keep(opts) == ts
    decreases |opts|
  {
    if opts != [] {
      KeepAllPresent(opts[1..], ts[1..]);
      assert ts == [ts[0]] + ts[1..];
    }
  }

  /** Every kept track is the value of some result. */
  lemma {:induction false} KeepFrom(opts: seq<Option<Track>>, k: nat)
    requires k < |Keep(opts)|
    ensures exists j :: 0 <= j < |opts| && opts[j] == Some(Keep(opts)[k])
    decreases |opts|
  {
    var c := Present(opts[0]);
    if k < |c| {
      assert opts[0] == Some(Keep(opts)[k]);
    } else {
      KeepFrom(opts[1..], k - |c|);
      var j :| 0 <= j < |opts[1..]| && opts[1..][j] == Some(Keep(opts[1..])[k - |c|]);
      assert opts[j + 1] == Some(Keep(opts)[k]);
    }
  }

  /** Filtering keeps a property every successful result has. */
  lemma {:induction false} KeepClean(opts: seq<Option<Track>>)
    requires forall i :: 0 <= i < |opts| && opts[i].Some? ==> FieldsClean(opts[i].value)
    ensures forall k :: 0 <= k < |Keep(opts)| ==> FieldsClean(Keep(opts)[k])
    decreases |opts|
  {
    if opts != [] {
      KeepClean(opts[1..]);
      var c, rest := Present(opts[0]), Keep(opts[1..]);
      assert Keep(opts) == c + rest;
      forall k | 0 <= k < |c + rest| ensures FieldsClean((c + rest)[k]) {
        if k >= |c| {
          assert (c + rest)[k] == rest[k - |c|];
        }
      }
    }
  }

  /** The parse results of consecutive chunk lists are consecutive. */
  lemma ParsesAppend(a: seq<string>, b: seq<string>)
    ensures Parses(a + b) == Parses(a) + Parses(b)
  {
    MapAppend(ParseChunk, a, b);
  }

  /** The track list of consecutive chunk lists is the concatenation of theirs: order is kept. */
  lemma TracksOfAppend(a: seq<string>, b: seq<string>)
    ensures TracksOf(a + b) == TracksOf(a) + TracksOf(b)
  {
    ParsesAppend(a, b);
    KeepAppend(Parses(a), Parses(b));
  }

  /** No extracted field holds a NUL. */
  lemma TracksOfClean(chunks: seq<string>)
    ensures forall k :: 0 <= k < |TracksOf(chunks)| ==> FieldsClean(TracksOf(chunks)[k])
  {
    KeepClean(Parses(chunks));
  }

  /** Chunks that each yield a track contribute exactly those tracks, in order. */
  lemma TracksOfAccepted(chunks: seq<string>, ts: seq<Track>)
    requires |chunks| == |ts|
    requires forall i :: 0 <= i < |chunks| ==> ParseChunk(chunks[i]) == Some(ts[i])
    ensures TracksOf(chunks) == ts
  {
    KeepAllPresent(Parses(chunks), ts);
  }

  /** Extending the chunk list by one chunk extends the tracks by that chunk's contribution. */
  lemma TracksOfStep(chunks: seq<string>, i: nat)
    requires i < |chunks|
    ensures TracksOf(chunks[..i + 1]) == TracksOf(chunks[..i]) + Contribution(chunks[i])
  {
    assert chunks[..i + 1] == chunks[..i] + [chunks[i]];
    TracksOfAppend(chunks[..i], [chunks[i]]);
    SingleChunk(chunks[i]);
  }

  lemma SingleChunk(chunk: string)
    ensures TracksOf([chunk]) == Contribution(chunk)
  {
    assert Parses([chunk]) == [ParseChunk(chunk)];
    assert [ParseChunk(chunk)][1..] == [];
  }

  /** A chunk missing any of the four tags contributes no track. */
  lemma RejectedChunk(before: seq<string>, chunk: string, after: seq<string>)
    requires !HasAllTags(chunk)
    ensures TracksOf(before + [chunk] + after) == TracksOf(before) + TracksOf(after)
  {
    ParseChunkAccepts(chunk);
    SingleChunk(chunk);
    TracksOfAppend(before, [chunk]);
    TracksOfAppend(before + [chunk], after);
  }

  /** A chunk with all four tags contributes exactly its track, in its place. */
  lemma AcceptedChunk(before: seq<string>, chunk: string, after: seq<string>)
    requires HasAllTags(chunk)
    ensures ParseChunk(chunk).Some?
    ensures TracksOf(before + [chunk] + after) == TracksOf(before) + [ParseChunk(chunk).value] + TracksOf(after)
  {
    ParseChunkAccepts(chunk);
    SingleChunk(chunk);
    TracksOfAppend(before, [chunk]);
    TracksOfAppend(before + [chunk], after);
  }

  /** Every track comes from some chunk, whose text it carries. */
  lemma TracksComeFromChunks(chunks: seq<string>, k: nat)
    requires k < |TracksOf(chunks)|
    ensures exists j :: 0 <= j < |chunks| && ParseChunk(chunks[j]) == Some(TracksOf(chunks)[k])
  {
    KeepFrom(Parses(chunks), k);
  }

  /** When the last chunk holds a track, that track is the one shown. */
  lemma ShownIsLastChunk(chunks: seq<string>, chunk: string)
    requires HasAllTags(chunk)
    ensures Shown(TracksOf(chunks + [chunk])) == Some(Display(ParseChunk(chunk).value))
  {
    AcceptedChunk(chunks, chunk, []);
    assert chunks + [chunk] + [] == chunks + [chunk];
  }

  // ---------------------------------------------------------------------------
  // Every extracted field came from a byte

  /** Removing NULs keeps a text byte-valued. */
  lemma {:induction false} StripNulLatin1(s: string)
    requires IsLatin1(s)
    ensures IsLatin1(StripNul(s))
    decreases |s|
  {
    if s != [] {
      StripNulLatin1(s[1..]);
      var head, rest := if s[0] == Nul then [] else [s[0]], StripNul(s[1..]);
      assert StripNul(s) == head + rest;
      forall i | 0 <= i < |head + rest| ensures (head + rest)[i] as int < 256 {
        if i >= |head| {
          assert (head + rest)[i] == rest[i - |head|];
        }
      }
    }
  }

  /** A field of a byte-valued chunk is byte-valued. */
  lemma FieldLatin1(chunk: string, start: nat, next: nat)
    requires next <= |chunk| && IsLatin1(chunk)
    ensures IsLatin1(Field(chunk, start, next))
  {
    if start + Skip < next {
      StripNulLatin1(chunk[start + Skip..next]);
    }
  }

  /** The track of a byte-valued chunk has byte-valued fields. */
  lemma ParseChunkLatin1(chunk: string)
    requires IsLatin1(chunk) && ParseChunk(chunk).Some?
    ensures IsLatin1(ParseChunk(chunk).value.title) && IsLatin1(ParseChunk(chunk).value.artist)
    ensures IsLatin1(ParseChunk(chunk).value.style)
  {
    var t, a := Find(chunk, TitleTag).value, Find(chunk, ArtistTag).value;
    var s, e := Find(chunk, StyleTag).value, Find(chunk, EndTag).value;
    FieldLatin1(chunk, t, a);
    FieldLatin1(chunk, a, s);
    FieldLatin1(chunk, s, e);
  }

  /** Every piece of a byte-valued text is byte-valued. */
  lemma {:induction false} SplitPiecesLatin1(s: string, delim: string)
    requires |delim| > 0 && IsLatin1(s)
    ensures forall k :: 0 <= k < |Split(s, delim)| ==> IsLatin1(Split(s, delim)[k])
    decreases |s|
  {
    var f := Find(s, delim);
    if f.Some? {
      var i := f.value;
      SplitAtFirst(s, delim, i);
      SplitPiecesLatin1(s[i + |delim|..], delim);
    }
  }

  /** Every field of every track of a session is byte-valued. */
  lemma SessionTracksLatin1(content: seq<byte>)
    ensures forall k :: 0 <= k < |SessionTracks(content)| ==>
      IsLatin1(SessionTracks(content)[k].title) && IsLatin1(SessionTracks(content)[k].artist) &&
      IsLatin1(SessionTracks(content)[k].style)
  {
    var chunks := Split(Decode(content), Delimiter);
    SplitPiecesLatin1(Decode(content), Delimiter);
    forall k | 0 <= k < |SessionTracks(content)|
      ensures IsLatin1(SessionTracks(content)[k].title) && IsLatin1(SessionTracks(content)[k].artist)
      ensures IsLatin1(SessionTracks(content)[k].style)
    {
      TracksComeFromChunks(chunks, k);
      var j :| 0 <= j < |chunks| && ParseChunk(chunks[j]) == Some(TracksOf(chunks)[k]);
      ParseChunkLatin1(chunks[j]);
    }
  }

  /** A byte-valued text holds no em dash, whose code point is above 255. */
  lemma NoEmDash(s: string)
    requires IsLatin1(s)
    ensures EmDash !in s
  {
    forall i | 0 <= i < |s| ensures s[i] != EmDash {
      assert s[i] as int < 256;
    }
  }

  /** Two tracks of a session that display the same have the same fields. */
  lemma SessionDisplayInjective(content: seq<byte>, k1: nat, k2: nat)
    requires k1 < |SessionTracks(content)| && k2 < |SessionTracks(content)|
    requires Display(SessionTracks(content)[k1]) == Display(SessionTracks(content)[k2])
    ensures SessionTracks(content)[k1].title == SessionTracks(content)[k2].title
    ensures SessionTracks(content)[k1].artist == SessionTracks(content)[k2].artist
    ensures SessionTracks(content)[k1].style == SessionTracks(content)[k2].style
  {
    var t1, t2 := SessionTracks(content)[k1], SessionTracks(content)[k2];
    SessionTracksLatin1(content);
    NoEmDash(t1.title);
    NoEmDash(t1.artist);
    NoEmDash(t2.title);
    NoEmDash(t2.artist);
    DisplayInjective(t1, t2);
  }

  /** A session file yields at most one track per "oent" in it, plus one. */
  lemma SessionTrackBound(content: seq<byte>)
    ensures |SessionTracks(content)| <= Occurrences(Decode(content), Delimiter) + 1
  {
    SplitCount(Decode(content), Delimiter);
  }
}
