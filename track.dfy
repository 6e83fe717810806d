/**
 * One record of the session log: the four binary tags, the fixed skip, the
 * field extraction of `get_track` (src/main.rs:136-169), the per-chunk accept
 * test of the main loop (src/main.rs:89-96) and `Display for Track`
 * (src/main.rs:27-31). Offsets are positions in the decoded text.
 */
module Tracks {
  import opened Wrappers
  import opened Text

  /** A played track; `rawData` is the chunk it was extracted from. */
  datatype Track = Track(rawData: string, title: string, artist: string, style: string)

  /** No field of the track holds a NUL. */
  predicate FieldsClean(t: Track) {
    Nul !in t.title && Nul !in t.artist && Nul !in t.style
  }

  /** The 5-character tag: four NULs followed by the discriminating byte `b`. */
  function Tag(b: char): (t: string)
    ensures |t| == 5 && t[4] == b
    ensures forall k :: 0 <= k < 4 ==> t[k] == Nul
  {
    [Nul, Nul, Nul, Nul, b]
  }

  const TitleTag: string := Tag(6 as char)
  const ArtistTag: string := Tag(7 as char)
  const StyleTag: string := Tag(9 as char)
  const EndTag: string := Tag(15 as char)

  /** Characters between a tag's offset and its field's text: 5 of tag, 5 of prefix. */
  const Skip: nat := 10

  /**
   * The text of a field whose tag is at `start` and whose span ends at `next`,
   * the offset of the following tag: the characters in [start + Skip, next)
   * without their NULs, or empty text when that span is empty or reversed.
   */
  function Field(chunk: string, start: nat, next: nat): (r: string)
    requires next <= |chunk|
    ensures Nul !in r
    ensures start + Skip >= next ==> r == []
    ensures start + Skip < next ==> |r| <= next - start - Skip
  {
    if start + Skip < next then StripNul(chunk[start + Skip..next]) else []
  }

  /** A field keeps every non-NUL character of its span, as often as it occurs there. */
  lemma FieldCounts(chunk: string, start: nat, next: nat)
    requires start + Skip < next <= |chunk|
    ensures forall c :: c != Nul ==>
      multiset(Field(chunk, start, next))[c] == multiset(chunk[start + Skip..next])[c]
  {
    StripNulCounts(chunk[start + Skip..next]);
  }

  /** A span that holds no NUL is returned unchanged. */
  lemma FieldOfCleanSpan(chunk: string, start: nat, next: nat)
    requires start + Skip < next <= |chunk|
    requires Nul !in chunk[start + Skip..next]
    ensures Field(chunk, start, next) == chunk[start + Skip..next]
  {
    StripNulNoNul(chunk[start + Skip..next]);
  }

  /**
   * `get_track`: title runs to the artist tag, artist to the style tag, style
   * to the end tag; each field degrades to empty text when its span is empty.
   */
  function GetTrack(chunk: string, titleStart: nat, artistStart: nat, styleStart: nat, end: nat): (t: Track)
    requires artistStart <= |chunk| && styleStart <= |chunk| && end <= |chunk|
    ensures t.rawData == chunk
    ensures t.title == Field(chunk, titleStart, artistStart)
    ensures t.artist == Field(chunk, artistStart, styleStart)
    ensures t.style == Field(chunk, styleStart, end)
    ensures FieldsClean(t)
  {
    Track(chunk,
          Field(chunk, titleStart, artistStart),
          Field(chunk, artistStart, styleStart),
          Field(chunk, styleStart, end))
  }

  /** All four tags are present in the chunk. */
  ghost predicate HasAllTags(chunk: string) {
    Contains(chunk, TitleTag) && Contains(chunk, ArtistTag) &&
    Contains(chunk, StyleTag) && Contains(chunk, EndTag)
  }

  /**
   * The track a chunk contributes: none unless all four tags occur, otherwise
   * the fields cut at the first occurrence of each tag.
   */
  function ParseChunk(chunk: string): (r: Option<Track>)
    ensures r.Some? ==> r.value.rawData == chunk
    ensures r.Some? ==> FieldsClean(r.value)
  {
    var titleStart := Find(chunk, TitleTag);
    var artistStart := Find(chunk, ArtistTag);
    var styleStart := Find(chunk, StyleTag);
    var end := Find(chunk, EndTag);
    if titleStart.None? || artistStart.None? || styleStart.None? || end.None? then None
    else Some(GetTrack(chunk, titleStart.value, artistStart.value, styleStart.value, end.value))
  }

  /** A chunk yields a track exactly when all four tags occur in it. */
  lemma ParseChunkAccepts(chunk: string)
    ensures ParseChunk(chunk).Some? <==> HasAllTags(chunk)
  {
  }

  /** An accepted chunk's fields are cut at the first occurrence of each tag. */
  lemma ParseChunkSpans(chunk: string, t: nat, a: nat, s: nat, e: nat)
    requires FirstAt(chunk, TitleTag, t) && FirstAt(chunk, ArtistTag, a)
    requires FirstAt(chunk, StyleTag, s) && FirstAt(chunk, EndTag, e)
    ensures ParseChunk(chunk) == Some(Track(chunk, Field(chunk, t, a), Field(chunk, a, s), Field(chunk, s, e)))
  {
    FindIsFirstOccurrence(chunk, TitleTag, t);
    FindIsFirstOccurrence(chunk, ArtistTag, a);
    FindIsFirstOccurrence(chunk, StyleTag, s);
    FindIsFirstOccurrence(chunk, EndTag, e);
  }

  /** The four tags first occur at the given offsets and the three fields hold the given texts. */
  predicate Located(chunk: string, t: nat, a: nat, s: nat, e: nat, title: string, artist: string, style: string) {
    FirstAt(chunk, TitleTag, t) && FirstAt(chunk, ArtistTag, a) &&
    FirstAt(chunk, StyleTag, s) && FirstAt(chunk, EndTag, e) &&
    Field(chunk, t, a) == title && Field(chunk, a, s) == artist && Field(chunk, s, e) == style
  }

  /** A chunk whose tags and fields are located yields the track with those fields. */
  lemma ParseChunkAt(chunk: string, t: nat, a: nat, s: nat, e: nat, title: string, artist: string, style: string)
    requires Located(chunk, t, a, s, e, title, artist, style)
    ensures ParseChunk(chunk) == Some(Track(chunk, title, artist, style))
  {
    ParseChunkSpans(chunk, t, a, s, e);
  }

  // ---------------------------------------------------------------------------
  // Display

  /** The separator `Display for Track` writes between fields: space, em dash, space. */
  const Separator: string := " \U{2014} "

  /** `title — artist — style`. */
  function Display(t: Track): (r: string)
    ensures |r| == |t.title| + |t.artist| + |t.style| + 2 * |Separator|
  {
    t.title + Separator + t.artist + Separator + t.style
  }

  /** The displayed text holds the title, a separator, the artist, a separator and the style, in that order. */
  lemma DisplayLayout(t: Track)
    ensures Display(t)[..|t.title|] == t.title
    ensures Display(t)[|t.title|..|t.title| + 3] == Separator
    ensures Display(t)[|t.title| + 3..|t.title| + 3 + |t.artist|] == t.artist
    ensures Display(t)[|t.title| + 3 + |t.artist|..|t.title| + 6 + |t.artist|] == Separator
    ensures Display(t)[|t.title| + 6 + |t.artist|..] == t.style
  {
    var d := Display(t);
    var n1, n2 := |t.title|, |t.title| + 3 + |t.artist|;
    assert d == (t.title + Separator + t.artist) + (Separator + t.style);
    assert d[..n2] == t.title + Separator + t.artist;
    assert d[n2..] == Separator + t.style;
    assert d[..n2][n1 + 3..] == t.artist;
  }

  /** The em dash at the centre of the separator. */
  const EmDash: char := '\U{2014}'

  /**
   * A displayed track determines its fields, provided neither the title nor
   * the artist holds an em dash.
   */
  lemma DisplayInjective(t1: Track, t2: Track)
    requires EmDash !in t1.title && EmDash !in t1.artist
    requires EmDash !in t2.title && EmDash !in t2.artist
    requires Display(t1) == Display(t2)
    ensures t1.title == t2.title && t1.artist == t2.artist && t1.style == t2.style
  {
    var rest1 := t1.artist + Separator + t1.style;
    var rest2 := t2.artist + Separator + t2.style;
    assert Display(t1) == t1.title + Separator + rest1;
    assert Display(t2) == t2.title + Separator + rest2;
    SeparatorSplits(t1.title, rest1, t2.title, rest2);
    SeparatorSplits(t1.artist, t1.style, t2.artist, t2.style);
  }

  /** Text before the first separator, when it holds no em dash, is determined. */
  lemma SeparatorSplits(a1: string, b1: string, a2: string, b2: string)
    requires EmDash !in a1 && EmDash !in a2
    requires a1 + Separator + b1 == a2 + Separator + b2
    ensures a1 == a2 && b1 == b2
  {
    var s := a1 + Separator + b1;
    if |a1| < |a2| {
      SeparatorOnlyAt(a1, b1, a2, b2);
      assert false;
    } else if |a2| < |a1| {
      SeparatorOnlyAt(a2, b2, a1, b1);
      assert false;
    }
    assert a1 == s[..|a1|] == a2;
    assert b1 == s[|a1| + 3..] == b2;
  }

  /** A shorter em-dash-free text cannot end where a longer one still runs. */
  lemma SeparatorOnlyAt(a1: string, b1: string, a2: string, b2: string)
    requires EmDash !in a2 && |a1| < |a2|
    ensures a1 + Separator + b1 != a2 + Separator + b2
  {
    var k := |a1| + 1;
    assert (a1 + Separator + b1)[k] == EmDash;
    if k < |a2| {
      assert (a2 + Separator + b2)[k] == a2[k];
    } else {
      assert (a2 + Separator + b2)[k] == ' ';
    }
  }
}
