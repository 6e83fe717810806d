/**
 * The layout a record of the session log is expected to have, and the proof
 * that the tag search and field extraction of src/main.rs:89-106 recover the
 * three fields of a chunk laid out this way, with their NULs removed.
 */
module RecordLayout {
  import opened Wrappers
  import opened Text
  import opened Tracks

  /**
   * A record: leading bytes, then for each field its tag, a 5-character prefix
   * and its text, then the end tag and arbitrary trailing bytes. Prefixes and
   * texts may hold NULs.
   */
  datatype Record = Record(
    head: string,
    titlePrefix: string, title: string,
    artistPrefix: string, artist: string,
    stylePrefix: string, style: string,
    tail: string)

  /** Every prefix is 5 characters long, so each text starts 10 after its tag. */
  predicate PrefixesFit(r: Record) {
    |r.titlePrefix| == 5 && |r.artistPrefix| == 5 && |r.stylePrefix| == 5
  }

  /**
   * No tag occurs before the place it is written: the head holds none of the
   * four tags, and each field's prefix and text hold none of the tags written
   * after that field.
   */
  ghost predicate WellFormed(r: Record) {
    PrefixesFit(r) &&
    !Contains(r.head, TitleTag) && !Contains(r.head, ArtistTag) &&
    !Contains(r.head, StyleTag) && !Contains(r.head, EndTag) &&
    !Contains(r.titlePrefix + r.title, ArtistTag) && !Contains(r.titlePrefix + r.title, StyleTag) &&
    !Contains(r.titlePrefix + r.title, EndTag) &&
    !Contains(r.artistPrefix + r.artist, StyleTag) && !Contains(r.artistPrefix + r.artist, EndTag) &&
    !Contains(r.stylePrefix + r.style, EndTag)
  }

  /** What follows the style tag. */
  function StyleRest(r: Record): string {
    r.stylePrefix + r.style + EndTag + r.tail
  }

  /** What follows the artist tag. */
  function ArtistRest(r: Record): string {
    r.artistPrefix + r.artist + StyleTag + StyleRest(r)
  }

  /** What follows the title tag. */
  function TitleRest(r: Record): string {
    r.titlePrefix + r.title + ArtistTag + ArtistRest(r)
  }

  /** The characters of a record, as they appear in a chunk. */
  function Layout(r: Record): string
  {
    r.head + TitleTag + TitleRest(r)
  }

  /** Parsing a well-formed record's layout yields its three fields without their NULs. */
  lemma ParseLayout(r: Record)
    requires WellFormed(r)
    ensures ParseChunk(Layout(r)) ==
      Some(Track(Layout(r), StripNul(r.title), StripNul(r.artist), StripNul(r.style)))
  {
    var t, a, s, e := LayoutLocated(r);
    ParseChunkAt(Layout(r), t, a, s, e, StripNul(r.title), StripNul(r.artist), StripNul(r.style));
  }

  /** The tags of a well-formed layout are where it put them, and its fields hold the texts. */
  lemma LayoutLocated(r: Record) returns (t: nat, a: nat, s: nat, e: nat)
    requires WellFormed(r)
    ensures Located(Layout(r), t, a, s, e, StripNul(r.title), StripNul(r.artist), StripNul(r.style))
  {
    t, a, s, e := TagOffsets(r);
    LayoutFields(r, t, a, s, e);
  }

  /** Each tag is first found where the layout put it. */
  lemma TagOffsets(r: Record) returns (t: nat, a: nat, s: nat, e: nat)
    requires WellFormed(r)
    ensures t == |r.head| && a == t + 10 + |r.title|
    ensures s == a + 10 + |r.artist| && e == s + 10 + |r.style|
    ensures FirstAt(Layout(r), TitleTag, t) && FirstAt(Layout(r), ArtistTag, a)
    ensures FirstAt(Layout(r), StyleTag, s) && FirstAt(Layout(r), EndTag, e)
  {
    t := |r.head|;
    a := t + 5 + |r.titlePrefix + r.title|;
    s := a + 5 + |r.artistPrefix + r.artist|;
    e := s + 5 + |r.stylePrefix + r.style|;
    TitleOffset(r);
    ArtistOffset(r);
    StyleOffset(r);
    EndOffset(r);
  }

  lemma TitleOffset(r: Record)
    requires !Contains(r.head, TitleTag)
    ensures FirstAt(Layout(r), TitleTag, |r.head|)
  {
    FirstTag(r.head, 6 as char, TitleRest(r));
  }

  lemma ArtistOffset(r: Record)
    requires !Contains(r.head, ArtistTag) && !Contains(r.titlePrefix + r.title, ArtistTag)
    ensures FirstAt(Layout(r), ArtistTag, |r.head| + 5 + |r.titlePrefix + r.title|)
  {
    var x1 := r.titlePrefix + r.title;
    FirstTag(x1, 7 as char, ArtistRest(r));
    PastTag(r.head, 6 as char, 7 as char, TitleRest(r), |x1|);
  }

  lemma StyleOffset(r: Record)
    requires !Contains(r.head, StyleTag) && !Contains(r.titlePrefix + r.title, StyleTag)
    requires !Contains(r.artistPrefix + r.artist, StyleTag)
    ensures FirstAt(Layout(r), StyleTag,
      |r.head| + 5 + |r.titlePrefix + r.title| + 5 + |r.artistPrefix + r.artist|)
  {
    var x1, x2 := r.titlePrefix + r.title, r.artistPrefix + r.artist;
    FirstTag(x2, 9 as char, StyleRest(r));
    PastTag(x1, 7 as char, 9 as char, ArtistRest(r), |x2|);
    PastTag(r.head, 6 as char, 9 as char, TitleRest(r), |x1| + 5 + |x2|);
  }

  lemma EndOffset(r: Record)
    requires !Contains(r.head, EndTag) && !Contains(r.titlePrefix + r.title, EndTag)
    requires !Contains(r.artistPrefix + r.artist, EndTag) && !Contains(r.stylePrefix + r.style, EndTag)
    ensures FirstAt(Layout(r), EndTag,
      |r.head| + 5 + |r.titlePrefix + r.title| + 5 + |r.artistPrefix + r.artist| + 5 + |r.stylePrefix + r.style|)
  {
    var x1, x2, x3 := r.titlePrefix + r.title, r.artistPrefix + r.artist, r.stylePrefix + r.style;
    FirstTag(x3, 15 as char, r.tail);
    PastTag(x2, 9 as char, 15 as char, StyleRest(r), |x3|);
    PastTag(x1, 7 as char, 15 as char, ArtistRest(r), |x2| + 5 + |x3|);
    PastTag(r.head, 6 as char, 15 as char, TitleRest(r), |x1| + 5 + |x2| + 5 + |x3|);
  }

  /** The three field spans of a layout hold the field texts, without their NULs. */
  lemma LayoutFields(r: Record, t: nat, a: nat, s: nat, e: nat)
    requires PrefixesFit(r)
    requires t == |r.head| && a == t + 10 + |r.title|
    requires s == a + 10 + |r.artist| && e == s + 10 + |r.style|
    ensures e <= |Layout(r)|
    ensures Field(Layout(r), t, a) == StripNul(r.title) && Field(Layout(r), a, s) == StripNul(r.artist)
    ensures Field(Layout(r), s, e) == StripNul(r.style)
  {
    TitleField(r, t, a);
    ArtistField(r, a, s);
    StyleField(r, s, e);
  }

  lemma TitleField(r: Record, t: nat, a: nat)
    requires PrefixesFit(r)
    requires t == |r.head| && a == t + 10 + |r.title|
    ensures a <= |Layout(r)| && Field(Layout(r), t, a) == StripNul(r.title)
  {
    var pre := r.head + TitleTag + r.titlePrefix;
    var post := ArtistTag + ArtistRest(r);
    Shift3(r.head, TitleTag, r.titlePrefix, r.title, post);
    FieldAt(Layout(r), pre, r.title, post, t, a);
  }

  lemma ArtistField(r: Record, a: nat, s: nat)
    requires PrefixesFit(r)
    requires a == |r.head| + 10 + |r.title| && s == a + 10 + |r.artist|
    ensures s <= |Layout(r)| && Field(Layout(r), a, s) == StripNul(r.artist)
  {
    var pre1 := r.head + TitleTag + r.titlePrefix + r.title;
    var pre := pre1 + ArtistTag + r.artistPrefix;
    var post := StyleTag + StyleRest(r);
    Shift3(r.head, TitleTag, r.titlePrefix, r.title, ArtistTag + ArtistRest(r));
    Shift3(pre1, ArtistTag, r.artistPrefix, r.artist, post);
    FieldAt(Layout(r), pre, r.artist, post, a, s);
  }

  lemma StyleField(r: Record, s: nat, e: nat)
    requires PrefixesFit(r)
    requires s == |r.head| + 20 + |r.title| + |r.artist| && e == s + 10 + |r.style|
    ensures e <= |Layout(r)| && Field(Layout(r), s, e) == StripNul(r.style)
  {
    var pre1 := r.head + TitleTag + r.titlePrefix + r.title;
    var pre2 := pre1 + ArtistTag + r.artistPrefix + r.artist;
    var pre := pre2 + StyleTag + r.stylePrefix;
    var post := EndTag + r.tail;
    Shift3(r.head, TitleTag, r.titlePrefix, r.title, ArtistTag + ArtistRest(r));
    Shift3(pre1, ArtistTag, r.artistPrefix, r.artist, StyleTag + StyleRest(r));
    Shift3(pre2, StyleTag, r.stylePrefix, r.style, post);
    FieldAt(Layout(r), pre, r.style, post, s, e);
  }

  /** Regrouping a concatenation of five pieces. */
  lemma Shift3(a: string, b: string, c: string, d: string, e: string)
    ensures a + b + (c + d + e) == a + b + c + d + e
  {
  }

  /** A tag preceded by text that does not contain it first occurs right after that text. */
  lemma FirstTag(x: string, b: char, y: string)
    requires b != Nul && !Contains(x, Tag(b))
    ensures FirstAt(x + Tag(b) + y, Tag(b), |x|)
  {
    var chunk := x + Tag(b) + y;
    assert chunk[|x|..|x| + 5] == Tag(b);
    forall j | 0 <= j < |x| ensures !OccursAt(chunk, Tag(b), j) {
      if j + 5 <= |x| {
        assert !OccursAt(x, Tag(b), j);
        assert chunk[j..j + 5] == x[j..j + 5];
      } else {
        assert chunk[j + 4] == Nul;
        NoTagEndingOn(chunk, j, b);
      }
    }
  }

  /**
   * Searching for another tag skips text that does not contain it and a
   * different tag: the first occurrence is the one in what follows, shifted
   * by the skipped length.
   */
  lemma PastTag(x: string, b: char, c: char, y: string, k: nat)
    requires b != Nul && c != Nul && c != b && !Contains(x, Tag(c))
    requires FirstAt(y, Tag(c), k)
    ensures FirstAt(x + Tag(b) + y, Tag(c), |x| + 5 + k)
  {
    var chunk := x + Tag(b) + y;
    var n := |x| + 5;
    assert chunk[n + k..n + k + 5] == y[k..k + 5];
    forall j | 0 <= j < n + k ensures !OccursAt(chunk, Tag(c), j) {
      if j + 5 <= |x| {
        assert !OccursAt(x, Tag(c), j);
        assert chunk[j..j + 5] == x[j..j + 5];
      } else if j < |x| {
        // the window ends on one of the NULs of tag b
        assert chunk[j + 4] == Nul;
        NoTagEndingOn(chunk, j, c);
      } else if j == |x| {
        assert chunk[j + 4] == b;
        NoTagEndingOn(chunk, j, c);
      } else if j < n {
        // the window starts inside tag b and holds its last character early
        NoTagOverNonNul(chunk, j, |x| + 4, c);
      } else {
        assert !OccursAt(y, Tag(c), j - n);
        if j + 5 <= |chunk| {
          assert chunk[j..j + 5] == y[j - n..j - n + 5];
        }
      }
    }
  }

  /** No tag `c` starts where the fifth character is not `c`. */
  lemma NoTagEndingOn(chunk: string, j: nat, c: char)
    requires j + 4 < |chunk| ==> chunk[j + 4] != c
    ensures !OccursAt(chunk, Tag(c), j)
  {
    if j + 5 <= |chunk| {
      assert chunk[j..j + 5][4] == chunk[j + 4];
    }
  }

  /** No tag starts where one of its first four characters would be a non-NUL. */
  lemma NoTagOverNonNul(chunk: string, j: nat, i: nat, c: char)
    requires j <= i < j + 4 && i < |chunk| && chunk[i] != Nul
    ensures !OccursAt(chunk, Tag(c), j)
  {
    if j + 5 <= |chunk| {
      assert chunk[j..j + 5][i - j] == chunk[i];
    }
  }

  /** A field whose span holds exactly `text` is `text` without its NULs. */
  lemma FieldAt(chunk: string, pre: string, text: string, post: string, start: nat, next: nat)
    requires chunk == pre + text + post
    requires |pre| >= Skip
    requires start == |pre| - Skip && next == |pre| + |text|
    ensures next <= |chunk| && Field(chunk, start, next) == StripNul(text)
  {
    assert chunk[|pre|..|pre| + |text|] == text;
  }
}
