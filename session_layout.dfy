/**
 * A whole session file written as the parser expects it: a preamble, then
 * the records, each introduced by "oent". Reading such a file back gives
 * exactly the records' tracks, in order, and the last record is the one shown.
 */
module SessionLayout {
  import opened Wrappers
  import opened Latin1
  import opened Text
  import opened Tracks
  import opened RecordLayout
  import opened Session

  /** The chunk text of each record. */
  function Layouts(rs: seq<Record>): (cs: seq<string>)
    ensures |cs| == |rs|
    ensures forall i :: 0 <= i < |rs| ==> cs[i] == Layout(rs[i])
  {
    seq(|rs|, i requires 0 <= i < |rs| => Layout(rs[i]))
  }

  /** The track each record should contribute: its chunk and its three fields without NULs. */
  function RecordTrack(r: Record): Track {
    Track(Layout(r), StripNul(r.title), StripNul(r.artist), StripNul(r.style))
  }

  /** The tracks of the records, in order. */
  function RecordTracks(rs: seq<Record>): (ts: seq<Track>)
    ensures |ts| == |rs|
    ensures forall i :: 0 <= i < |rs| ==> ts[i] == RecordTrack(rs[i])
  {
    seq(|rs|, i requires 0 <= i < |rs| => RecordTrack(rs[i]))
  }

  /** The session text: the preamble and the records' chunks, joined by the delimiter. */
  function SessionText(preamble: string, rs: seq<Record>): string {
    Join([preamble] + Layouts(rs), Delimiter)
  }

  /** The conditions under which a preamble and records make a readable session file. */
  ghost predicate Readable(preamble: string, rs: seq<Record>) {
    !Contains(preamble, Delimiter) && !Contains(preamble, TitleTag) &&
    (forall i :: 0 <= i < |rs| ==> WellFormed(rs[i]) && !Contains(Layout(rs[i]), Delimiter)) &&
    IsLatin1(SessionText(preamble, rs))
  }

  /** "oent" cannot overlap itself. */
  lemma DelimiterBorderless()
    ensures Borderless(Delimiter)
  {
    forall k | 0 < k < |Delimiter| ensures Delimiter[k..] != Delimiter[..|Delimiter| - k] {
      assert Delimiter[k..][0] == Delimiter[k] != 'o';
    }
  }

  /** Well-formed records each contribute their own track, in order. */
  lemma TracksOfLayouts(rs: seq<Record>)
    requires forall i :: 0 <= i < |rs| ==> WellFormed(rs[i])
    ensures TracksOf(Layouts(rs)) == RecordTracks(rs)
  {
    forall i | 0 <= i < |rs| ensures ParseChunk(Layouts(rs)[i]) == Some(RecordTracks(rs)[i]) {
      ParseLayout(rs[i]);
    }
    TracksOfAccepted(Layouts(rs), RecordTracks(rs));
  }

  /** Decoding the encoded session text and splitting it gives back its chunks. */
  lemma SessionChunks(preamble: string, rs: seq<Record>)
    requires Readable(preamble, rs)
    ensures Split(Decode(Encode(SessionText(preamble, rs))), Delimiter) == [preamble] + Layouts(rs)
  {
    var chunks := [preamble] + Layouts(rs);
    DecodeEncode(SessionText(preamble, rs));
    DelimiterBorderless();
    forall i | 0 <= i < |chunks| ensures !Contains(chunks[i], Delimiter) {
      if i > 0 {
        assert chunks[i] == Layout(rs[i - 1]);
      }
    }
    SplitJoin(chunks, Delimiter);
  }

  /**
   * Encoding the session text as Latin-1 and reading it back yields one track
   * per record, carrying that record's fields, in file order.
   */
  lemma SessionOfRecords(preamble: string, rs: seq<Record>)
    requires Readable(preamble, rs)
    ensures SessionTracks(Encode(SessionText(preamble, rs))) == RecordTracks(rs)
  {
    SessionChunks(preamble, rs);
    TracksAfterPreamble(preamble, rs);
  }

  /** A preamble without the title tag contributes nothing before the records' tracks. */
  lemma TracksAfterPreamble(preamble: string, rs: seq<Record>)
    requires !Contains(preamble, TitleTag)
    requires forall i :: 0 <= i < |rs| ==> WellFormed(rs[i])
    ensures TracksOf([preamble] + Layouts(rs)) == RecordTracks(rs)
  {
    assert !HasAllTags(preamble);
    RejectedChunk([], preamble, Layouts(rs));
    assert [] + [preamble] + Layouts(rs) == [preamble] + Layouts(rs);
    TracksOfLayouts(rs);
  }

  /** After such a file is read, the last record is the one shown. */
  lemma SessionShowsLastRecord(preamble: string, rs: seq<Record>)
    requires |rs| > 0 && Readable(preamble, rs)
    ensures Shown(SessionTracks(Encode(SessionText(preamble, rs)))) == Some(Display(RecordTrack(rs[|rs| - 1])))
  {
    SessionOfRecords(preamble, rs);
  }
}
