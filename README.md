# NowPlayingSerato session-log parser, in Dafny

NowPlayingSerato follows a Serato DJ session. It picks the most recently
created file in the `History/Sessions` folder. Every two seconds it re-reads
the whole file and prints the track that was played last as
`title — artist — style`.

This project models the parsing core of `src/main.rs`:

- **Byte decoding** (`Latin1`): `latin1_to_string` turns each byte into the
  character with that code point.
- **Text primitives** (`Text`): the first-occurrence search `str::find`, the
  left-to-right split `str::split` and the NUL removal `str::replace("\x00", "")`.
- **Records** (`Tracks`): the four 5-byte tags, the fixed skip of 10 characters,
  `get_track`, the accept test of the main loop and `Display for Track`.
- **One poll cycle** (`Session`): decode, split on `"oent"`, and keep the track
  of every chunk that has all four tags, in chunk order. The imperative loop
  is `ReadTracks`; the track shown is the last one.
- **Choosing the file** (`LatestFile`): the loop that keeps the entry created
  strictly later than the current maximum, starting from the epoch.
- **A well-formed record** (`RecordLayout`) and **a well-formed session file**
  (`SessionLayout`): a record is a head, then each tag followed by a
  5-character prefix and the field text, then the end tag and a tail.
  Prefixes and texts may hold NULs. A record is well formed when its
  prefixes are 5 characters long and no tag occurs before the place it is
  written. Parsing such a record returns the fields that were written, with
  their NULs removed. For a whole file, in addition, neither the preamble nor
  any record may contain "oent", the preamble may not hold the title tag, and
  every character must be below 256. A field that contains "oent" (a title
  such as "Phoenty") splits its record, and the parser does not give that
  record's fields back.

Offsets are positions in the decoded text (code points). The delimiter and
the tags are ASCII, so these positions agree with Rust's byte offsets for
every chunk whose text is ASCII.

What the code does, as modelled:

- The code accepts a chunk only when all four tags occur
  (`src/main.rs:94`). A chunk with only a title tag and an end tag is
  skipped. It does not become a track with empty artist and style.
- The code has no fallback table for a missing artist or style tag.
- Each field ends at the raw offset of the next tag, not at that offset plus
  the skip: title `[title+10, artist)`, artist `[artist+10, style)`, style
  `[style+10, end)`. A span that is empty or reversed gives empty text
  (`src/main.rs:141-161`).
- The code does not replace non-printable characters.
- The code shows only the last track.

## Model

| member | source | states |
|---|---|---|
| Latin1.Decode | src/main.rs:132-134 | one character per byte, so the length is kept; every character is below 256 |
| Latin1.DecodeAt | src/main.rs:132-134 | character i of the text has the code point of byte i |
| Latin1.EncodeDecode | src/main.rs:132-134 | decoding is lossless: reading the code points back gives the original bytes |
| Latin1.DecodeEncode | src/main.rs:132-134 | every text of byte-valued characters is the decoding of its code points |
| Latin1.DecodeInjective | src/main.rs:132-134 | distinct byte strings decode to distinct texts |
| Text.Find | src/main.rs:89-92 | a result is an occurrence of the pattern with none earlier; None exactly when the pattern never occurs |
| Text.FindIsFirstOccurrence | src/main.rs:89-92 | the first occurrence of a pattern is what the search returns |
| Text.Split | src/main.rs:81 | splitting always yields at least one piece |
| Text.JoinSplit | src/main.rs:81 | joining the pieces with the delimiter rebuilds the decoded text |
| Text.SplitPiecesAvoidDelimiter | src/main.rs:81 | no piece contains the delimiter |
| Text.SplitCount | src/main.rs:81 | the number of pieces is one more than the number of non-overlapping delimiters, counted by an independent scan |
| Text.SplitJoin | src/main.rs:81 | pieces free of a self-non-overlapping delimiter, joined by it, split back into the same pieces |
| Text.StripNul | src/main.rs:142 | the result holds no NUL and is no longer than the input |
| Text.StripNulCounts | src/main.rs:142 | every non-NUL character is kept as often as it occurs |
| Text.StripNulAppend | src/main.rs:142 | stripping distributes over concatenation, so the order of kept characters is preserved |
| Text.StripNulIdentity | src/main.rs:142 | stripping leaves a text unchanged exactly when it holds no NUL |
| Text.StripNulIdempotent | src/main.rs:142 | stripping twice equals stripping once |
| Tracks.Tag | src/main.rs:45-48 | each tag is four NULs followed by its discriminating character |
| Tracks.Field | src/main.rs:141-161 | the field holds no NUL; it is empty when the span [start+10, next) is empty or reversed, and never longer than the span |
| Tracks.FieldCounts | src/main.rs:141-161 | a field keeps every non-NUL character of its span as often as it occurs there |
| Tracks.FieldOfCleanSpan | src/main.rs:141-161 | a span without NUL is returned unchanged |
| Tracks.GetTrack | src/main.rs:136-169 | the track carries the whole chunk; title, artist and style are the fields cut between consecutive tag offsets; none holds a NUL |
| Tracks.ParseChunk | src/main.rs:88-106 | an accepted chunk's track carries that chunk, with NUL-free fields |
| Tracks.ParseChunkAccepts | src/main.rs:94-96 | a chunk yields a track if and only if all four tags occur in it |
| Tracks.ParseChunkSpans | src/main.rs:89-106 | the fields are cut at the first occurrence of each tag |
| Tracks.Display | src/main.rs:27-31 | the shown text is the three fields plus two three-character separators long |
| Tracks.DisplayLayout | src/main.rs:29 | the shown text is the title, " — ", the artist, " — " and the style, each at its offset |
| Tracks.DisplayInjective | src/main.rs:29 | when neither title nor artist holds an em dash, the shown text determines all three fields |
| RecordLayout.ParseLayout | src/main.rs:89-106 | a record in which no tag occurs before its place parses to its title, artist and style with their NULs removed |
| RecordLayout.TagOffsets | src/main.rs:89-92 | in such a record each tag is first found where it was written |
| RecordLayout.FirstTag | src/main.rs:89-92 | a tag preceded by text without it is first found right after that text |
| RecordLayout.PastTag | src/main.rs:89-92 | the search for a tag passes over text without it and over a different tag, even when the text holds NULs |
| RecordLayout.LayoutFields | src/main.rs:141-161 | the three spans of a record give its field texts with their NULs removed |
| Session.Contribution | src/main.rs:94-108 | a chunk adds at most one track, with NUL-free fields |
| Session.TracksOf | src/main.rs:88-118 | a session never yields more tracks than chunks |
| Session.SessionTracks | src/main.rs:80-118 | the tracks of the chunks of the decoded text split on "oent", in chunk order: no more tracks than chunks, and no field with a NUL |
| Session.ReadTracks | src/main.rs:73-118 | the loop builds exactly the track list of the decoded, split session file |
| Session.KeepAppend | src/main.rs:88-118 | filtering consecutive parse results concatenates the tracks, so order is kept |
| Session.KeepAllPresent | src/main.rs:88-118 | when every parse succeeds, every track is kept |
| Session.KeepFrom | src/main.rs:100-108 | every kept track is the result of some parse |
| Session.TracksOfAppend | src/main.rs:88-118 | the tracks of consecutive chunk lists are the concatenation of theirs |
| Session.TracksOfClean | src/main.rs:142-157 | no track in the list has a NUL in a field |
| Session.TracksOfAccepted | src/main.rs:88-118 | chunks that each yield a track contribute exactly those tracks, in order |
| Session.TracksOfStep | src/main.rs:88-108 | one more chunk adds exactly that chunk's contribution at the end |
| Session.RejectedChunk | src/main.rs:94-96 | a chunk missing any tag contributes nothing, wherever it stands |
| Session.AcceptedChunk | src/main.rs:100-108 | a chunk with all four tags contributes exactly its track, in its place |
| Session.TracksComeFromChunks | src/main.rs:100-108 | every track is the parse of some chunk and carries that chunk's text |
| Session.Shown | src/main.rs:121-124 | something is shown exactly when the list is non-empty, and then it is the last track's display |
| Session.ShownIsLastChunk | src/main.rs:121-124 | when the last chunk has all four tags, its track is the one shown |
| Session.ParseChunkLatin1 | src/main.rs:132-157 | the track of a chunk of byte-valued characters has byte-valued fields |
| Session.SplitPiecesLatin1 | src/main.rs:81 | every piece of a byte-valued text is byte-valued |
| Session.SessionTracksLatin1 | src/main.rs:80-157 | every field of every track of a session has only characters below 256 |
| Session.NoEmDash | src/main.rs:29 | a byte-valued text holds no em dash |
| Session.SessionDisplayInjective | src/main.rs:29 | two tracks of a session that display the same have the same title, artist and style |
| Session.SessionTrackBound | src/main.rs:80-81 | a session yields at most one track more than the occurrences of "oent" |
| SessionLayout.DelimiterBorderless | src/main.rs:81 | no occurrence of "oent" can overlap another |
| SessionLayout.TracksOfLayouts | src/main.rs:88-108 | well-formed records each contribute their own track, fields without NULs, in order |
| SessionLayout.TracksAfterPreamble | src/main.rs:88-108 | a preamble without the title tag adds no track; the well-formed records after it give exactly their own tracks |
| SessionLayout.SessionChunks | src/main.rs:80-81 | encoding a session text and decoding and splitting it gives back the preamble and the records' chunks |
| SessionLayout.SessionOfRecords | src/main.rs:77-118 | a file of a preamble and well-formed records, none containing "oent", yields exactly the records' tracks, each field without its NULs, in file order |
| SessionLayout.SessionShowsLastRecord | src/main.rs:77-124 | reading such a file shows the last record |
| LatestFile.PickLatest | src/main.rs:56-68 | an empty path when no entry was created after the epoch; otherwise the path of the first entry created latest |
| LatestFile.LatestIsUnique | src/main.rs:56-68 | at most one entry is the one to follow |

## Left out

- Reading the folder listing, the file metadata and the file contents, and the `expect`/`unwrap` aborts on failure, are I/O. The listing becomes a sequence of `(path, creation time)` entries and the file a sequence of bytes.
- Creation times are whole seconds from the epoch. `SystemTime` and its platform precision are not modelled.
- When no entry is newer than the epoch, the source tries to open an empty path and aborts. The model stops at the empty path.
- The endless poll loop, the two-second `sleep`, the terminal-clearing escape sequence and the `File to read` line are I/O and timing.
- The `attempt!` macro is never used. The commented-out extraction and the `Debug` implementation have no effect on behaviour.
- Offsets are code points, not UTF-8 byte offsets. After decoding, every byte at or above 0x80 takes two bytes in Rust's `String`. Rust's offsets then differ from the model's, and slicing at `start + 10` can panic when that offset falls inside such a character. The model agrees with the source for ASCII chunks only.
- Text.Split: requires a non-empty delimiter. Rust's split on an empty pattern behaves differently, but the source only splits on "oent".
- Tracks.Display: the contract gives only the length of `title — artist — style`. Where each field sits in that text is Tracks.DisplayLayout, and that the fields can be read back from it is Tracks.DisplayInjective and Session.SessionDisplayInjective.
