/** `extract_metadata` of lyricsync_pro/downloader.py (lines 28-72): title,
    artist and duration from the audio file's tags, with the title guessed
    from the file name when the tags have none. The tag reader is a foreign
    library: what it returns for a file is an input. */
module Metadata {
  import opened Wrappers
  import opened Strings
  import opened FuzzyTitle

  /** A tag value: a single value, or a list of which the first is used. */
  datatype TagValue = Text(s: string) | Items(items: seq<string>)

  /** What the tag reader gives for a file: nothing usable (it raised or
      returned None), or a length in milliseconds and the tags. */
  datatype AudioFile = Unrecognised | Audio(lengthMs: Option<nat>, tags: map<string, TagValue>)

  /** The value of tags, title first: ID3, then the Vorbis spellings, then
      the MP4 atom. */
  const TitleKeys: seq<string> := ["TIT2", "title", "TITLE", "\U{A9}nam"]

  const ArtistKeys: seq<string> := ["TPE1", "artist", "ARTIST", "\U{A9}ART"]

  /** `str(v[0])` of a list, `str(v)` of a value; None when the list is
      empty and indexing it raises. */
  function FirstValue(v: TagValue): Option<string> {
    match v
    case Text(s) => Some(s)
    case Items(xs) => if xs == [] then None else Some(xs[0])
  }

  /** `_get_first`: the value of the first key present, `""` when none is;
      None when that value is an empty list, so only when the tags hold
      one. */
  function GetFirst(tags: map<string, TagValue>, keys: seq<string>): (r: Option<string>)
    ensures r.None? ==> exists k :: k in tags && tags[k] == Items([])
  {
    if keys == [] then Some("")
    else if keys[0] in tags then FirstValue(tags[keys[0]])
    else GetFirst(tags, keys[1..])
  }

  /** `_get_first` reads the first key of the list that the tags hold, and
      gives `""` when they hold none. */
  lemma {:induction false} GetFirstReadsFirstPresentKey(tags: map<string, TagValue>, keys: seq<string>)
    ensures (forall i :: 0 <= i < |keys| ==> keys[i] !in tags) ==> GetFirst(tags, keys) == Some("")
    ensures forall i :: (0 <= i < |keys| && keys[i] in tags && (forall j :: 0 <= j < i ==> keys[j] !in tags)
      ==> GetFirst(tags, keys) == FirstValue(tags[keys[i]]))
  {
    if keys != [] {
      GetFirstReadsFirstPresentKey(tags, keys[1..]);
      forall i | 0 <= i < |keys| && keys[i] in tags && (forall j :: 0 <= j < i ==> keys[j] !in tags)
        ensures GetFirst(tags, keys) == FirstValue(tags[keys[i]])
      {
        if i > 0 {
          assert keys[i] == keys[1..][i - 1];
          forall j | 0 <= j < i - 1 ensures keys[1..][j] !in tags {
            assert keys[1..][j] == keys[j + 1];
          }
        }
      }
      if forall i :: 0 <= i < |keys| ==> keys[i] !in tags {
        forall i | 0 <= i < |keys[1..]| ensures keys[1..][i] !in tags {
          assert keys[1..][i] == keys[i + 1];
        }
      }
    }
  }

  /** What `extract_metadata` returns. */
  datatype Metadata = Metadata(title: string, artist: string, durationMs: Option<nat>, fuzzy: bool)

  /** `extract_metadata`. A zero length counts as no length. An empty tag
      list raises inside the guarded block, so a title lookup that raises
      leaves both title and artist empty, and an artist lookup that raises
      leaves the artist empty. A title that is still empty is guessed from
      the file name. Title and artist are stripped last. A length is never
      zero, and a file the reader cannot read gives only the title from the
      file name. */
  function ExtractMetadata(file: AudioFile, stem: string): (m: Metadata)
    ensures m.durationMs.Some? ==> m.durationMs.value != 0
    ensures file.Unrecognised? ==> m.fuzzy && m.artist == "" && m.durationMs.None?
  {
    var duration := if file.Audio? && file.lengthMs.Some? && file.lengthMs.value != 0 then file.lengthMs else None;
    var titleTag := if file.Audio? then GetFirst(file.tags, TitleKeys) else None;
    var artistTag := if titleTag.Some? then GetFirst(file.tags, ArtistKeys) else None;
    var title := if titleTag.Some? then titleTag.value else "";
    var artist := if artistTag.Some? then artistTag.value else "";
    if title == "" then Metadata(Strip(FuzzyTitleFromFilename(stem)), Strip(artist), duration, true)
    else Metadata(Strip(title), Strip(artist), duration, false)
  }

  /** The title read from the tags, `""` when there is none. */
  function TagTitle(file: AudioFile): string {
    if file.Audio? && GetFirst(file.tags, TitleKeys).Some? then GetFirst(file.tags, TitleKeys).value else ""
  }

  /** The file name is used exactly when the tags give no title, and then the
      title is the guess from the file name. */
  lemma FuzzyExactlyWithoutTagTitle(file: AudioFile, stem: string)
    ensures ExtractMetadata(file, stem).fuzzy <==> TagTitle(file) == ""
    ensures ExtractMetadata(file, stem).fuzzy ==> ExtractMetadata(file, stem).title == Strip(FuzzyTitleFromFilename(stem))
    ensures !ExtractMetadata(file, stem).fuzzy ==> ExtractMetadata(file, stem).title == Strip(TagTitle(file))
  {
  }

  /** A title tag made only of whitespace is not empty when it is tested, so
      the file name is not used, and it is stripped to an empty title. */
  lemma BlankTagTitleIsNotReplaced(file: AudioFile, stem: string)
    requires TagTitle(file) != "" && AllSpace(TagTitle(file))
    ensures !ExtractMetadata(file, stem).fuzzy && ExtractMetadata(file, stem).title == ""
  {
    StripPadded(TagTitle(file), "", "");
    assert TagTitle(file) + "" + "" == TagTitle(file);
  }

  /** The length is kept exactly when the reader gives a non-zero one. */
  lemma DurationIsNonZeroLength(file: AudioFile, stem: string)
    ensures ExtractMetadata(file, stem).durationMs.Some? <==> file.Audio? && file.lengthMs.Some? && file.lengthMs.value != 0
    ensures ExtractMetadata(file, stem).durationMs.Some? ==> ExtractMetadata(file, stem).durationMs == file.lengthMs
  {
  }

  /** When the title lookup raises, the artist is never read. */
  lemma FailedTitleLeavesNoArtist(file: AudioFile, stem: string)
    requires file.Audio? && GetFirst(file.tags, TitleKeys).None?
    ensures ExtractMetadata(file, stem).artist == "" && ExtractMetadata(file, stem).fuzzy
  {
    var m := ExtractMetadata(file, stem);
    assert m.artist == Strip("") && m.fuzzy;
    StripEmpty(m.artist);
  }

  lemma StripEmpty(r: string)
    requires r == Strip("")
    ensures r == ""
  {
  }

  /** No whitespace at either end. */
  predicate Unpadded(s: string) {
    s == [] || (!IsSpace(s[0]) && !IsSpace(s[|s| - 1]))
  }

  lemma StripIsUnpadded(s: string)
    ensures Unpadded(Strip(s))
  {
    StripIsTrimmedSlice(s);
  }

  /** Title and artist come back with no whitespace at either end. */
  lemma ResultIsStripped(file: AudioFile, stem: string)
    ensures Unpadded(ExtractMetadata(file, stem).title)
    ensures Unpadded(ExtractMetadata(file, stem).artist)
  {
    var titleTag := if file.Audio? then GetFirst(file.tags, TitleKeys) else None;
    var artistTag := if titleTag.Some? then GetFirst(file.tags, ArtistKeys) else None;
    var title := if titleTag.Some? then titleTag.value else "";
    var artist := if artistTag.Some? then artistTag.value else "";
    var guessed := if title == "" then FuzzyTitleFromFilename(stem) else title;
    assert ExtractMetadata(file, stem).title == Strip(guessed);
    assert ExtractMetadata(file, stem).artist == Strip(artist);
    StrippedFields(ExtractMetadata(file, stem), guessed, artist);
  }

  lemma StrippedFields(m: Metadata, title: string, artist: string)
    requires m.title == Strip(title) && m.artist == Strip(artist)
    ensures Unpadded(m.title) && Unpadded(m.artist)
  {
    StripIsUnpadded(title);
    StripIsUnpadded(artist);
  }

  /** The ID3 title wins over every other spelling of the title. */
  lemma Id3TitleComesFirst(file: AudioFile, stem: string, s: string)
    requires file.Audio? && "TIT2" in file.tags && file.tags["TIT2"] == Text(s)
    ensures TagTitle(file) == s
  {
  }
}
