/** `download_lyric_auto` of lyricsync_pro/app.py (lines 591-617): read the
    file's tags, pick a search result, fetch its lyric and put the LRC header
    in front of it. The search results and the lyric service are inputs. */
module AutoDownload {
  import opened Wrappers
  import opened Strings
  import opened LrcIndex
  import opened LrcHeader
  import opened SongPick
  import opened Metadata

  /** The match field says whether the title came from the tags or from the
      file name. */
  function MatchTag(fuzzy: bool): string {
    if fuzzy then "fuzzy" else "id3"
  }

  /** The length field of the header: the duration as a fraction of
      seconds. */
  function LengthOf(m: Metadata): Option<Length> {
    if m.durationMs.Some? then Some(Fractional(m.durationMs.value)) else None
  }

  /** The header written over a downloaded lyric. */
  function HeaderFor(m: Metadata): string {
    BuildLrcHeader(m.title, m.artist, LengthOf(m), MatchTag(m.fuzzy))
  }

  /** The text shown in both editors, or None when the download stops: no
      title, or no lyric for the picked song, which includes no search
      results at all. */
  function AutoDownloadText(file: AudioFile, stem: string, results: seq<Song>, lyricFor: int -> Option<string>): (r: Option<string>)
    ensures r.Some? ==> ExtractMetadata(file, stem).title != ""
    ensures results == [] ==> r.None?
  {
    var m := ExtractMetadata(file, stem);
    if m.title == "" then None
    else
      var d := DownloadLrc(results, m.durationMs, lyricFor);
      if d.lrc.None? || d.lrc.value == "" || d.chosen.None? then None
      else Some(HeaderFor(m) + "\n" + d.lrc.value)
  }

  lemma MatchTagIsPlain(fuzzy: bool)
    ensures PlainField(MatchTag(fuzzy))
  {
    var t := MatchTag(fuzzy);
    forall k | 0 <= k < |t| ensures t[k] != '\n' && t[k] != '[' {
    }
  }

  /** A downloaded text is the header of the file's metadata over the
      non-empty lyric of the song `auto_pick_song` chose, which has an id. */
  lemma DownloadedTextIsHeaderAndLyric(file: AudioFile, stem: string, results: seq<Song>, lyricFor: int -> Option<string>)
    requires AutoDownloadText(file, stem, results, lyricFor).Some?
    ensures var m := ExtractMetadata(file, stem);
      var c := AutoPickSong(results, m.durationMs);
      && m.title != ""
      && c.Some? && HasId(c.value)
      && lyricFor(c.value.id.value).Some? && lyricFor(c.value.id.value).value != ""
      && AutoDownloadText(file, stem, results, lyricFor) == Some(HeaderFor(m) + "\n" + lyricFor(c.value.id.value).value)
  {
    var m := ExtractMetadata(file, stem);
    DownloadIsOfPick(results, m.durationMs, lyricFor);
  }

  /** The other way round: a title, a picked song with an id and a
      non-empty lyric for it give the header over that lyric. */
  lemma PickedLyricIsDownloaded(file: AudioFile, stem: string, results: seq<Song>, lyricFor: int -> Option<string>)
    requires ExtractMetadata(file, stem).title != ""
    requires var c := AutoPickSong(results, ExtractMetadata(file, stem).durationMs);
      c.Some? && HasId(c.value) && lyricFor(c.value.id.value).Some? && lyricFor(c.value.id.value).value != ""
    ensures var m := ExtractMetadata(file, stem);
      var c := AutoPickSong(results, m.durationMs);
      AutoDownloadText(file, stem, results, lyricFor) == Some(HeaderFor(m) + "\n" + lyricFor(c.value.id.value).value)
  {
    var m := ExtractMetadata(file, stem);
    DownloadIsOfPick(results, m.durationMs, lyricFor);
  }

  /** The header, read back line by line, records the title and where it
      came from, when title and artist hold no line break; a `[` in them
      does not matter. */
  lemma HeaderRecordsMatch(m: Metadata)
    requires '\n' !in m.title && '\n' !in m.artist
    ensures Lookup(SplitLines(HeaderFor(m)), "match") == Some(MatchTag(m.fuzzy))
    ensures m.title != "" ==> Lookup(SplitLines(HeaderFor(m)), "ti") == Some(m.title)
  {
    MatchTagIsPlain(m.fuzzy);
    HeaderSplitsIntoLines(m.title, m.artist, LengthOf(m), MatchTag(m.fuzzy));
    HeaderFieldsReadBack(m.title, m.artist, LengthOf(m), MatchTag(m.fuzzy));
  }

  /** The timestamps of a downloaded lyric keep their times and move down by
      the header's lines, when the title and artist hold no line break and no
      bracket. */
  lemma DownloadedIndexIsShifted(file: AudioFile, stem: string, results: seq<Song>, lyricFor: int -> Option<string>, lrc: string)
    requires AutoDownloadText(file, stem, results, lyricFor).Some?
    requires var c := AutoPickSong(results, ExtractMetadata(file, stem).durationMs);
      c.Some? && HasId(c.value) && lyricFor(c.value.id.value) == Some(lrc)
    requires PlainField(ExtractMetadata(file, stem).title) && PlainField(ExtractMetadata(file, stem).artist)
    ensures var m := ExtractMetadata(file, stem);
      IndexOf(AutoDownloadText(file, stem, results, lyricFor).value)
        == ShiftLines(IndexOf(lrc), |HeaderLines(m.title, m.artist, LengthOf(m), MatchTag(m.fuzzy))|)
  {
    var m := ExtractMetadata(file, stem);
    DownloadedTextIsHeaderAndLyric(file, stem, results, lyricFor);
    MatchTagIsPlain(m.fuzzy);
    HeaderShiftsIndex(m.title, m.artist, LengthOf(m), MatchTag(m.fuzzy), lrc);
  }
}
