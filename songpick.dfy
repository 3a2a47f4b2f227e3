/** The choice of a search result in lyricsync_pro/downloader.py:
    `auto_pick_song` (lines 124-133) and `download_lrc` (lines 135-143).
    The search and the lyric request are network calls: their results come
    in as a sequence of songs and as a function from song id to lyric. */
module SongPick {
  import opened Wrappers
  import opened Selection

  /** One result of `search_songs`: `duration_ms` is kept only when the
      service sent an integer. */
  datatype Song = Song(id: Option<int>, name: string, artists: string, durationMs: Option<int>)

  /** `x.get("duration_ms") or 0`. */
  function DurationOrZero(s: Song): int {
    if s.durationMs.Some? then s.durationMs.value else 0
  }

  function Abs(x: int): nat {
    if x < 0 then -x else x
  }

  /** How far a result's duration is from the local one. */
  function Distance(targetMs: int, s: Song): nat {
    Abs(DurationOrZero(s) - targetMs)
  }

  /** The sort key of `auto_pick_song` for a local duration. */
  function DistanceKey(targetMs: int): Song -> int {
    s => Distance(targetMs, s)
  }

  /** `auto_pick_song` once the results are in: nothing for no results, the
      first result without a local duration, and otherwise the first result
      after a stable sort by distance. Something is picked exactly when
      there are results, and it is one of them. */
  function AutoPickSong(results: seq<Song>, localMs: Option<nat>): (pick: Option<Song>)
    ensures pick.None? <==> results == []
    ensures pick.Some? ==> pick.value in results
  {
    if results == [] then None
    else if localMs.None? then Some(results[0])
    else
      var sorted := SortBy(results, DistanceKey(localMs.value));
      assert |multiset(sorted)| == |multiset(results)|;
      assert sorted[0] in multiset(results);
      Some(sorted[0])
  }

  /** The pick is one of the results; with a local duration it is the
      earliest of those closest to it. */
  lemma PickIsClosest(results: seq<Song>, localMs: Option<nat>)
    ensures AutoPickSong(results, localMs).None? <==> results == []
    ensures results != [] && localMs.None? ==> AutoPickSong(results, localMs) == Some(results[0])
    ensures results != [] && localMs.Some? ==> exists i :: (0 <= i < |results|
      && AutoPickSong(results, localMs) == Some(results[i])
      && (forall j :: 0 <= j < |results| ==> Distance(localMs.value, results[i]) <= Distance(localMs.value, results[j]))
      && (forall j :: 0 <= j < i ==> Distance(localMs.value, results[i]) < Distance(localMs.value, results[j])))
  {
    if results != [] && localMs.Some? {
      var key := DistanceKey(localMs.value);
      SortByFirst(results, key);
      var i := ArgMin(results, key);
      assert forall j :: 0 <= j < |results| ==> key(results[j]) == Distance(localMs.value, results[j]);
      assert AutoPickSong(results, localMs) == Some(results[i]);
    }
  }

  /** A result without a duration is as far from the local file as the
      local duration itself. */
  lemma MissingDurationCountsAsZero(s: Song, targetMs: nat)
    requires s.durationMs.None?
    ensures Distance(targetMs, s) == targetMs
  {
  }

  /** `chosen.get("id")` is truthy. */
  predicate HasId(s: Song) {
    s.id.Some? && s.id.value != 0
  }

  /** The pair `download_lrc` returns. */
  datatype Download = Download(lrc: Option<string>, chosen: Option<Song>)

  /** `download_lrc`: pick a song, then fetch its lyric when it has an id.
      No results give neither, and a lyric comes only with a chosen result
      that has an id, as that id's lyric. */
  function DownloadLrc(results: seq<Song>, localMs: Option<nat>, lyricFor: int -> Option<string>): (d: Download)
    ensures results == [] ==> d == Download(None, None)
    ensures d.chosen.Some? ==> d.chosen.value in results
    ensures d.lrc.Some? ==> d.chosen.Some? && HasId(d.chosen.value) && d.lrc == lyricFor(d.chosen.value.id.value)
  {
    match AutoPickSong(results, localMs)
    case None => Download(None, None)
    case Some(chosen) => Download(if HasId(chosen) then lyricFor(chosen.id.value) else None, Some(chosen))
  }

  /** The picked song is the one `auto_pick_song` chooses; its lyric is
      fetched exactly when it has an id, and a lyric is only ever the lyric
      of the picked song. */
  lemma DownloadIsOfPick(results: seq<Song>, localMs: Option<nat>, lyricFor: int -> Option<string>)
    ensures DownloadLrc(results, localMs, lyricFor).chosen == AutoPickSong(results, localMs)
    ensures DownloadLrc(results, localMs, lyricFor).lrc.Some? ==>
      var c := AutoPickSong(results, localMs);
      c.Some? && HasId(c.value) && lyricFor(c.value.id.value) == DownloadLrc(results, localMs, lyricFor).lrc
    ensures var c := AutoPickSong(results, localMs);
      c.Some? && HasId(c.value) ==> DownloadLrc(results, localMs, lyricFor).lrc == lyricFor(c.value.id.value)
    ensures var c := AutoPickSong(results, localMs);
      c.Some? && !HasId(c.value) ==> DownloadLrc(results, localMs, lyricFor).lrc.None?
    ensures results == [] ==> DownloadLrc(results, localMs, lyricFor) == Download(None, None)
  {
    PickIsClosest(results, localMs);
  }
}
