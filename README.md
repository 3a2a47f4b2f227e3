# LyricSync Pro: the LRC index, playback sync and lyric helpers in Dafny

LyricSync Pro is a desktop lyric editor for LRC files. The user loads an audio
file, and the window puts its `.lrc` lyric into two views: a read-only original
and an editable copy. As the audio plays, the window highlights the line whose
timestamp was last passed. The user can stamp the playback position onto a new
line. The two views scroll together. If there is no lyric yet, the program can
download one: it guesses a title from the tags or the file name, picks the
search result whose duration is closest to the file's, and writes an LRC header
above the downloaded lyric.

This project models that core.

- `wrappers.dfy` (`Wrappers`) holds `Option`.
- `strings.dfy` (`Strings`) holds the Python string operations the core relies on:
  - `int()` of digit strings and `str()` of naturals;
  - the `{n:0Wd}` zero padding;
  - `str.isspace` and `strip`;
  - splitting on line feeds, and `"\n".join`.
- `timetag.dfy` (`TimeTag`) holds:
  - the timestamp grammar `\[(\d{1,2}):(\d{2})(?:\.(\d{1,3}))?\]` as a function, and how a tag becomes an offset;
  - "first tag wins" on a line;
  - the `[mm:ss.mmm]` stamp with its carry;
  - the `mm:ss` time label.
- `lrcindex.dfy` (`LrcIndex`) holds:
  - `rebuild_lrc_index`: one entry per tagged line, then a stable sort by time;
  - the lookup loop of `update_lrc_highlight`, both as a method and as a function.
- `sync.dfy` (`Sync`) holds the window as a class (`SyncWindow`). Its fields are:
  - the editable text and its caret, and the original text;
  - `_lrc_index`, `_current_line_no` and `_sync_lock`;
  - the two scroll values and the two highlighted lines.

  Its methods rebuild the index, stamp, load a lyric, update the highlight, scroll one view to a line, and mirror one view's scroll into the other under the lock. The layout the views draw (scroll maxima, pixel offsets, the line under the top edge) comes in as a `Geometry` value.
- `settings.dfy` (`Settings`) holds `_to_bool`.
- `lrcheader.dfy` (`LrcHeader`) holds:
  - `_format_mmss_cc` and `build_lrc_header`;
  - reading header fields back;
  - the fact that a header above a lyric moves the lyric's index down by the header's line count.
- `selection.dfy` (`Selection`) holds Python's stable `sort(key=...)` followed by taking element 0, with its reference definition: the earliest element with the least key.
- `fuzzytitle.dfy` (`FuzzyTitle`) holds `_fuzzy_title_from_filename`. Each of its three regular expressions is written as a deterministic function, and each function is proved to agree with its pattern. The split is also proved to give its text back once the removed separators, with their whitespace, are put back between the tokens.
- `songpick.dfy` (`SongPick`) holds the selection rule of `auto_pick_song` and `download_lrc`.
- `metadata.dfy` (`Metadata`) holds `extract_metadata`: the tag-key fallback `_get_first` and the fallback to the file-name title.
- `autodownload.dfy` (`AutoDownload`) holds `download_lyric_auto`, which puts the pieces together into the text shown in the editors.

All times are integer milliseconds.

## Model

| member | source | states |
|---|---|---|
| Strings.ZeroPadReadsBack | lyricsync_pro/app.py:739 | A `{n:0Wd}` field reads back, over its own characters, as `n`, whatever follows it |
| Strings.ZeroPadLength | lyricsync_pro/downloader.py:17 | `{n:0Wd}` is exactly `width` characters while `n` fits, and `str(n)` otherwise |
| Strings.DecimalValue | lyricsync_pro/app.py:804-805 | `int(str(n)) == n` |
| Strings.StripIsTrimmedSlice | lyricsync_pro/downloader.py:72 | `strip()` gives a slice of its input with only whitespace cut away on each side, and no whitespace at either end |
| Strings.StripPadded | lyricsync_pro/app.py:292 | `strip()` of a core padded with whitespace gives the core back |
| Strings.JoinPieces | lyricsync_pro/downloader.py:156 | Joining the line-feed pieces of a text with `\n` gives the text back |
| Strings.PiecesJoin | lyricsync_pro/downloader.py:156 | Splitting a `\n`-join of lines that hold no line feed gives the lines back |
| Strings.SplitLinesAfterJoin | lyricsync_pro/app.py:614 | `(join(p) + "\n" + after).splitlines()` is `p` followed by the lines of `after` |
| Strings.LineAfterBreak | lyricsync_pro/app.py:740-742 | A line written at the start of a line and ended by a line feed is the line numbered by the line feeds before it |
| TimeTag.FirstTagFromIsLeftmost | lyricsync_pro/app.py:803 | The first match `re.finditer` yields is at the leftmost position where the pattern matches, and there is none exactly when no position matches |
| TimeTag.TagPrefixReadsTag | lyricsync_pro/app.py:803-815 | Every well-formed tag (1-2 minute digits, 2 second digits, optional 1-3 fraction digits) is matched at the start of a text, with offset minutes·60000 + seconds·1000 + fraction |
| TimeTag.TagPrefixIsTag | lyricsync_pro/app.py:803 | Whatever matches is the text of a well-formed tag, with that tag's offset |
| TimeTag.TagAtReadsWrittenTag | lyricsync_pro/app.py:803-815 | A well-formed tag written at a position is matched there, with its offset |
| TimeTag.TagAtIsWrittenTag | lyricsync_pro/app.py:803-815 | A match at a position is a well-formed tag written there |
| TimeTag.FirstTagIsLeftmost | lyricsync_pro/app.py:803-817 | First tag wins: a line's offset is that of its leftmost well-formed tag, and a line gives no entry exactly when it holds no well-formed tag |
| TimeTag.FractionTrailingZero | lyricsync_pro/app.py:806-812 | `[00:01.5]`, `[00:01.50]` and `[00:01.500]` give the same offset: 1-3 fraction digits count tenths, hundredths or thousandths |
| TimeTag.LongFractionIsNoTag | lyricsync_pro/app.py:803-814 | A fraction of four or more digits makes the tag fail to match, so the `frac[:3]` cut of lines 813-814 never removes a digit: that branch only sees exactly three |
| TimeTag.LongMinutesIsNoTag | lyricsync_pro/app.py:803 | Three minute digits after `[` give no match at that `[` |
| TimeTag.LeadingTagWins | lyricsync_pro/app.py:803-817 | A well-formed tag at the start of a line gives the line's offset |
| TimeTag.NoDigitAfterBracketNoTag | lyricsync_pro/app.py:803 | A line in which no `[` is followed by a digit, such as a header line `[ti:...]`, gives no entry |
| TimeTag.Carry | lyricsync_pro/app.py:732-738 | After the carry, seconds are below 60 and milliseconds below 1000, and the total time is unchanged |
| TimeTag.CurrentTimeMs | lyricsync_pro/app.py:720-723 | The position clamped at zero: never below the position, and equal to it unless it is negative, in which case 0 |
| TimeTag.StampClock | lyricsync_pro/app.py:728-738 | The stamped seconds are below 60 and milliseconds below 1000, the minutes are the whole minutes, and together they add up to the position |
| TimeTag.StampTag | lyricsync_pro/app.py:739 | The stamp is one line, starts with `[` and ends with `]`, and is exactly eleven characters below 100 minutes |
| TimeTag.StampPartsAreTag | lyricsync_pro/app.py:739 | Below 100 minutes the `[mm:ss.mmm]` stamp is a well-formed tag whose offset is the position |
| TimeTag.StampReadsBack | lyricsync_pro/app.py:727-739 | Stamping and then parsing the line with the index pattern gives back exactly the position, below 100 minutes |
| TimeTag.LongStampIsNotRead | lyricsync_pro/app.py:739 | From 100 minutes on, the stamp has three minute digits and gives no index entry |
| TimeTag.TimeLabelReadsBack | lyricsync_pro/app.py:780-784 | `fmt` writes `mm:ss` with ss below 60, and minutes·60 + seconds are the whole seconds of the position, clamped at 0 |
| TimeTag.TimeLabel | lyricsync_pro/app.py:780-784 | The label has its colon third from the end, at least two digits of minutes before it, and is exactly five characters below 100 minutes |
| TimeTag.NegativeTimeLabel | lyricsync_pro/app.py:781 | A negative position shows as `00:00` |
| LrcIndex.ScanMembers | lyricsync_pro/app.py:801-817 | The scan yields exactly one entry per tagged line, holding that line's first-tag offset, with line numbers increasing |
| LrcIndex.ScanMember | lyricsync_pro/app.py:801-817 | An entry is scanned exactly when its line exists and the line's first tag has that offset |
| LrcIndex.Scan | lyricsync_pro/app.py:801-817 | The scan yields at most one entry per line |
| LrcIndex.InsertIsPermutation | lyricsync_pro/app.py:818 | One step of the stable sort adds exactly the inserted entry |
| LrcIndex.SortByTimeIsPermutation | lyricsync_pro/app.py:818 | The sort by time neither loses nor adds an entry |
| LrcIndex.SortByTime | lyricsync_pro/app.py:818 | The sort keeps the number of entries |
| LrcIndex.InsertTimeSorted | lyricsync_pro/app.py:818 | Inserting into a time-ordered sequence keeps it in time order |
| LrcIndex.SortByTimeSorted | lyricsync_pro/app.py:818 | The sort by time gives a time-ordered permutation of its input |
| LrcIndex.SortByTimeIsStable | lyricsync_pro/app.py:818 | Stability: entries scanned in line order come out ordered by time, then by line |
| LrcIndex.LexSortedUnique | lyricsync_pro/app.py:818 | At most one (time, line)-ordered sequence holds a given set of entries |
| LrcIndex.EmptyTextIndex | lyricsync_pro/app.py:800 | An empty text gives an empty index |
| LrcIndex.IndexContents | lyricsync_pro/app.py:798-818 | The index is exactly the entries of the text's tagged lines, in time order with ties in line order |
| LrcIndex.IndexOf | lyricsync_pro/app.py:798-818 | The index has at most one entry per line of the text |
| LrcIndex.IndexIsDetermined | lyricsync_pro/app.py:798-818 | The index depends on the text alone: any (time, line)-ordered sequence of those entries is it, so rebuilding twice gives the same index |
| LrcIndex.LeadingAtOrBefore | lyricsync_pro/app.py:826-830 | The number of leading entries at or before `t`: all of them are at or before `t`, and the next one is after it |
| LrcIndex.FindPosition | lyricsync_pro/app.py:824-830 | The loop ends at the last of the leading entries at or before `t`, or at 0 when there is none, and stays inside a non-empty index |
| LrcIndex.Resolved | lyricsync_pro/app.py:823-830 | The resolved position lies inside a non-empty index, and its entry is at or before `t` unless it is position 0 |
| LrcIndex.ResolvedIsLastAtOrBefore | lyricsync_pro/app.py:823-830 | On a time-sorted index the resolved position is the last one at or before `t`, so among equal times the later entry wins; it is position 0 when `t` precedes every entry |
| LrcIndex.ResolvedIsMonotone | lyricsync_pro/app.py:823-830 | A later playback time never resolves an earlier position |
| LrcIndex.SwappedPair | lyricsync_pro/app.py:818 | Two entries out of time order are swapped by the sort, and each resolves to its own position |
| LrcIndex.LinesNeedNotBeMonotone | lyricsync_pro/app.py:798-830 | With tags out of text order, a later time resolves an earlier line |
| Sync.Clamp | lyricsync_pro/app.py:881 | `max(0, min(y, maximum))` lies in [0, maximum], and leaves values already in range unchanged |
| Sync.ClampLine | lyricsync_pro/app.py:900 | The mirrored line is a line of the destination, and unchanged when it already is one |
| Sync.ClampIsIdempotent | lyricsync_pro/app.py:881-882 | Clamping twice is clamping once, so the bar keeps the value it is given |
| Sync.SyncWindow.constructor | lyricsync_pro/app.py:255-265 | The window starts with an empty text and index, current line -1 and the lock free |
| Sync.SyncWindow.RebuildIndex | lyricsync_pro/app.py:798-818 | The index is replaced by the index of the current text; the text, the views, the current line and the lock are unchanged |
| Sync.SyncWindow.Edit | lyricsync_pro/app.py:272 | Every change of the editable text rebuilds the index from the new text |
| Sync.SyncWindow.LoadAudio | lyricsync_pro/app.py:564-589 | Both views get the lyric (or are cleared), the index is that of the lyric (empty without one), and the current line is kept |
| Sync.SyncWindow.InsertAtCaret | lyricsync_pro/app.py:740-741 | The inserted text goes in at the caret, and the caret ends after it |
| Sync.SyncWindow.InsertTimestampLine | lyricsync_pro/app.py:725-745 | Without audio nothing changes; otherwise the stamp of the clamped position and a line break go in at the caret, the caret ends after them, and the index is rebuilt |
| Sync.StampedLineIsIndexed | lyricsync_pro/app.py:725-745 | A stamp made at the start of a line, below 100 minutes, puts an entry for exactly that position on that line into the rebuilt index |
| Sync.SyncWindow.SetScrollValue | lyricsync_pro/app.py:227-228 | The bar clamps the value; a change fires the mirror into the other view, and the lock is as before |
| Sync.SyncWindow.ScrollViewToLine | lyricsync_pro/app.py:863-883 | A line outside the document changes nothing; otherwise the view's value becomes the clamped pixel offset of the line |
| Sync.SyncWindow.SyncScrollFrom | lyricsync_pro/app.py:889-904 | With the lock held nothing moves; otherwise the destination shows the source's top line, clamped into its document, at its top; the source is unmoved and the lock is released |
| Sync.SyncWindow.ScrollBothToLine | lyricsync_pro/app.py:851-861 | With the lock held nothing moves; otherwise both views centre the line and are not mirrored into each other, and the lock is released |
| Sync.SyncWindow.UserScroll | lyricsync_pro/app.py:227-228 | The scrolled view takes the value clamped to its range. Only when that differs from its old value is the other view moved, to the scrolled view's top line clamped into its own document, at the value its own range allows. The lock is free afterwards |
| Sync.SyncWindow.ApplyHighlight | lyricsync_pro/app.py:839-849 | A line outside the view's document is ignored; otherwise it becomes the view's highlighted line |
| Sync.SyncWindow.UpdateHighlight | lyricsync_pro/app.py:820-837 | An empty index changes nothing. Otherwise the current line becomes the resolved entry's line. Only when that line differs from the previous one are both views highlighted and centred on it; with the lock held, neither view scrolls |
| Sync.SyncWindow.UpdateHighlightOnCurrentLine | lyricsync_pro/app.py:820-831 | When the position resolves to the current line, the update changes nothing: current line, lock, both scroll values and both highlights stay |
| Settings.DefaultOnlyForMissing | lyricsync_pro/app.py:288-291 | The default decides the result exactly when the value is missing |
| Settings.ToBool | lyricsync_pro/app.py:287-293 | A missing value gives the default, and a text whose stripped core is longer than four characters is false |
| Settings.TextIgnoresCaseAndPadding | lyricsync_pro/app.py:292-293 | A padded text is true exactly when its core, lower-cased, is one of `true 1 yes y t` |
| Settings.UnpaddedWord | lyricsync_pro/app.py:292-293 | A text with no whitespace at its ends is compared as it is, lower-cased |
| Settings.DigitWord | lyricsync_pro/app.py:293 | Of the five words, only `1` is made of digits |
| Settings.NumberIsTrueOnlyForOne | lyricsync_pro/app.py:292-293 | A number is true exactly when it is 1 |
| LrcHeader.LengthSplit | lyricsync_pro/downloader.py:12-13 | The length is its whole seconds plus a millisecond part below 1000 |
| LrcHeader.LengthTagValue | lyricsync_pro/downloader.py:11-17 | `mm` reads back as the whole seconds divided by 60, `ss` as their remainder below 60, and `cc` as the milliseconds divided by 10, below 100; below 100 minutes `mm:ss.cc` is a well-formed LRC time whose value is the length truncated to centiseconds |
| LrcHeader.WholeLengthHasNoCentiseconds | lyricsync_pro/downloader.py:13-16 | An `int` length is written with the fraction `00` |
| LrcHeader.FormatMmSsCc | lyricsync_pro/downloader.py:11-17 | The seconds and centiseconds take two digits each after `:` and `.`, and the whole is eight characters below 100 minutes |
| LrcHeader.FormatReadsBackAsTag | lyricsync_pro/downloader.py:11-17 | `[` + the formatted length + `]` is read by the index pattern as the length truncated to centiseconds |
| LrcHeader.FormatHasNoBreakOrBracket | lyricsync_pro/downloader.py:17 | The formatted length holds no line break and no `[` |
| LrcHeader.HeaderKeyReadBack | lyricsync_pro/downloader.py:148-153 | An optional `[key:value]` line is found by its key exactly when it is written |
| LrcHeader.HeaderFieldsReadBack | lyricsync_pro/downloader.py:145-156 | `ti` reads back exactly when the title is non-empty, `ar` exactly when the artist is non-empty, `length` exactly when a length is given (0 included); `by` and `match` always read back |
| LrcHeader.TitleReadBack | lyricsync_pro/downloader.py:148-149 | The title line is present exactly when the title is non-empty |
| LrcHeader.ArtistReadBack | lyricsync_pro/downloader.py:150-151 | The artist line is present exactly when the artist is non-empty |
| LrcHeader.LengthReadBack | lyricsync_pro/downloader.py:152-153 | The length line is present exactly when a length is given, and holds the formatted length |
| LrcHeader.TailReadBack | lyricsync_pro/downloader.py:154-155 | `[by:LyricSync Pro]` and `[match:tag]` are always present |
| LrcHeader.HeaderLinesArePlain | lyricsync_pro/downloader.py:145-156 | With fields free of line breaks and `[`, no header line holds a line break or gives an index entry |
| LrcHeader.HeaderLinesAreUnbroken | lyricsync_pro/downloader.py:145-156 | With title, artist and match tag free of line feeds, no header line holds one |
| LrcHeader.HeaderSplitsIntoLines | lyricsync_pro/downloader.py:156 | With title, artist and match tag free of line feeds (any other character, `[` included, allowed), the header joined with `\n`, with no final line feed, splits back into its lines in the fixed order ti, ar, length, by, match |
| LrcHeader.BuildLrcHeader | lyricsync_pro/downloader.py:145-156 | The header ends with a line feed and its `[match:...]` line |
| LrcHeader.ShiftedMember | lyricsync_pro/app.py:614 | An entry is in the shifted index exactly when it moved down from an entry of the original |
| LrcHeader.ShiftedIsSorted | lyricsync_pro/app.py:614 | Shifting keeps the (time, line) order |
| LrcHeader.IndexAfterPlainLines | lyricsync_pro/app.py:614 | Untagged lines in front of a text move every entry of its index down by their count, and keep the order |
| LrcHeader.HeaderShiftsIndex | lyricsync_pro/app.py:613-614 | The index of header + `\n` + lyric is the lyric's index moved down by the header's line count |
| Selection.InsertBy | lyricsync_pro/downloader.py:85 | One stable insertion step adds exactly its element |
| Selection.SortBy | lyricsync_pro/downloader.py:132 | `sort(key=...)` is a permutation |
| Selection.ArgMin | lyricsync_pro/downloader.py:132-133 | The earliest position of a least key |
| Selection.SortBySorted | lyricsync_pro/downloader.py:132 | The sort is ascending by key |
| Selection.SortByFirst | lyricsync_pro/downloader.py:85-86 | Stability at the front: element 0 after the sort is the earliest element with the least key |
| FuzzyTitle.TrackPrefixEnd | lyricsync_pro/downloader.py:77 | The end of the track-number match lies within the stem |
| FuzzyTitle.DropTrackNumber | lyricsync_pro/downloader.py:77 | Removing the prefix never lengthens the stem |
| FuzzyTitle.TrackPrefixIsMatch | lyricsync_pro/downloader.py:77 | What is removed is matched by `^\s*\d+\s*[-_. ]\s*` |
| FuzzyTitle.TrackPrefixIsLongestMatch | lyricsync_pro/downloader.py:77 | Every match of the pattern is found, and the one removed is the longest, as the greedy regex takes it |
| FuzzyTitle.DigitsOnlyStemIsKept | lyricsync_pro/downloader.py:77 | A stem of only digits is left intact |
| FuzzyTitle.CloserIn | lyricsync_pro/downloader.py:79 | The lazy `.*?` stops at the first closing bracket of any kind before a line feed, and finds none exactly when the line has none |
| FuzzyTitle.RemoveBrackets | lyricsync_pro/downloader.py:79 | Removing bracketed text never lengthens the text; `HeadWithoutMatchIsKept`, `ShortestSpanIsRemoved` and the empty case together fix its result on every text |
| FuzzyTitle.RemovalLeavesNoPair | lyricsync_pro/downloader.py:79 | After the substitution the bracket pattern matches nowhere |
| FuzzyTitle.NoPairIsKept | lyricsync_pro/downloader.py:79 | A text in which the pattern matches nowhere is left as it is |
| FuzzyTitle.RemovalIsIdempotent | lyricsync_pro/downloader.py:79 | Removing bracketed text twice removes nothing more |
| FuzzyTitle.ShortestSpanIsRemoved | lyricsync_pro/downloader.py:79 | An opener, text without a closer, and a closer of any kind are removed together, brackets need not match in kind |
| FuzzyTitle.HeadWithoutMatchIsKept | lyricsync_pro/downloader.py:79 | A character that starts no match (not an opener, or an opener with no closer after it on its line) is kept, and the removal goes on after it. Text outside the matches stays in place |
| FuzzyTitle.FirstSeparatorIsFirst | lyricsync_pro/downloader.py:81 | The position found holds one of `- – — _ \|` and no separator comes before it; when none is found the text holds no separator |
| FuzzyTitle.SplitFromCount | lyricsync_pro/downloader.py:81 | `re.split` gives one token more than there are separators |
| FuzzyTitle.SplitFromHasNoSeparator | lyricsync_pro/downloader.py:81 | No token of the split holds a separator |
| FuzzyTitle.SplitFrom | lyricsync_pro/downloader.py:81 | `re.split` gives at least one token, and exactly one when the text holds no separator |
| FuzzyTitle.SplitTitleRebuilds | lyricsync_pro/downloader.py:81 | The text is its tokens with one removed match between each two, and there is one match fewer than tokens. Each match is greedy on both sides: the token before it does not end in whitespace, and what follows it does not start with any |
| FuzzyTitle.SplitFromIsGreedy | lyricsync_pro/downloader.py:81 | Every match of the split takes all the whitespace on both sides of its separator, as the greedy `\s*` does |
| FuzzyTitle.MarksAreWell | lyricsync_pro/downloader.py:81 | Each removed match is whitespace, one separator, whitespace |
| FuzzyTitle.NonEmpty | lyricsync_pro/downloader.py:82 | The filter keeps exactly the non-empty tokens |
| FuzzyTitle.NonEmptyConcat | lyricsync_pro/downloader.py:82 | The filter keeps order and duplicates: filtering a concatenation is concatenating the filtered parts |
| FuzzyTitle.NonEmptyOne | lyricsync_pro/downloader.py:82 | A single token is kept exactly when it is non-empty |
| FuzzyTitle.TitleIsLongestToken | lyricsync_pro/downloader.py:74-86 | With no token left the stem comes back unchanged; otherwise the title is the earliest longest token, stripped |
| FuzzyTitle.FuzzyTitleFromFilename | lyricsync_pro/downloader.py:74-86 | With no token left the stem itself; otherwise one of the tokens, stripped |
| FuzzyTitle.PlainStemIsItsOwnTitle | lyricsync_pro/downloader.py:74-86 | A stem with no track number, bracket or separator comes back stripped |
| SongPick.PickIsClosest | lyricsync_pro/downloader.py:124-133 | No results give nothing; without a local duration the first result is picked; otherwise the pick is the earliest result closest in duration, a missing duration counting as 0 |
| SongPick.AutoPickSong | lyricsync_pro/downloader.py:124-133 | A song is picked exactly when there are results, and it is one of them |
| SongPick.MissingDurationCountsAsZero | lyricsync_pro/downloader.py:132 | A result without a duration is as far away as the local duration itself |
| SongPick.DownloadIsOfPick | lyricsync_pro/downloader.py:135-143 | The chosen song is the pick; a pick with an id gets exactly the lyric of that id, a pick without one gets no lyric, and a lyric is only ever the pick's; no results give (None, None) |
| SongPick.DownloadLrc | lyricsync_pro/downloader.py:135-143 | No results give (None, None); a chosen song is one of the results; a lyric comes only with a chosen song that has an id, and is that id's lyric |
| Metadata.GetFirstReadsFirstPresentKey | lyricsync_pro/downloader.py:54-63 | `_get_first` reads the first key in order that the tags hold, element 0 of a list, and gives `""` when none is held |
| Metadata.GetFirst | lyricsync_pro/downloader.py:54-63 | The lookup raises (None) only when the tags hold an empty list |
| Metadata.FuzzyExactlyWithoutTagTitle | lyricsync_pro/downloader.py:64-72 | The file-name title is used, with the flag set, exactly when the tags give no title |
| Metadata.ExtractMetadata | lyricsync_pro/downloader.py:28-72 | A kept duration is never zero, and a file the reader cannot read gives the file-name title, the flag set, no artist and no duration |
| Metadata.BlankTagTitleIsNotReplaced | lyricsync_pro/downloader.py:68-72 | A whitespace-only tag title is not replaced and comes back as `""` with the flag false |
| Metadata.DurationIsNonZeroLength | lyricsync_pro/downloader.py:41-42 | The duration is kept exactly when the reader gives a non-zero length |
| Metadata.FailedTitleLeavesNoArtist | lyricsync_pro/downloader.py:64-66 | A title lookup that raises leaves the artist empty and falls back to the file name |
| Metadata.ResultIsStripped | lyricsync_pro/downloader.py:72 | Title and artist have no whitespace at either end |
| Metadata.Id3TitleComesFirst | lyricsync_pro/downloader.py:46-49 | The ID3 `TIT2` title wins over every other spelling |
| AutoDownload.DownloadedTextIsHeaderAndLyric | lyricsync_pro/app.py:595-614 | A downloaded text needs a title and the non-empty lyric of the pick, which has an id, and is the header of the metadata, a line feed and that lyric |
| AutoDownload.PickedLyricIsDownloaded | lyricsync_pro/app.py:595-614 | Conversely, a title, a pick with an id and a non-empty lyric for it give the header of the metadata, a line feed and that lyric |
| AutoDownload.AutoDownloadText | lyricsync_pro/app.py:591-614 | A text is produced only with a non-empty title, and never without search results |
| AutoDownload.HeaderRecordsMatch | lyricsync_pro/app.py:599 | With title and artist free of line feeds, the header records the title and whether it came from the tags (`id3`) or the file name (`fuzzy`) |
| AutoDownload.DownloadedIndexIsShifted | lyricsync_pro/app.py:613-617 | The downloaded lyric's timestamps keep their times and move down past the header lines |

## Left out

- Qt widgets, fonts, dialogs, menus and settings storage are not modelled. Neither are the manual search dialog and the snapshot dialog, which are user interface only.
- The pixel layout of the views is not modelled: block rectangles, viewport height, float centring and `cursorForPosition`. The layout enters as a `Geometry` value. Only the integer clamps are modelled.
- `setPlainText` resets the scroll value and the extra selections of a view. The model keeps both across a load.
- Audio playback and the position slider are not modelled. The playback position is an integer-millisecond input.
- Sync.SyncWindow.InsertTimestampLine: the float rounding of `round((sec - int(sec)) * 1000)` is not modelled. An integer-millisecond position makes the carry of lines 733-738 unreachable, and `Carry` is proved on its own.
- LrcHeader.FormatMmSsCc: the float rounding that can give `cc = 100` is not modelled. The length is either an `int` of seconds or a whole number of milliseconds.
- SongPick.AutoPickSong: the length is one integer of milliseconds, used both as the pick target and in the `[length:]` header (AutoDownload.AutoDownloadText). Python truncates `int(seconds * 1000)` for the target (downloader.py:131) but rounds the fraction for the header (downloader.py:12-13). For a 2.01 s file `2.01 * 1000` is 2009.9999999999998, so Python aims at 2009 ms while the header says `00:02.01`. For a 1.005 s file with results of 1006 ms and 1004 ms, Python aims at 1004 and picks the second, while the model aims at 1005 and picks the first. This float truncation is not modelled.
- AutoDownload.AutoDownloadText: passes the same integer length to the pick and to the header, so the difference between Python's truncated target and its rounded header, described under SongPick.AutoPickSong, is not modelled.
- LrcIndex.Resolved: times are compared as integer milliseconds. Python compares `float` seconds, and for some three-digit fractions `mm * 60 + ss + fff / 1000.0` rounds above `pos_ms / 1000.0` for the same millisecond (for `[00:01.128]`, 1.1280000000000001 against 1.128). There Python picks the entry one millisecond later than the model does.
- Lines are split on `\n` only. Python's `splitlines` also breaks at `\r`, `\v`, `\f`, `\x1c`-`\x1e`, `\x85`, `\u2028` and `\u2029`.
- `\d` is modelled as the ASCII digits. Python's `\d` also accepts other Unicode decimal digits.
- Settings.Lower: `str.lower` is modelled on ASCII capitals only. The words `_to_bool` accepts are ASCII.
- `_to_bool` of other value types (lists, floats) is not modelled. The setting store returns booleans, numbers or text.
- Negative audio lengths are not modelled: a length is a natural number.
- The HTTP calls `search_songs` and `get_lyric_by_id` are not modelled. Their results are inputs: a sequence of songs and a function from song id to lyric. The search limit of 20 is not modelled.
- The mutagen tag reader is not modelled: what it returns for a file is an `AudioFile` input. Any exception while reading makes the file `Unrecognised`. A tag value is a text or a list of texts, and `str()` of other tag objects is not modelled.
- The tuple test in `_get_first` (downloader.py:56-57) is not modelled. It is dead code, because `("\xa9nam")` is a string and not a tuple.
- lyricsync_pro/storage.py (snapshot files) is not part of this model, and neither is lyricsync_pro/scanner.py (the folder scan on a worker thread). Both are file I/O.
- Saving the downloaded lyric to disk (app.py:618-621) is not modelled.
- LrcHeader.HeaderShiftsIndex asks the title, artist and match tag to hold no line feed and no `[`. Otherwise a field could add lines or timestamps of its own to the header.
- AutoDownload.DownloadedIndexIsShifted asks the same of the title and artist.
- Sync.SyncWindow.InsertAtCaret: the caret carries no selection. `cursor.insertText` (app.py:741) replaces a selected stretch of text, and so does stamping with a selection; InsertTimestampLine inherits the same gap.
- Sync.SyncWindow.Edit: the highlighted line of each view is kept as a line number across an edit (`SameViews`). In Qt an extra selection is anchored to the text and moves with lines inserted or removed above it; InsertTimestampLine and InsertAtCaret keep the number in the same way.
- Sync.SyncWindow.InsertTimestampLine: `setTextCursor` (app.py:743), like typing, keeps the caret visible and may scroll the editable view, which is then mirrored into the original one. The model keeps both scroll values across an edit.

Behaviour that follows the code where a reader might expect otherwise:
- A playback time before every entry resolves position 0 (the first entry), not "no line".
- A fraction of four or more digits is no tag at all. It is not truncated to milliseconds.
- Line numbers along the index need not increase with time.
- Rebuilding the index does not re-resolve the highlight, and loading a file does not reset the current line.
- A whitespace-only title tag gives an empty title, and the file name is not used because the flag stays false. `download_lyric_auto` then stops for want of a title.
