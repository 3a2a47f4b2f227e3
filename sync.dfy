/** The playback side of the main window of lyricsync_pro/app.py: the index
    field kept in step with the editable text, the highlighted line that
    follows the playback position, the timestamp stamp, and the two lyric
    views whose scrolling is mirrored under one reentrancy lock. */
module Sync {
  import opened Wrappers
  import opened Strings
  import opened TimeTag
  import opened LrcIndex

  /** The read-only original view and the editable view. */
  datatype Side = Original | Editable

  function Other(side: Side): Side {
    if side == Original then Editable else Original
  }

  /** Where a line is placed in its view (app.py:870-875). */
  datatype Align = Centre | Top | Bottom

  /** The layout the window draws, taken as given: the scroll-bar maximum of
      each view, the pixel position at which a line would sit for an
      alignment, and the number of the line under a view's top edge for a
      scroll value (`cursorForPosition`). */
  datatype Geometry = Geometry(
    maximum: Side -> nat,
    offset: (Side, nat, Align) -> int,
    topLine: (Side, nat) -> int)

  /** `max(0, min(y, maximum))` (app.py:881), also what a scroll bar does with
      any value it is given. */
  function Clamp(y: int, maximum: nat): (v: nat)
    ensures v <= maximum
    ensures 0 <= y <= maximum ==> v == y
    ensures y < 0 ==> v == 0
    ensures y > maximum ==> v == maximum
  {
    if y < 0 then 0 else if y > maximum then maximum else y
  }

  /** `max(0, min(bn, blockCount - 1))` (app.py:900): always a line of the
      destination document. */
  function ClampLine(bn: int, blocks: nat): (line: nat)
    requires blocks >= 1
    ensures line < blocks
    ensures 0 <= bn < blocks ==> line == bn
  {
    if bn < 0 then 0 else if bn > blocks - 1 then blocks - 1 else bn
  }

  /** Clamping twice is clamping once, so a clamped value set on a scroll bar
      is kept as it is. */
  lemma ClampIsIdempotent(y: int, maximum: nat)
    ensures Clamp(Clamp(y, maximum), maximum) == Clamp(y, maximum)
  {
  }

  /** The value `_scroll_editor_view_to_line` sets for a line of a view. */
  function LineValue(geom: Geometry, side: Side, line: nat, align: Align): nat {
    Clamp(geom.offset(side, line, align), geom.maximum(side))
  }

  /** The value the destination gets when the source view shows `srcValue`:
      the source's top line, clamped to the destination, placed at its top. */
  function Mirrored(geom: Geometry, src: Side, srcValue: nat, dstBlocks: nat): nat
    requires dstBlocks >= 1
  {
    LineValue(geom, Other(src), ClampLine(geom.topLine(src, srcValue), dstBlocks), Top)
  }

  /** The window state behind the playback sync. */
  class SyncWindow {
    /** The editable editor's plain text and its caret. */
    var text: string
    var caret: nat
    /** The read-only original editor's text. */
    var originalText: string
    /** Whether an audio file is selected (`current_audio`). */
    var hasAudio: bool
    /** `_lrc_index`. */
    var index: seq<Entry>
    /** `_current_line_no`, -1 before any highlight. */
    var currentLine: int
    /** `_sync_lock`. */
    var syncLock: bool
    /** The vertical scroll values of the two views. */
    var originalScroll: nat
    var editableScroll: nat
    /** The line each view highlights (its extra selection). */
    var originalHighlight: Option<nat>
    var editableHighlight: Option<nat>

    /** The index always belongs to the current text: every edit of the
        editor fires `textChanged`, which rebuilds it (app.py:272). */
    ghost predicate Valid()
      reads this
    {
      caret <= |text| && index == IndexOf(text)
    }

    function ScrollOf(side: Side): nat
      reads this
    {
      if side == Original then originalScroll else editableScroll
    }

    function HighlightOf(side: Side): Option<nat>
      reads this
    {
      if side == Original then originalHighlight else editableHighlight
    }

    /** The number of blocks of a view's document; a line is valid below it. */
    function BlocksOf(side: Side): (n: nat)
      reads this
      ensures n >= 1
    {
      BlockCount(if side == Original then originalText else text)
    }

    /** What no scrolling changes. */
    twostate predicate SameDocument()
      reads this
    {
      && text == old(text) && caret == old(caret) && originalText == old(originalText)
      && hasAudio == old(hasAudio) && index == old(index) && currentLine == old(currentLine)
      && originalHighlight == old(originalHighlight) && editableHighlight == old(editableHighlight)
    }

    /** What no edit of the text changes. */
    twostate predicate SameViews()
      reads this
    {
      && currentLine == old(currentLine) && syncLock == old(syncLock)
      && originalScroll == old(originalScroll) && editableScroll == old(editableScroll)
      && originalHighlight == old(originalHighlight) && editableHighlight == old(editableHighlight)
    }

    /** The window as it starts (app.py:255-265). */
    constructor ()
      ensures Valid()
      ensures text == "" && caret == 0 && originalText == "" && !hasAudio
      ensures index == [] && currentLine == -1 && !syncLock
      ensures originalScroll == 0 && editableScroll == 0
      ensures originalHighlight == None && editableHighlight == None
    {
      text, caret, originalText, hasAudio := "", 0, "", false;
      index, currentLine, syncLock := [], -1, false;
      originalScroll, editableScroll := 0, 0;
      originalHighlight, editableHighlight := None, None;
      new;
      EmptyTextIndex();
    }

    // ------------------------------------------------------------- the index

    /** rebuild_lrc_index (app.py:798-818): reset the index, append the first
        tag of each line, then sort by time. */
    method RebuildIndex()
      modifies this
      ensures index == IndexOf(text)
      ensures text == old(text) && caret == old(caret) && originalText == old(originalText)
      ensures hasAudio == old(hasAudio) && SameViews()
    {
      var lines := SplitLines(text);
      var entries: seq<Entry> := [];
      var i := 0;
      while i < |lines|
        invariant 0 <= i <= |lines|
        invariant entries == Scan(lines[..i])
      {
        assert lines[..i + 1][..i] == lines[..i];
        match FirstTag(lines[i]) {
          case Some(t) => entries := entries + [Entry(t, i)];
          case None =>
        }
        i := i + 1;
      }
      assert lines[..i] == lines;
      index := SortByTime(entries);
    }

    /** An edit of the editable text (typing, pasting, `setPlainText`), and
        the rebuild its `textChanged` signal runs. */
    method Edit(newText: string, newCaret: nat)
      requires newCaret <= |newText|
      modifies this
      ensures Valid()
      ensures text == newText && caret == newCaret && index == IndexOf(newText)
      ensures originalText == old(originalText) && hasAudio == old(hasAudio) && SameViews()
    {
      text, caret := newText, newCaret;
      RebuildIndex();
    }

    /** `cursor.insertText(s)` with no selection: `s` goes in at the caret
        and the caret moves past it. */
    method InsertAtCaret(s: string)
      requires Valid()
      modifies this
      ensures Valid()
      ensures text == old(text)[..old(caret)] + s + old(text)[old(caret)..]
      ensures caret == old(caret) + |s|
      ensures originalText == old(originalText) && hasAudio == old(hasAudio) && SameViews()
    {
      Edit(text[..caret] + s + text[caret..], caret + |s|);
    }

    /** load_audio (app.py:564-589), with the `.lrc` beside the audio file
        given as its text when it exists. Both views show the lyrics, and
        the index is rebuilt; with no lyrics both are cleared and the index
        emptied. The highlighted line number is kept. */
    method LoadAudio(lyrics: Option<string>)
      modifies this
      ensures Valid() && hasAudio
      ensures text == (if lyrics.Some? then lyrics.value else "") && originalText == text
      ensures caret == 0 && index == IndexOf(text)
      ensures lyrics.None? ==> index == []
      ensures SameViews()
    {
      hasAudio := true;
      match lyrics {
        case Some(content) =>
          originalText := content;
          Edit(content, 0);
          RebuildIndex();
        case None =>
          originalText := "";
          Edit("", 0);
          index := [];
          EmptyTextIndex();
      }
    }

    /** insert_timestamp_line (app.py:725-745): with an audio file selected,
        write the `[mm:ss.mmm]` tag for the clamped playback position and a
        line break at the caret, leave the caret after them, and rebuild. */
    method InsertTimestampLine(positionMs: int)
      requires Valid()
      modifies this
      ensures Valid()
      ensures !old(hasAudio) ==> text == old(text) && caret == old(caret)
      ensures old(hasAudio) ==>
        var tag := StampTag(CurrentTimeMs(positionMs));
        text == old(text)[..old(caret)] + tag + "\n" + old(text)[old(caret)..]
        && caret == old(caret) + |tag| + 1
      ensures originalText == old(originalText) && hasAudio == old(hasAudio) && SameViews()
    {
      if !hasAudio {
        return;
      }
      var tag := StampTag(CurrentTimeMs(positionMs));
      ghost var before, after := text[..caret], text[caret..];
      InsertAtCaret(tag);
      assert text[..caret] == before + tag && text[caret..] == after;
      InsertAtCaret("\n");
      RebuildIndex();
    }

    // -------------------------------------------------------------- scrolling

    /** `verticalScrollBar().setValue(v)`: the bar clamps `v` into its range
        and, when its value changes, emits `valueChanged`, which mirrors this
        view into the other (app.py:227-228). */
    method SetScrollValue(side: Side, v: int, geom: Geometry)
      modifies this
      decreases if syncLock then 0 else 1, 1
      ensures ScrollOf(side) == Clamp(v, geom.maximum(side))
      ensures ScrollOf(Other(side)) ==
        if old(syncLock) || Clamp(v, geom.maximum(side)) == old(ScrollOf(side)) then old(ScrollOf(Other(side)))
        else Mirrored(geom, side, Clamp(v, geom.maximum(side)), old(BlocksOf(Other(side))))
      ensures syncLock == old(syncLock) && SameDocument()
    {
      var nv := Clamp(v, geom.maximum(side));
      if nv != ScrollOf(side) {
        if side == Original {
          originalScroll := nv;
        } else {
          editableScroll := nv;
        }
        SyncScrollFrom(side, Other(side), geom);
      }
    }

    /** _scroll_editor_view_to_line (app.py:863-883): a line outside the
        view's document changes nothing; otherwise the view is scrolled to the
        clamped position of the line. */
    method ScrollViewToLine(side: Side, line: nat, align: Align, geom: Geometry)
      modifies this
      decreases if syncLock then 0 else 1, 2
      ensures line >= old(BlocksOf(side)) ==>
        ScrollOf(side) == old(ScrollOf(side)) && ScrollOf(Other(side)) == old(ScrollOf(Other(side)))
      ensures line < old(BlocksOf(side)) ==>
        var v := LineValue(geom, side, line, align);
        ScrollOf(side) == v
        && ScrollOf(Other(side)) ==
          if old(syncLock) || v == old(ScrollOf(side)) then old(ScrollOf(Other(side)))
          else Mirrored(geom, side, v, old(BlocksOf(Other(side))))
      ensures syncLock == old(syncLock) && SameDocument()
    {
      if line >= BlocksOf(side) {
        return;
      }
      var v := LineValue(geom, side, line, align);
      SetScrollValue(side, v, geom);
    }

    /** _sync_scroll_from (app.py:889-904): under the lock, put the source's
        top line, clamped to the destination's lines, at the destination's
        top. The lock keeps the destination's own `valueChanged` from
        scrolling the source back; it is released on every path. */
    method SyncScrollFrom(src: Side, dst: Side, geom: Geometry)
      requires dst == Other(src)
      modifies this
      decreases if syncLock then 0 else 1, 0
      ensures old(syncLock) ==> ScrollOf(dst) == old(ScrollOf(dst))
      ensures !old(syncLock) ==> ScrollOf(dst) == Mirrored(geom, src, old(ScrollOf(src)), old(BlocksOf(dst)))
      ensures ScrollOf(src) == old(ScrollOf(src))
      ensures syncLock == old(syncLock) && SameDocument()
    {
      if syncLock {
        return;
      }
      syncLock := true;
      var bn := ClampLine(geom.topLine(src, ScrollOf(src)), BlocksOf(dst));
      ScrollViewToLine(dst, bn, Top, geom);
      syncLock := false;
    }

    /** _scroll_both_to_line (app.py:851-861): under the lock, centre the line
        in the original view and then in the editable one; neither scroll is
        mirrored into the other, and the lock is released. When the lock is
        already held nothing happens. */
    method ScrollBothToLine(line: nat, geom: Geometry)
      modifies this
      ensures old(syncLock) ==> ScrollOf(Original) == old(ScrollOf(Original)) && ScrollOf(Editable) == old(ScrollOf(Editable))
      ensures !old(syncLock) ==>
        && ScrollOf(Original) == (if line < old(BlocksOf(Original)) then LineValue(geom, Original, line, Centre) else old(ScrollOf(Original)))
        && ScrollOf(Editable) == (if line < old(BlocksOf(Editable)) then LineValue(geom, Editable, line, Centre) else old(ScrollOf(Editable)))
      ensures syncLock == old(syncLock) && SameDocument()
    {
      if syncLock {
        return;
      }
      syncLock := true;
      ScrollViewToLine(Original, line, Centre, geom);
      ScrollViewToLine(Editable, line, Centre, geom);
      syncLock := false;
    }

    /** A scroll of one view by the user (the mouse wheel): the other view
        follows, and the lock is free again afterwards. */
    method UserScroll(side: Side, v: int, geom: Geometry)
      requires !syncLock
      modifies this
      ensures ScrollOf(side) == Clamp(v, geom.maximum(side))
      ensures Clamp(v, geom.maximum(side)) != old(ScrollOf(side)) ==>
        ScrollOf(Other(side)) == Mirrored(geom, side, Clamp(v, geom.maximum(side)), BlocksOf(Other(side)))
      ensures Clamp(v, geom.maximum(side)) == old(ScrollOf(side)) ==> ScrollOf(Other(side)) == old(ScrollOf(Other(side)))
      ensures !syncLock && SameDocument()
    {
      SetScrollValue(side, v, geom);
    }

    // ------------------------------------------------------------ highlight

    /** _apply_line_highlight (app.py:839-849): a line outside the view's
        document is ignored. */
    method ApplyHighlight(side: Side, line: nat)
      modifies this
      ensures HighlightOf(side) == if line < BlocksOf(side) then Some(line) else old(HighlightOf(side))
      ensures HighlightOf(Other(side)) == old(HighlightOf(Other(side)))
      ensures text == old(text) && caret == old(caret) && originalText == old(originalText)
      ensures hasAudio == old(hasAudio) && index == old(index) && currentLine == old(currentLine)
      ensures syncLock == old(syncLock) && originalScroll == old(originalScroll) && editableScroll == old(editableScroll)
    {
      if line >= BlocksOf(side) {
        return;
      }
      if side == Original {
        originalHighlight := Some(line);
      } else {
        editableHighlight := Some(line);
      }
    }

    /** update_lrc_highlight (app.py:820-837) for a playback position in
        milliseconds: with an empty index nothing changes; otherwise the line
        of the resolved entry becomes the current line, and only when it
        differs from the previous one are both views scrolled to it and
        highlighted. */
    method UpdateHighlight(positionMs: int, geom: Geometry)
      modifies this
      ensures index == old(index) && text == old(text) && caret == old(caret)
      ensures originalText == old(originalText) && hasAudio == old(hasAudio) && syncLock == old(syncLock)
      ensures index != [] ==> currentLine == index[Resolved(index, positionMs)].line
      ensures index == [] || currentLine == old(currentLine) ==>
        && currentLine == old(currentLine)
        && originalScroll == old(originalScroll) && editableScroll == old(editableScroll)
        && originalHighlight == old(originalHighlight) && editableHighlight == old(editableHighlight)
      ensures index != [] && currentLine != old(currentLine) ==>
        && HighlightOf(Original) == (if currentLine < BlocksOf(Original) then Some(currentLine as nat) else old(HighlightOf(Original)))
        && HighlightOf(Editable) == (if currentLine < BlocksOf(Editable) then Some(currentLine as nat) else old(HighlightOf(Editable)))
        && (!old(syncLock) ==>
          && ScrollOf(Original) == (if currentLine < BlocksOf(Original) then LineValue(geom, Original, currentLine as nat, Centre) else old(ScrollOf(Original)))
          && ScrollOf(Editable) == (if currentLine < BlocksOf(Editable) then LineValue(geom, Editable, currentLine as nat, Centre) else old(ScrollOf(Editable))))
        && (old(syncLock) ==> originalScroll == old(originalScroll) && editableScroll == old(editableScroll))
    {
      if index == [] {
        return;
      }
      var idx := FindPosition(index, positionMs);
      var lineNo := index[idx].line;
      if lineNo != currentLine {
        currentLine := lineNo;
        ScrollBothToLine(lineNo, geom);
        ApplyHighlight(Editable, lineNo);
        ApplyHighlight(Original, lineNo);
      }
    }

    /** An update for a position whose resolved line is already the current
        one changes nothing: no scroll, no highlight, the lock as it was.
        So repeated position updates within one line leave both views where
        they are (app.py:831). */
    method UpdateHighlightOnCurrentLine(positionMs: int, geom: Geometry)
      requires index != [] ==> currentLine == index[Resolved(index, positionMs)].line
      modifies this
      ensures currentLine == old(currentLine) && syncLock == old(syncLock)
      ensures originalScroll == old(originalScroll) && editableScroll == old(editableScroll)
      ensures originalHighlight == old(originalHighlight) && editableHighlight == old(editableHighlight)
      ensures text == old(text) && caret == old(caret) && index == old(index)
    {
      UpdateHighlight(positionMs, geom);
    }
  }

  /** With the caret at the start of a line, a stamp below 100 minutes puts
      an entry for exactly the stamped position on the caret's line into the
      rebuilt index. */
  lemma StampedLineIsIndexed(before: string, after: string, ms: nat)
    requires ms < 6000000
    requires before == "" || before[|before| - 1] == '\n'
    ensures Entry(ms, |Pieces(before)| - 1) in IndexOf(before + StampTag(ms) + "\n" + after)
  {
    StampIsOneTaggedLine(ms);
    LineIsIndexedAfterBreak(before, StampTag(ms), after, ms, before + StampTag(ms) + "\n" + after, |Pieces(before)| - 1);
  }

  /** A stamp is a single line whose leading tag reads back as the stamp. */
  lemma StampIsOneTaggedLine(ms: nat)
    requires ms < 6000000
    ensures '\n' !in StampTag(ms) && FirstTag(StampTag(ms)) == Some(ms)
  {
    StampPartsAreTag(ms);
    StampIsRendered(ms);
    WrittenTagIsOneTaggedLine(StampParts(ms), StampTag(ms), ms);
  }

  /** A well-formed tag written alone is one line that reads as its offset. */
  lemma WrittenTagIsOneTaggedLine(t: Tag, line: string, ms: nat)
    requires WellFormed(t) && Offset(t) == ms && Render(t) == line
    ensures '\n' !in line && FirstTag(line) == Some(ms)
  {
    RenderHasNoLineFeed(t);
    LeadingTagWins(t, "");
    assert Render(t) + "" == line;
  }

  /** A tagged line written just after a line break is indexed under its
      line number. */
  lemma LineIsIndexedAfterBreak(before: string, line: string, after: string, t: nat, text: string, k: nat)
    requires '\n' !in line && FirstTag(line) == Some(t)
    requires before == "" || before[|before| - 1] == '\n'
    requires text == before + line + "\n" + after && k == |Pieces(before)| - 1
    ensures Entry(t, k) in IndexOf(text)
  {
    LineAfterBreak(before, line, after);
    TaggedLineIsIndexed(text, k, line, t);
  }

  /** A line whose leading tag reads as `t` contributes its entry. */
  lemma TaggedLineIsIndexed(text: string, k: nat, line: string, t: nat)
    requires k < |SplitLines(text)| && SplitLines(text)[k] == line
    requires FirstTag(line) == Some(t)
    ensures Entry(t, k) in IndexOf(text)
  {
    IndexMember(text, Entry(t, k));
  }
}
