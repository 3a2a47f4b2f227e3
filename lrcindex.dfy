/** The LRC index of lyricsync_pro/app.py: the (time, line) entries taken
    from the text, stably sorted by time, and the playback lookup over them. */
module LrcIndex {
  import opened Wrappers
  import opened Strings
  import opened TimeTag

  /** One entry of `_lrc_index`: an offset in milliseconds and a line number. */
  datatype Entry = Entry(time: nat, line: nat)

  // --------------------------------------------------------------- scanning

  /** The entries of `lines`, in line order: each line with a tag gives one
      entry, its first tag's offset with its own line number. */
  function Scan(lines: seq<string>): (r: seq<Entry>)
    ensures |r| <= |lines|
  {
    if lines == [] then []
    else
      var n := |lines| - 1;
      match FirstTag(lines[n])
      case Some(t) => Scan(lines[..n]) + [Entry(t, n)]
      case None => Scan(lines[..n])
  }

  /** Lines are strictly increasing along a sequence of entries. */
  predicate LinesIncrease(s: seq<Entry>) {
    forall i, j :: 0 <= i < j < |s| ==> s[i].line < s[j].line
  }

  /** An entry is scanned exactly when its line has a tag with that
      offset. */
  lemma {:induction false} ScanMember(lines: seq<string>, e: Entry)
    ensures e in Scan(lines) <==> e.line < |lines| && FirstTag(lines[e.line]) == Some(e.time)
  {
    if lines != [] {
      var n := |lines| - 1;
      ScanMember(lines[..n], e);
      if e.line < n {
        assert lines[..n][e.line] == lines[e.line];
      }
    }
  }

  /** Every scanned entry names a line of the text. */
  lemma {:induction false} ScanLinesBelow(lines: seq<string>)
    ensures forall i :: 0 <= i < |Scan(lines)| ==> Scan(lines)[i].line < |lines|
  {
    if lines != [] {
      var n := |lines| - 1;
      ScanLinesBelow(lines[..n]);
    }
  }

  /** The scanned lines increase, so each line contributes at most once. */
  lemma {:induction false} ScanLinesIncrease(lines: seq<string>)
    ensures LinesIncrease(Scan(lines))
  {
    if lines != [] {
      var n := |lines| - 1;
      ScanLinesIncrease(lines[..n]);
      ScanLinesBelow(lines[..n]);
    }
  }

  /** The scan yields exactly the entries of the tagged lines, with line
      numbers increasing. */
  lemma ScanMembers(lines: seq<string>)
    ensures forall e :: e in Scan(lines) <==> e.line < |lines| && FirstTag(lines[e.line]) == Some(e.time)
    ensures LinesIncrease(Scan(lines))
  {
    forall e ensures e in Scan(lines) <==> e.line < |lines| && FirstTag(lines[e.line]) == Some(e.time) {
      ScanMember(lines, e);
    }
    ScanLinesIncrease(lines);
  }

  // ---------------------------------------------------------------- sorting

  /** Non-decreasing by time: the order `list.sort(key=time)` produces. */
  predicate TimeSorted(s: seq<Entry>) {
    forall i, j :: 0 <= i < j < |s| ==> s[i].time <= s[j].time
  }

  /** Ordered by time, then by line. */
  predicate Before(a: Entry, b: Entry) {
    a.time < b.time || (a.time == b.time && a.line < b.line)
  }

  /** Strictly increasing in (time, line) order. */
  predicate LexSorted(s: seq<Entry>) {
    forall i, j :: 0 <= i < j < |s| ==> Before(s[i], s[j])
  }

  /** One step of a stable insertion sort: `x` goes after every entry whose
      time is not later than its own. */
  function Insert(x: Entry, s: seq<Entry>): (r: seq<Entry>)
    ensures |r| == |s| + 1
  {
    if s == [] || s[|s| - 1].time <= x.time then s + [x]
    else
      var n := |s| - 1;
      Insert(x, s[..n]) + [s[n]]
  }

  lemma {:induction false} InsertIsPermutation(x: Entry, s: seq<Entry>)
    ensures multiset(Insert(x, s)) == multiset(s) + multiset{x}
  {
    if !(s == [] || s[|s| - 1].time <= x.time) {
      var n := |s| - 1;
      assert s == s[..n] + [s[n]];
      InsertIsPermutation(x, s[..n]);
    }
  }

  /** The stable sort by time (`_lrc_index.sort(key=lambda x: x[0])`,
      app.py:818): later elements are inserted after earlier ones of equal
      time. */
  function SortByTime(s: seq<Entry>): (r: seq<Entry>)
    ensures |r| == |s|
  {
    if s == [] then []
    else
      var n := |s| - 1;
      Insert(s[n], SortByTime(s[..n]))
  }

  lemma {:induction false} SortByTimeIsPermutation(s: seq<Entry>)
    ensures multiset(SortByTime(s)) == multiset(s)
  {
    if s != [] {
      var n := |s| - 1;
      assert s == s[..n] + [s[n]];
      SortByTimeIsPermutation(s[..n]);
      InsertIsPermutation(s[n], SortByTime(s[..n]));
    }
  }

  /** No time of `s` is after `b`. */
  predicate TimesAtMost(s: seq<Entry>, b: nat) {
    forall i :: 0 <= i < |s| ==> s[i].time <= b
  }

  lemma {:induction false} InsertTimesAtMost(x: Entry, s: seq<Entry>, b: nat)
    requires TimesAtMost(s, b) && x.time <= b
    ensures TimesAtMost(Insert(x, s), b)
  {
    if !(s == [] || s[|s| - 1].time <= x.time) {
      var n := |s| - 1;
      InsertTimesAtMost(x, s[..n], b);
    }
  }

  lemma {:induction false} InsertTimeSorted(x: Entry, s: seq<Entry>)
    requires TimeSorted(s)
    ensures TimeSorted(Insert(x, s))
  {
    if !(s == [] || s[|s| - 1].time <= x.time) {
      var n := |s| - 1;
      InsertTimeSorted(x, s[..n]);
      InsertTimesAtMost(x, s[..n], s[n].time);
    }
  }

  /** The sort's result is sorted by time and is a permutation of its input. */
  lemma {:induction false} SortByTimeSorted(s: seq<Entry>)
    ensures TimeSorted(SortByTime(s)) && multiset(SortByTime(s)) == multiset(s)
  {
    if s != [] {
      var n := |s| - 1;
      SortByTimeSorted(s[..n]);
      InsertTimeSorted(s[n], SortByTime(s[..n]));
    }
    SortByTimeIsPermutation(s);
  }

  /** Every entry of `s` comes before `y` in (time, line) order. */
  predicate AllBefore(s: seq<Entry>, y: Entry) {
    forall i :: 0 <= i < |s| ==> Before(s[i], y)
  }

  lemma {:induction false} InsertAllBefore(x: Entry, s: seq<Entry>, y: Entry)
    requires AllBefore(s, y) && Before(x, y)
    ensures AllBefore(Insert(x, s), y)
  {
    if !(s == [] || s[|s| - 1].time <= x.time) {
      var n := |s| - 1;
      InsertAllBefore(x, s[..n], y);
    }
  }

  /** No line of `s` is at or after `l`. */
  predicate LinesBelow(s: seq<Entry>, l: nat) {
    forall i :: 0 <= i < |s| ==> s[i].line < l
  }

  lemma {:induction false} InsertLexSorted(x: Entry, s: seq<Entry>)
    requires LexSorted(s) && LinesBelow(s, x.line)
    ensures LexSorted(Insert(x, s))
  {
    if s == [] || s[|s| - 1].time <= x.time {
      if s != [] {
        assert Before(s[|s| - 1], x);
      }
    } else {
      var n := |s| - 1;
      InsertLexSorted(x, s[..n]);
      InsertAllBefore(x, s[..n], s[n]);
    }
  }

  lemma {:induction false} InsertLinesBelow(x: Entry, s: seq<Entry>, l: nat)
    requires LinesBelow(s, l) && x.line < l
    ensures LinesBelow(Insert(x, s), l)
  {
    if !(s == [] || s[|s| - 1].time <= x.time) {
      var n := |s| - 1;
      InsertLinesBelow(x, s[..n], l);
    }
  }

  /** Sorting keeps every line below a bound. */
  lemma {:induction false} SortLinesBelow(s: seq<Entry>, l: nat)
    requires LinesBelow(s, l)
    ensures LinesBelow(SortByTime(s), l)
  {
    if s != [] {
      var n := |s| - 1;
      SortLinesBelow(s[..n], l);
      InsertLinesBelow(s[n], SortByTime(s[..n]), l);
    }
  }

  /** Stability: sorting entries whose lines increase orders them by time,
      and entries of equal time keep ascending line order. */
  lemma {:induction false} SortByTimeIsStable(s: seq<Entry>)
    requires LinesIncrease(s)
    ensures LexSorted(SortByTime(s))
  {
    if s != [] {
      var n := |s| - 1;
      SortByTimeIsStable(s[..n]);
      SortLinesBelow(s[..n], s[n].line);
      InsertLexSorted(s[n], SortByTime(s[..n]));
    }
  }

  /** The first entry of a sequence in (time, line) order is its least. */
  lemma LexFirstIsLeast(s: seq<Entry>, e: Entry)
    requires LexSorted(s) && e in s
    ensures s[0] == e || Before(s[0], e)
  {
  }

  /** Sequences with the same members are empty together. */
  lemma SameMembersBothEmpty(a: seq<Entry>, b: seq<Entry>)
    requires forall e :: e in a <==> e in b
    ensures a == [] <==> b == []
  {
    if a != [] {
      assert a[0] in b;
    }
    if b != [] {
      assert b[0] in a;
    }
  }

  /** At most one sequence in (time, line) order holds a given set of entries. */
  lemma {:induction false} LexSortedUnique(a: seq<Entry>, b: seq<Entry>)
    requires LexSorted(a) && LexSorted(b)
    requires forall e :: e in a <==> e in b
    ensures a == b
    decreases |a|
  {
    SameMembersBothEmpty(a, b);
    if a != [] {
      LexFirstIsLeast(a, b[0]);
      LexFirstIsLeast(b, a[0]);
      assert a[0] == b[0];
      forall e ensures e in a[1..] <==> e in b[1..] {
        if e in a[1..] {
          var i :| 1 <= i < |a| && a[i] == e;
          assert Before(a[0], e);
          assert e in b;
        }
        if e in b[1..] {
          var j :| 1 <= j < |b| && b[j] == e;
          assert Before(b[0], e);
          assert e in a;
        }
      }
      LexSortedUnique(a[1..], b[1..]);
      assert a == [a[0]] + a[1..];
      assert b == [b[0]] + b[1..];
    }
  }

  // ------------------------------------------------------------------ index

  /** The index of a text (rebuild_lrc_index, app.py:798-818): at most one
      entry for each line. */
  function IndexOf(text: string): (r: seq<Entry>)
    ensures |r| <= |SplitLines(text)|
  {
    SortByTime(Scan(SplitLines(text)))
  }

  /** An empty text has an empty index. */
  lemma EmptyTextIndex()
    ensures IndexOf("") == []
  {
    assert Pieces("") == [""];
  }

  /** One entry is in the index exactly when its line carries a tag with
      that offset. */
  lemma IndexMember(text: string, e: Entry)
    ensures e in IndexOf(text) <==>
      e.line < |SplitLines(text)| && FirstTag(SplitLines(text)[e.line]) == Some(e.time)
  {
    ScanMembers(SplitLines(text));
    SortByTimeIsPermutation(Scan(SplitLines(text)));
    assert e in IndexOf(text) <==> e in multiset(IndexOf(text));
  }

  /** The index is ordered by time, and by line among equal times. */
  lemma IndexSorted(text: string)
    ensures LexSorted(IndexOf(text)) && TimeSorted(IndexOf(text))
  {
    var scanned := Scan(SplitLines(text));
    ScanMembers(SplitLines(text));
    SortByTimeSorted(scanned);
    SortByTimeIsStable(scanned);
  }

  /** What the index is: exactly the entries of the text's tagged lines,
      ordered by time and then by line, and sorted by time. */
  lemma IndexContents(text: string)
    ensures forall e :: e in IndexOf(text) <==>
      e.line < |SplitLines(text)| && FirstTag(SplitLines(text)[e.line]) == Some(e.time)
    ensures LexSorted(IndexOf(text)) && TimeSorted(IndexOf(text))
  {
    forall e ensures e in IndexOf(text) <==>
      e.line < |SplitLines(text)| && FirstTag(SplitLines(text)[e.line]) == Some(e.time)
    {
      IndexMember(text, e);
    }
    IndexSorted(text);
  }

  /** The index is the one sequence with those properties: any sequence in
      (time, line) order holding exactly the tagged lines' entries is it. */
  lemma IndexIsDetermined(text: string, other: seq<Entry>)
    requires LexSorted(other)
    requires forall e :: e in other <==>
      e.line < |SplitLines(text)| && FirstTag(SplitLines(text)[e.line]) == Some(e.time)
    ensures other == IndexOf(text)
  {
    IndexContents(text);
    LexSortedUnique(other, IndexOf(text));
  }

  // ----------------------------------------------------------------- lookup

  /** The number of leading entries at or before `t`: where the loop of
      update_lrc_highlight (app.py:824-830) stops. */
  function LeadingAtOrBefore(index: seq<Entry>, t: int): (k: nat)
    ensures k <= |index|
    ensures forall j :: 0 <= j < k ==> index[j].time <= t
    ensures k == |index| || index[k].time > t
  {
    if index == [] || index[0].time > t then 0
    else 1 + LeadingAtOrBefore(index[1..], t)
  }

  /** The position the loop resolves: the last of the leading entries at or
      before `t`, and 0 when there is none (`idx` starts at 0). It is a
      position of a non-empty index, and its entry is at or before `t`
      unless it is the first one. */
  function Resolved(index: seq<Entry>, t: int): (r: nat)
    ensures index != [] ==> r < |index|
    ensures 0 < r < |index| ==> index[r].time <= t
  {
    var k := LeadingAtOrBefore(index, t);
    if k == 0 then 0 else k - 1
  }

  /** The lookup loop: `idx` follows the entries at or before `t` and the
      loop stops at the first later one. */
  method FindPosition(index: seq<Entry>, t: int) returns (idx: nat)
    ensures idx == Resolved(index, t)
    ensures index != [] ==> idx < |index|
  {
    idx := 0;
    var j := 0;
    while j < |index|
      invariant 0 <= j <= |index|
      invariant forall k :: 0 <= k < j ==> index[k].time <= t
      invariant idx == if j == 0 then 0 else j - 1
    {
      if index[j].time <= t {
        idx := j;
      } else {
        break;
      }
      j := j + 1;
    }
    LeadingIs(index, t, j);
  }

  /** The first entry after `t` fixes the count of leading entries. */
  lemma {:induction false} LeadingIs(index: seq<Entry>, t: int, j: nat)
    requires j <= |index|
    requires forall k :: 0 <= k < j ==> index[k].time <= t
    requires j == |index| || index[j].time > t
    ensures LeadingAtOrBefore(index, t) == j
  {
    if j > 0 {
      LeadingIs(index[1..], t, j - 1);
    }
  }

  /** On a time-sorted index, the resolved position is the last at or before
      `t` (so among equal times the later entry wins), or the first entry
      when `t` precedes them all. */
  lemma ResolvedIsLastAtOrBefore(index: seq<Entry>, t: int)
    requires TimeSorted(index) && index != []
    ensures var r := Resolved(index, t);
      r < |index|
      && (index[0].time <= t ==> index[r].time <= t && forall j :: r < j < |index| ==> index[j].time > t)
      && (t < index[0].time ==> r == 0)
  {
  }

  /** Later playback never resolves an earlier position. */
  lemma ResolvedIsMonotone(index: seq<Entry>, t1: int, t2: int)
    requires TimeSorted(index) && t1 <= t2
    ensures Resolved(index, t1) <= Resolved(index, t2)
  {
  }

  /** A single tagged line gives its one entry. */
  lemma ScanOneLine(lines: seq<string>, t0: nat)
    requires |lines| == 1 && FirstTag(lines[0]) == Some(t0)
    ensures Scan(lines) == [Entry(t0, 0)]
  {
    assert lines[..0] == [];
  }

  /** Two tagged lines give one entry each, in line order. */
  lemma ScanTwoLines(lines: seq<string>, t0: nat, t1: nat)
    requires |lines| == 2 && FirstTag(lines[0]) == Some(t0) && FirstTag(lines[1]) == Some(t1)
    ensures Scan(lines) == [Entry(t0, 0), Entry(t1, 1)]
  {
    ScanOneLine(lines[..1], t0);
  }

  /** Two entries out of time order are swapped by the sort, and each time
      resolves its own entry. */
  lemma SwappedPair(x: Entry, y: Entry)
    requires y.time < x.time
    ensures SortByTime([x, y]) == [y, x]
    ensures Resolved([y, x], y.time) == 0 && Resolved([y, x], x.time) == 1
  {
    assert [x, y][..1] == [x];
    assert [x][..0] == [];
    assert SortByTime([x]) == [x];
    assert Insert(y, [x]) == [y, x];
    LeadingIs([y, x], y.time, 1);
    LeadingIs([y, x], x.time, 2);
  }

  /** Line numbers need not follow the positions: with its tags out of text
      order, a later time resolves an earlier line. */
  lemma LinesNeedNotBeMonotone(a: Tag, b: Tag, la: string, lb: string)
    requires WellFormed(a) && WellFormed(b) && Offset(b) < Offset(a)
    requires '\n' !in la && '\n' !in lb
    ensures var index := IndexOf(Render(a) + la + "\n" + Render(b) + lb);
      index == [Entry(Offset(b), 1), Entry(Offset(a), 0)]
      && index[Resolved(index, Offset(b))].line == 1
      && index[Resolved(index, Offset(a))].line == 0
  {
    var l0, l1 := Render(a) + la, Render(b) + lb;
    RenderHasNoLineFeed(a);
    RenderHasNoLineFeed(b);
    SplitTwoLines(l0, l1);
    assert Render(a) + la + "\n" + Render(b) + lb == l0 + "\n" + l1;
    LeadingTagWins(a, la);
    LeadingTagWins(b, lb);
    ScanTwoLines([l0, l1], Offset(a), Offset(b));
    SwappedPair(Entry(Offset(a), 0), Entry(Offset(b), 1));
  }
}
