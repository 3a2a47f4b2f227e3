/** LRC timestamp tags (lyricsync_pro/app.py): reading the first
    `[m:ss]` / `[mm:ss.f]` tag of a line as an offset in milliseconds, writing
    the `[mm:ss.mmm]` tag for the playback position, and the `mm:ss` time label. */
module TimeTag {
  import opened Wrappers
  import opened Strings

  // ------------------------------------------------------------ the grammar

  /** A tag as written: `[` minutes `:` seconds, an optional `.` fraction, `]`. */
  datatype Tag = Tag(minutes: string, seconds: string, fraction: Option<string>)

  /** The digit counts the pattern `\[(\d{1,2}):(\d{2})(?:\.(\d{1,3}))?\]` admits. */
  predicate WellFormed(t: Tag) {
    && 1 <= |t.minutes| <= 2 && AllDigits(t.minutes)
    && |t.seconds| == 2 && AllDigits(t.seconds)
    && (t.fraction.Some? ==> 1 <= |t.fraction.value| <= 3 && AllDigits(t.fraction.value))
  }

  function Render(t: Tag): string {
    "[" + t.minutes + ":" + t.seconds + Closing(t)
  }

  /** What is written after the seconds: the fraction, if any, and `]`. */
  function Closing(t: Tag): string {
    (if t.fraction.Some? then "." + t.fraction.value else "") + "]"
  }

  /** A fraction of 1, 2 or 3 digits counts tenths, hundredths or thousandths. */
  function FractionMs(f: string): nat
    requires AllDigits(f) && 1 <= |f| <= 3
  {
    if |f| == 1 then Value(f) * 100 else if |f| == 2 then Value(f) * 10 else Value(f)
  }

  /** minutes * 60 + seconds + fraction, in milliseconds; the seconds are not
      range-checked. */
  function Offset(t: Tag): nat
    requires WellFormed(t)
  {
    Value(t.minutes) * 60000 + Value(t.seconds) * 1000
    + (if t.fraction.Some? then FractionMs(t.fraction.value) else 0)
  }

  /** Whether the text of `t` starts at position `i` of `s`. */
  predicate WrittenAt(s: string, i: nat, t: Tag) {
    i + |Render(t)| <= |s| && s[i..i + |Render(t)|] == Render(t)
  }

  /** A well-formed tag holds no line break. */
  lemma RenderHasNoLineFeed(t: Tag)
    requires WellFormed(t)
    ensures '\n' !in Render(t)
  {
  }

  // ------------------------------------------------------------- the reader

  /** What follows the seconds: `]` (no fraction), or `.`, a whole run of
      one to three digits and `]` (those digits). */
  function ParseClosing(v: string): Option<Option<string>>
    requires |v| > 0
  {
    if v[0] == ']' then Some(None)
    else if v[0] == '.' then
      var f := DigitRun(v, 1);
      if 1 <= f <= 3 && 1 + f < |v| && v[1 + f] == ']' then Some(Some(v[1..1 + f])) else None
    else None
  }

  /** The match of the tag pattern at the very start of `u`, as the tag
      written there. The regular expression's backtracking is resolved: the
      minute digits must be a whole run of one or two digits, and the
      fraction a whole run of one to three. */
  function ParseTag(u: string): Option<Tag>
  {
    if |u| > 0 && u[0] == '[' then
      var m := DigitRun(u, 1);
      var c := 1 + m;
      if (m == 1 || m == 2) && c + 3 < |u| && u[c] == ':' && IsDigit(u[c + 1]) && IsDigit(u[c + 2]) then
        match ParseClosing(u[c + 3..])
        case Some(fraction) => Some(Tag(u[1..c], u[c + 1..c + 3], fraction))
        case None => None
      else None
    else None
  }

  /** What the reader finds has the digit counts of the pattern. */
  lemma ParsedIsWellFormed(u: string)
    requires ParseTag(u).Some?
    ensures WellFormed(ParseTag(u).value)
  {
    var c := 1 + DigitRun(u, 1);
    DigitRunHolds(u, 1);
    var v := u[c + 3..];
    if v[0] != ']' {
      DigitRunHolds(v, 1);
    }
  }

  /** The match at the very start of `u` as an offset in milliseconds
      (app.py:804-815). */
  function TagPrefix(u: string): Option<nat>
  {
    match ParseTag(u)
    case Some(t) => ParsedIsWellFormed(u); Some(Offset(t))
    case None => None
  }

  /** The match of the tag pattern starting at position `i` of `s`. */
  function TagAt(s: string, i: nat): Option<nat>
  {
    if i < |s| then TagPrefix(s[i..]) else None
  }

  /** The leftmost match at or after position `i` (`re.finditer` and the
      `break` after the first match, app.py:803-817). */
  function FirstTagFrom(s: string, i: nat): Option<nat>
    requires i <= |s|
    decreases |s| - i
  {
    if i == |s| then None
    else if TagAt(s, i).Some? then TagAt(s, i)
    else FirstTagFrom(s, i + 1)
  }

  /** The match found is at the leftmost position where the pattern
      matches, and there is none exactly when no position matches. */
  lemma FirstTagFromIsLeftmost(s: string, i: nat)
    requires i <= |s|
    ensures FirstTagFrom(s, i).Some? ==> exists k :: (i <= k < |s| && TagAt(s, k) == FirstTagFrom(s, i)
      && forall j :: i <= j < k ==> TagAt(s, j).None?)
    ensures FirstTagFrom(s, i).None? ==> forall j :: i <= j < |s| ==> TagAt(s, j).None?
  {
    if FirstTagFrom(s, i).Some? {
      FoundTagIsLeftmost(s, i);
    } else {
      NoTagFound(s, i);
    }
  }

  lemma {:induction false} FoundTagIsLeftmost(s: string, i: nat)
    requires i <= |s| && FirstTagFrom(s, i).Some?
    ensures exists k :: (i <= k < |s| && TagAt(s, k) == FirstTagFrom(s, i)
      && forall j :: i <= j < k ==> TagAt(s, j).None?)
    decreases |s| - i
  {
    if TagAt(s, i).None? {
      FoundTagIsLeftmost(s, i + 1);
    }
  }

  lemma {:induction false} NoTagFound(s: string, i: nat)
    requires i <= |s| && FirstTagFrom(s, i).None?
    ensures forall j :: i <= j < |s| ==> TagAt(s, j).None?
    decreases |s| - i
  {
    if i < |s| {
      NoTagFound(s, i + 1);
    }
  }

  /** The offset a line contributes to the index, if any. */
  function FirstTag(line: string): Option<nat> {
    FirstTagFrom(line, 0)
  }

  /** A run of exactly `n` digits starts at `i`. */
  lemma {:induction false} DigitRunIs(u: string, i: nat, n: nat)
    requires i + n < |u|
    requires forall k :: i <= k < i + n ==> IsDigit(u[k])
    requires !IsDigit(u[i + n])
    ensures DigitRun(u, i) == n
    decreases n
  {
    if n > 0 {
      DigitRunIs(u, i + 1, n - 1);
    }
  }

  /** The closing of a written tag is read back as its fraction. */
  lemma ParseClosingReadsTag(t: Tag, rest: string)
    requires WellFormed(t)
    ensures ParseClosing(Closing(t) + rest) == Some(t.fraction)
  {
    if t.fraction.Some? {
      var f := t.fraction.value;
      var v := "." + f + "]" + rest;
      assert Closing(t) + rest == v;
      DigitRunIs(v, 1, |f|);
      assert v[1..1 + |f|] == f;
    }
  }

  /** `u` is `[`, the minutes, `:`, the seconds and then `v`. */
  predicate OpensTag(u: string, mm: string, ss: string, v: string) {
    && |u| == 4 + |mm| + |v| && |ss| == 2
    && u[0] == '[' && u[1..1 + |mm|] == mm && u[1 + |mm|] == ':'
    && u[2 + |mm|..4 + |mm|] == ss && u[4 + |mm|..] == v
  }

  /** The reader, on a text that opens with a minutes and seconds field of
      the right digit counts, reads what follows the seconds. */
  lemma ParseTagOfOpening(u: string, mm: string, ss: string, v: string)
    requires OpensTag(u, mm, ss, v) && |v| > 0
    requires 1 <= |mm| <= 2 && AllDigits(mm) && AllDigits(ss)
    ensures ParseClosing(v).Some? ==> ParseTag(u) == Some(Tag(mm, ss, ParseClosing(v).value))
    ensures ParseClosing(v).None? ==> ParseTag(u).None?
  {
    var m := |mm|;
    forall k | 1 <= k < 1 + m ensures IsDigit(u[k]) {
      assert u[k] == u[1..1 + m][k - 1];
    }
    DigitRunIs(u, 1, m);
    assert u[2 + m] == ss[0] && u[3 + m] == ss[1] by {
      assert u[2 + m..4 + m][0] == u[2 + m] && u[2 + m..4 + m][1] == u[3 + m];
    }
  }

  /** The pieces of a written tag followed by more text. */
  lemma RenderOpensTag(t: Tag, rest: string)
    requires |t.seconds| == 2
    ensures OpensTag(Render(t) + rest, t.minutes, t.seconds, Closing(t) + rest)
  {
    var mm, ss := t.minutes, t.seconds;
    var tail := Closing(t) + rest;
    var u := "[" + mm + ":" + ss + tail;
    assert Render(t) + rest == u;
    assert u[1..1 + |mm|] == mm;
    assert u[2 + |mm|..4 + |mm|] == ss;
    assert u[4 + |mm|..] == tail;
  }

  /** Reading a written tag gives back that very tag. */
  lemma ParseTagReadsTag(t: Tag, rest: string)
    requires WellFormed(t)
    ensures ParseTag(Render(t) + rest) == Some(t)
  {
    RenderOpensTag(t, rest);
    ParseClosingReadsTag(t, rest);
    ParseTagOfOpening(Render(t) + rest, t.minutes, t.seconds, Closing(t) + rest);
  }

  /** Any well-formed tag at the start of a text is read, with its offset. */
  lemma TagPrefixReadsTag(t: Tag, rest: string)
    requires WellFormed(t)
    ensures TagPrefix(Render(t) + rest) == Some(Offset(t))
  {
    ParseTagReadsTag(t, rest);
  }

  /** Any well-formed tag written at `i` is read there, with its offset. */
  lemma TagAtReadsWrittenTag(s: string, i: nat, t: Tag)
    requires WellFormed(t) && WrittenAt(s, i, t)
    ensures TagAt(s, i) == Some(Offset(t))
  {
    var w := Render(t);
    assert s[i..] == w + s[i + |w|..];
    TagPrefixReadsTag(t, s[i + |w|..]);
  }

  /** A text that starts with `a` and continues with `b` starts with
      `a + b`. */
  lemma PrefixJoin(u: string, a: string, b: string)
    requires |a| + |b| <= |u| && u[..|a|] == a && u[|a|..|a| + |b|] == b
    ensures u[..|a| + |b|] == a + b
  {
    assert u[..|a| + |b|] == u[..|a|] + u[|a|..|a| + |b|];
  }

  /** Where the fields of what the reader accepts sit in the text. */
  lemma ParsedOpening(u: string)
    requires ParseTag(u).Some?
    ensures var c := 1 + DigitRun(u, 1); var t := ParseTag(u).value;
      && 2 <= c && c + 3 < |u| && u[0] == '[' && u[c] == ':'
      && t.minutes == u[1..c] && t.seconds == u[c + 1..c + 3]
      && ParseClosing(u[c + 3..]) == Some(t.fraction)
  {
    var c := 1 + DigitRun(u, 1);
    assert |u| > 0 && u[0] == '[';
    assert 2 <= c <= 3 && c + 3 < |u| && u[c] == ':';
    var f := ParseClosing(u[c + 3..]);
    assert f.Some? && ParseTag(u) == Some(Tag(u[1..c], u[c + 1..c + 3], f.value));
  }

  /** A text opening with `[`, then `:` at `c`, starts with `[`, the text
      between, `:` and the two characters after. */
  lemma OpeningText(u: string, c: nat)
    requires 1 <= c && c + 3 <= |u| && u[0] == '[' && u[c] == ':'
    ensures u[..c + 3] == "[" + u[1..c] + ":" + u[c + 1..c + 3]
  {
    PrefixJoin(u, "[", u[1..c]);
    PrefixJoin(u, "[" + u[1..c], ":");
    PrefixJoin(u, "[" + u[1..c] + ":", u[c + 1..c + 3]);
  }

  /** Where the fraction read after the seconds at `q` sits in the text. */
  lemma ParsedClosing(u: string, q: nat, fraction: Option<string>)
    requires q < |u| && ParseClosing(u[q..]) == Some(fraction)
    ensures fraction.None? ==> u[q] == ']'
    ensures fraction.Some? ==> var f := |fraction.value|;
      && q + 1 + f < |u| && u[q] == '.' && u[q + 1..q + 1 + f] == fraction.value && u[q + 1 + f] == ']'
  {
    var v := u[q..];
    if v[0] != ']' {
      var f := DigitRun(v, 1);
      assert v[1..1 + f] == u[q + 1..q + 1 + f];
    }
  }

  /** A text with `.` at 0 and `]` at `1 + f` starts with `.`, the text
      between and `]`. */
  lemma ClosingText(v: string, f: nat)
    requires 1 + f < |v| && v[0] == '.' && v[1 + f] == ']'
    ensures v[..2 + f] == "." + v[1..1 + f] + "]"
  {
    PrefixJoin(v, ".", v[1..1 + f]);
    PrefixJoin(v, "." + v[1..1 + f], "]");
  }

  /** A text that starts with a tag's opening and then its closing starts
      with the tag's text. */
  lemma RenderFromPieces(u: string, t: Tag, closing: string)
    requires closing == Closing(t)
    requires var q := 2 + |t.minutes| + |t.seconds|;
      q + |closing| <= |u| && u[..q] == "[" + t.minutes + ":" + t.seconds && u[q..q + |closing|] == closing
    ensures |Render(t)| <= |u| && u[..|Render(t)|] == Render(t)
  {
    var q := 2 + |t.minutes| + |t.seconds|;
    PrefixJoin(u, u[..q], closing);
    assert Render(t) == u[..q] + closing;
  }

  /** A text holding a tag's fields where the reader looks for them starts
      with the tag's text. */
  lemma WrittenFromFields(u: string, t: Tag, c: nat)
    requires 2 <= c && c + 3 < |u| && u[0] == '[' && u[c] == ':'
    requires t.minutes == u[1..c] && t.seconds == u[c + 1..c + 3]
    requires t.fraction.None? ==> u[c + 3] == ']'
    requires t.fraction.Some? ==> var f := |t.fraction.value|;
      && c + 4 + f < |u| && u[c + 3] == '.' && u[c + 4..c + 4 + f] == t.fraction.value && u[c + 4 + f] == ']'
    ensures |Render(t)| <= |u| && u[..|Render(t)|] == Render(t)
  {
    var q := c + 3;
    OpeningText(u, c);
    if t.fraction.None? {
      assert u[q..q + 1] == "]";
      RenderFromPieces(u, t, "]");
    } else {
      var v := u[q..];
      var f := |t.fraction.value|;
      ClosingText(v, f);
      assert u[q..q + 2 + f] == v[..2 + f];
      RenderFromPieces(u, t, v[..2 + f]);
    }
  }

  /** What the reader finds is written at the start of the text. */
  lemma ParsedIsWritten(u: string)
    requires ParseTag(u).Some?
    ensures |Render(ParseTag(u).value)| <= |u| && u[..|Render(ParseTag(u).value)|] == Render(ParseTag(u).value)
  {
    var c := 1 + DigitRun(u, 1);
    var t := ParseTag(u).value;
    ParsedOpening(u);
    ParsedClosing(u, c + 3, t.fraction);
    WrittenFromFields(u, t, c);
  }

  /** Whatever is read at the start of `u` is the text of a well-formed tag. */
  lemma TagPrefixIsTag(u: string)
    requires TagPrefix(u).Some?
    ensures exists t :: (WellFormed(t) && |Render(t)| <= |u| && u[..|Render(t)|] == Render(t)
                         && Offset(t) == TagPrefix(u).value)
  {
    ParsedIsWellFormed(u);
    ParsedIsWritten(u);
    var t := ParseTag(u).value;
    assert WellFormed(t) && |Render(t)| <= |u| && u[..|Render(t)|] == Render(t) && Offset(t) == TagPrefix(u).value;
  }

  /** Whatever is read at `i` is the text of a well-formed tag written there. */
  lemma TagAtIsWrittenTag(s: string, i: nat)
    requires TagAt(s, i).Some?
    ensures exists t :: WellFormed(t) && WrittenAt(s, i, t) && Offset(t) == TagAt(s, i).value
  {
    TagPrefixIsTag(s[i..]);
    var t :| WellFormed(t) && |Render(t)| <= |s[i..]| && s[i..][..|Render(t)|] == Render(t)
      && Offset(t) == TagPrefix(s[i..]).value;
    assert s[i..][..|Render(t)|] == s[i..i + |Render(t)|];
  }

  /** First tag wins: a line's offset is that of its leftmost tag, and a line
      has none exactly when no position holds a well-formed tag. */
  lemma FirstTagIsLeftmost(line: string)
    ensures FirstTag(line).Some? ==>
      exists k, t :: 0 <= k < |line| && WellFormed(t) && WrittenAt(line, k, t)
        && FirstTag(line) == Some(Offset(t))
        && forall j, u :: 0 <= j < k && WellFormed(u) ==> !WrittenAt(line, j, u)
    ensures FirstTag(line).None? <==>
      forall j, u :: 0 <= j < |line| && WellFormed(u) ==> !WrittenAt(line, j, u)
  {
    if FirstTag(line).Some? {
      LeftmostTagIsWritten(line);
    } else {
      NoTagIsWritten(line);
    }
  }

  /** A line with a tag has it written at the leftmost position holding one. */
  lemma LeftmostTagIsWritten(line: string)
    requires FirstTag(line).Some?
    ensures exists k, t ::
      0 <= k < |line| && WellFormed(t) && WrittenAt(line, k, t)
      && FirstTag(line) == Some(Offset(t))
      && forall j, u :: 0 <= j < k && WellFormed(u) ==> !WrittenAt(line, j, u)
  {
    FoundTagIsLeftmost(line, 0);
    var k :| 0 <= k < |line| && TagAt(line, k) == FirstTag(line)
      && forall j :: 0 <= j < k ==> TagAt(line, j).None?;
    forall j, u | 0 <= j < k && WellFormed(u) ensures !WrittenAt(line, j, u) {
      if WrittenAt(line, j, u) {
        TagAtReadsWrittenTag(line, j, u);
      }
    }
    TagAtIsWrittenTag(line, k);
    var t :| WellFormed(t) && WrittenAt(line, k, t) && Offset(t) == TagAt(line, k).value;
  }

  /** A line without a tag has none written anywhere. */
  lemma NoTagIsWritten(line: string)
    requires FirstTag(line).None?
    ensures forall j, u :: 0 <= j < |line| && WellFormed(u) ==> !WrittenAt(line, j, u)
  {
    NoTagFound(line, 0);
    forall j, u | 0 <= j < |line| && WellFormed(u) ensures !WrittenAt(line, j, u) {
      if WrittenAt(line, j, u) {
        TagAtReadsWrittenTag(line, j, u);
      }
    }
  }

  /** `[00:01.5]`, `[00:01.50]` and `[00:01.500]` are the same instant:
      trailing zeros of a fraction do not change its value. */
  lemma {:induction false} FractionTrailingZero(f: string)
    requires AllDigits(f) && 1 <= |f| <= 2
    ensures AllDigits(f + "0") && FractionMs(f + "0") == FractionMs(f)
  {
    ValueConcat(f, "0");
    assert Value("0") == 0 by {
      assert "0"[..0] == "";
    }
  }

  /** Four or more fraction digits are not read as a closing. */
  lemma LongFractionIsNoClosing(f: string, rest: string)
    requires |f| >= 4 && AllDigits(f)
    ensures ParseClosing("." + f + "]" + rest).None?
  {
    var v := "." + f + "]" + rest;
    forall k | 1 <= k < 5 ensures IsDigit(v[k]) {
      assert v[k] == f[k - 1];
    }
    DigitRunCovers(v, 1, 5);
  }

  /** A fraction of four or more digits makes the whole tag fail, so the
      `[:3]` cut of the three-digit branch (app.py:812-814) never removes a
      digit: that branch only ever sees exactly three. */
  lemma LongFractionIsNoTag(t: Tag, rest: string)
    requires WellFormed(Tag(t.minutes, t.seconds, None))
    requires t.fraction.Some? && |t.fraction.value| >= 4 && AllDigits(t.fraction.value)
    ensures TagPrefix(Render(t) + rest).None?
  {
    var f := t.fraction.value;
    assert Closing(t) + rest == "." + f + "]" + rest;
    LongFractionIsNoClosing(f, rest);
    RenderOpensTag(t, rest);
    ParseTagOfOpening(Render(t) + rest, t.minutes, t.seconds, Closing(t) + rest);
  }

  /** Three minute digits make the tag fail as well. */
  lemma LongMinutesIsNoTag(s: string, i: nat)
    requires i + 3 < |s| && s[i] == '[' && IsDigit(s[i + 1]) && IsDigit(s[i + 2]) && IsDigit(s[i + 3])
    ensures TagAt(s, i).None?
  {
    assert DigitRun(s, i + 1) >= 3 by {
      assert DigitRun(s, i + 1) == 1 + DigitRun(s, i + 2);
      assert DigitRun(s, i + 2) == 1 + DigitRun(s, i + 3);
      assert DigitRun(s, i + 3) >= 1;
    }
  }

  /** A tag at the start of a line gives the line's offset. */
  lemma LeadingTagWins(t: Tag, rest: string)
    requires WellFormed(t)
    ensures FirstTag(Render(t) + rest) == Some(Offset(t))
  {
    var s := Render(t) + rest;
    assert s[0..] == s;
    TagPrefixReadsTag(t, rest);
  }

  /** A line in which no `[` is followed by a digit, such as a header tag
      `[ti:Song]`, gives no offset. */
  lemma NoDigitAfterBracketNoTag(s: string)
    requires forall j :: 0 <= j < |s| - 1 && s[j] == '[' ==> !IsDigit(s[j + 1])
    ensures FirstTag(s) == None
  {
    forall j | 0 <= j < |s| ensures TagAt(s, j).None? {
      assert s[j..][0] == s[j];
      if s[j] == '[' && j + 1 < |s| {
        assert s[j..][1] == s[j + 1];
      }
    }
    FirstTagFromIsLeftmost(s, 0);
  }

  // ----------------------------------------------------------------- stamps

  /** The playback position, clamped at zero (app.py:720-723): the least
      value at or above it that is not negative. */
  function CurrentTimeMs(positionMs: int): (ms: nat)
    ensures ms >= positionMs && (ms == positionMs || ms == 0)
  {
    if positionMs < 0 then 0 else positionMs
  }

  /** The three fields of a stamped tag. */
  datatype Clock = Clock(minutes: nat, seconds: nat, millis: nat)

  function TotalMs(c: Clock): nat {
    c.minutes * 60000 + c.seconds * 1000 + c.millis
  }

  /** The carry of app.py:733-738: a rounded millisecond part of 1000 moves
      into the seconds, and 60 seconds into the minutes. */
  function Carry(c: Clock): (r: Clock)
    requires c.seconds < 60 && c.millis <= 1000
    ensures r.seconds < 60 && r.millis < 1000
    ensures TotalMs(r) == TotalMs(c)
  {
    if c.millis >= 1000 then
      if c.seconds + 1 >= 60 then Clock(c.minutes + 1, c.seconds + 1 - 60, c.millis - 1000)
      else Clock(c.minutes, c.seconds + 1, c.millis - 1000)
    else c
  }

  /** The fields for a position (app.py:729-738): in range, and adding up
      to the position. */
  function StampClock(ms: nat): (c: Clock)
    ensures c.seconds < 60 && c.millis < 1000
    ensures TotalMs(c) == ms && c.minutes == ms / 60000
  {
    var c := Clock(ms / 60000, (ms / 1000) % 60, ms % 1000);
    assert TotalMs(c) == ms;
    Carry(c)
  }

  /** A tag written with zero-padded two-digit minutes and seconds and a
      two- or three-digit fraction fits the grammar and reads back as the
      fields it was written from. */
  lemma PaddedTag(minutes: nat, seconds: nat, fraction: nat, width: nat)
    requires minutes < 100 && seconds < 100
    requires (width == 2 && fraction < 100) || (width == 3 && fraction < 1000)
    ensures var t := Tag(ZeroPad(minutes, 2), ZeroPad(seconds, 2), Some(ZeroPad(fraction, width)));
      WellFormed(t)
      && Offset(t) == minutes * 60000 + seconds * 1000 + (if width == 2 then fraction * 10 else fraction)
  {
    ZeroPadField(minutes, 2);
    ZeroPadField(seconds, 2);
    ZeroPadField(fraction, width);
  }

  /** The tag `[mm:ss.mmm]` written for a position (app.py:739): a single
      line in brackets, eleven characters long below 100 minutes. */
  function StampTag(ms: nat): (r: string)
    ensures |r| >= 11 && '\n' !in r && r[0] == '[' && r[|r| - 1] == ']'
    ensures ms < 6000000 ==> |r| == 11
  {
    var c := StampClock(ms);
    DecimalLength(c.minutes);
    ZeroPadLength(c.minutes, 2);
    ZeroPadField(c.seconds, 2);
    ZeroPadField(c.millis, 3);
    BracketedFields(ZeroPad(c.minutes, 2), ZeroPad(c.seconds, 2), ZeroPad(c.millis, 3));
    "[" + ZeroPad(c.minutes, 2) + ":" + ZeroPad(c.seconds, 2) + "." + ZeroPad(c.millis, 3) + "]"
  }

  /** `[mm:ss.fff]` over digit fields is one line in brackets, nine
      characters longer than its minutes. */
  lemma BracketedFields(mm: string, ss: string, fff: string)
    requires AllDigits(mm) && AllDigits(ss) && AllDigits(fff)
    requires |mm| >= 2 && |ss| == 2 && |fff| == 3
    ensures var r := "[" + mm + ":" + ss + "." + fff + "]";
      |r| == |mm| + 9 && '\n' !in r && r[0] == '[' && r[|r| - 1] == ']'
  {
    var r := "[" + mm + ":" + ss + "." + fff + "]";
    forall k | 0 <= k < |r| ensures r[k] != '\n' {
      if 1 <= k < |mm| + 1 {
        assert r[k] == mm[k - 1];
      } else if |mm| + 2 <= k < |mm| + 4 {
        assert r[k] == ss[k - |mm| - 2];
      } else if |mm| + 5 <= k < |mm| + 8 {
        assert r[k] == fff[k - |mm| - 5];
      }
    }
  }

  /** The tag the stamp writes, as parts of the grammar. */
  function StampParts(ms: nat): Tag {
    var c := StampClock(ms);
    Tag(ZeroPad(c.minutes, 2), ZeroPad(c.seconds, 2), Some(ZeroPad(c.millis, 3)))
  }

  /** Below 100 minutes the stamped fields fit the grammar and add up to
      the position. */
  lemma StampPartsAreTag(ms: nat)
    requires ms < 6000000
    ensures WellFormed(StampParts(ms)) && Offset(StampParts(ms)) == ms
  {
    var c := StampClock(ms);
    PaddedTag(c.minutes, c.seconds, c.millis, 3);
  }

  /** The stamp writes exactly its parts. */
  lemma StampIsRendered(ms: nat)
    ensures Render(StampParts(ms)) == StampTag(ms)
  {
    var c := StampClock(ms);
    FractionTagText(ZeroPad(c.minutes, 2), ZeroPad(c.seconds, 2), ZeroPad(c.millis, 3));
  }

  /** How a tag with a fraction is written. */
  lemma FractionTagText(mm: string, ss: string, fff: string)
    ensures Render(Tag(mm, ss, Some(fff))) == "[" + mm + ":" + ss + "." + fff + "]"
  {
    assert Closing(Tag(mm, ss, Some(fff))) == "." + fff + "]";
  }

  /** Stamp, then read: below 100 minutes the stamped tag, at the start of a
      line, is read back as exactly the stamped position. */
  lemma StampReadsBack(ms: nat, rest: string)
    requires ms < 6000000
    ensures FirstTag(StampTag(ms) + rest) == Some(ms)
  {
    StampPartsAreTag(ms);
    StampIsRendered(ms);
    LeadingTagWins(StampParts(ms), rest);
  }

  /** Digits hold no `[`. */
  lemma DigitsHaveNoBracket(s: string)
    requires AllDigits(s)
    ensures '[' !in s
  {
  }

  /** A line whose only `[` opens it gives no offset when no tag is read
      there. */
  lemma OnlyLeadingBracket(s: string)
    requires |s| > 0 && '[' !in s[1..] && TagAt(s, 0).None?
    ensures FirstTag(s) == None
  {
    forall j | 0 < j < |s| ensures TagAt(s, j).None? {
      assert s[j] == s[1..][j - 1];
    }
    FirstTagFromIsLeftmost(s, 0);
  }

  /** `[`, three or more digits and text without `[`: no offset. */
  lemma LongMinutesLineIsNotRead(mm: string, rest: string)
    requires |mm| >= 3 && AllDigits(mm) && '[' !in rest
    ensures FirstTag("[" + mm + rest) == None
  {
    var s := "[" + mm + rest;
    assert s[1] == mm[0] && s[2] == mm[1] && s[3] == mm[2];
    LongMinutesIsNoTag(s, 0);
    DigitsHaveNoBracket(mm);
    assert s[1..] == mm + rest;
    OnlyLeadingBracket(s);
  }

  /** The seconds and milliseconds of a stamp hold no `[`. */
  lemma StampTailHasNoBracket(c: Clock)
    ensures '[' !in ":" + ZeroPad(c.seconds, 2) + "." + ZeroPad(c.millis, 3) + "]"
  {
    DigitsHaveNoBracket(ZeroPad(c.seconds, 2));
    DigitsHaveNoBracket(ZeroPad(c.millis, 3));
  }

  /** From 100 minutes on, the minutes take three digits and the stamped tag
      is not a tag the reader accepts. */
  lemma LongStampIsNotRead(ms: nat)
    requires ms >= 6000000
    ensures FirstTag(StampTag(ms)) == None
  {
    var c := StampClock(ms);
    DecimalLength(c.minutes);
    var mm, ss, fff := ZeroPad(c.minutes, 2), ZeroPad(c.seconds, 2), ZeroPad(c.millis, 3);
    StampTailHasNoBracket(c);
    assert StampTag(ms) == "[" + mm + ":" + ss + "." + fff + "]";
    MinutesThenRest(mm, ss, fff);
    LongMinutesLineIsNotRead(mm, ":" + ss + "." + fff + "]");
  }

  /** A written tag is `[`, its minutes and the text after them. */
  lemma MinutesThenRest(mm: string, ss: string, fff: string)
    ensures "[" + mm + ":" + ss + "." + fff + "]" == "[" + mm + (":" + ss + "." + fff + "]")
  {
  }

  // ------------------------------------------------------------- time label

  /** Whole seconds of a position, never below zero (app.py:781). */
  function WholeSeconds(ms: int): nat {
    if ms < 0 then 0 else ms / 1000
  }

  /** `fmt` of update_time_label (app.py:780-784): `mm:ss`, with two digits
      of seconds after the colon, and five characters in all below 100
      minutes. */
  function TimeLabel(ms: int): (r: string)
    ensures |r| >= 5 && r[|r| - 3] == ':'
    ensures ms < 6000000 ==> |r| == 5
  {
    var s := WholeSeconds(ms);
    DecimalLength(s / 60);
    ZeroPadLength(s / 60, 2);
    ZeroPadField(s % 60, 2);
    ColonThenTwo(ZeroPad(s / 60, 2), ZeroPad(s % 60, 2));
    ZeroPad(s / 60, 2) + ":" + ZeroPad(s % 60, 2)
  }

  /** `mm:ss` with two characters of seconds has its colon third from the
      end. */
  lemma ColonThenTwo(mm: string, ss: string)
    requires |ss| == 2
    ensures var r := mm + ":" + ss; |r| == |mm| + 3 && r[|r| - 3] == ':'
  {
  }

  /** The label reads back as its whole seconds: the part after the last
      colon is two digits below 60, the part before it counts minutes. */
  lemma TimeLabelReadsBack(ms: int)
    ensures var r := TimeLabel(ms); var n := |r|;
      n >= 5 && r[n - 3] == ':' && AllDigits(r[..n - 3]) && AllDigits(r[n - 2..])
      && Value(r[n - 2..]) < 60 && Value(r[..n - 3]) * 60 + Value(r[n - 2..]) == WholeSeconds(ms)
  {
    var s := WholeSeconds(ms);
    ZeroPadLength(s / 60, 2);
    ZeroPadValue(s / 60, 2);
    ZeroPadField(s % 60, 2);
    assert (s / 60) * 60 + s % 60 == s;
    assert TimeLabel(ms) == ZeroPad(s / 60, 2) + ":" + ZeroPad(s % 60, 2);
    LabelReadsBack(ZeroPad(s / 60, 2), ZeroPad(s % 60, 2), s);
  }

  /** `mm:ss`, with at least two digits of minutes and exactly two of
      seconds, reads back over the last colon as the seconds it counts. */
  lemma LabelReadsBack(mm: string, ss: string, total: nat)
    requires |mm| >= 2 && AllDigits(mm) && |ss| == 2 && AllDigits(ss)
    requires Value(ss) < 60 && Value(mm) * 60 + Value(ss) == total
    ensures var r := mm + ":" + ss; var n := |r|;
      n >= 5 && r[n - 3] == ':' && AllDigits(r[..n - 3]) && AllDigits(r[n - 2..])
      && Value(r[n - 2..]) < 60 && Value(r[..n - 3]) * 60 + Value(r[n - 2..]) == total
  {
    var r := mm + ":" + ss;
    assert r[..|r| - 3] == mm;
    assert r[|r| - 2..] == ss;
  }

  /** Negative positions show as `00:00`. */
  lemma NegativeTimeLabel(ms: int)
    requires ms < 0
    ensures TimeLabel(ms) == "00:00"
  {
  }
}
