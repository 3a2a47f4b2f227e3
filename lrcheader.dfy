/** The LRC header of lyricsync_pro/downloader.py: `_format_mmss_cc` (lines
    11-17) and `build_lrc_header` (lines 145-156), and what the header does
    to the index once it is put in front of downloaded lyrics
    (lyricsync_pro/app.py:613-614). */
module LrcHeader {
  import opened Wrappers
  import opened Strings
  import opened TimeTag
  import opened LrcIndex

  /** An audio length as the tag reader reports it: an `int` of seconds, or
      a `float`, here a whole number of milliseconds. */
  datatype Length = Whole(seconds: nat) | Fractional(ms: nat)

  function LengthMs(x: Length): nat {
    match x
    case Whole(s) => s * 1000
    case Fractional(ms) => ms
  }

  /** The length cut down to whole centiseconds. */
  function CentiMs(x: Length): nat {
    LengthMs(x) - LengthMs(x) % 10
  }

  /** The whole seconds, `int(seconds)`. */
  function WholeSeconds(x: Length): nat {
    match x
    case Whole(n) => n
    case Fractional(ms) => ms / 1000
  }

  /** The milliseconds past the whole seconds; none for an `int`. */
  function PartMs(x: Length): nat {
    match x
    case Whole(_) => 0
    case Fractional(ms) => ms % 1000
  }

  /** `_format_mmss_cc`: `mm:ss.cc`, the centiseconds truncated from the
      milliseconds. The seconds and the centiseconds always take two digits
      each, and the whole is eight characters below 100 minutes. */
  function FormatMmSsCc(x: Length): (r: string)
    ensures |r| >= 8 && r[|r| - 6] == ':' && r[|r| - 3] == '.'
    ensures WholeSeconds(x) < 6000 ==> |r| == 8
  {
    var s := WholeSeconds(x);
    DecimalLength(s / 60);
    ZeroPadLength(s / 60, 2);
    ZeroPadField(s % 60, 2);
    ZeroPadField(PartMs(x) / 10, 2);
    ClockFieldsShape(ZeroPad(s / 60, 2), ZeroPad(s % 60, 2), ZeroPad(PartMs(x) / 10, 2));
    ZeroPad(s / 60, 2) + ":" + ZeroPad(s % 60, 2) + "." + ZeroPad(PartMs(x) / 10, 2)
  }

  /** `mm:ss.cc` with two characters each of seconds and centiseconds. */
  lemma ClockFieldsShape(mm: string, ss: string, cc: string)
    requires |ss| == 2 && |cc| == 2
    ensures var r := mm + ":" + ss + "." + cc;
      |r| == |mm| + 6 && r[|r| - 6] == ':' && r[|r| - 3] == '.'
  {
  }

  /** The fields of the formatted length, as the grammar of an LRC tag. */
  function LengthTag(x: Length): Tag {
    var s := WholeSeconds(x);
    Tag(ZeroPad(s / 60, 2), ZeroPad(s % 60, 2), Some(ZeroPad(PartMs(x) / 10, 2)))
  }

  lemma LengthTagIsFormat(x: Length)
    ensures Render(LengthTag(x)) == "[" + FormatMmSsCc(x) + "]"
  {
  }

  /** The split into whole seconds and milliseconds loses nothing. */
  lemma LengthSplit(x: Length)
    ensures PartMs(x) < 1000 && LengthMs(x) == WholeSeconds(x) * 1000 + PartMs(x)
  {
  }

  /** Minutes, seconds and hundredths add up to the length cut down to
      whole centiseconds. */
  lemma CentisecondSum(s: nat, part: nat)
    requires part < 1000 && s * 1000 + part < 6000000
    ensures s / 60 < 100 && s % 60 < 60 && part / 10 < 100
    ensures (s / 60) * 60000 + (s % 60) * 1000 + (part / 10) * 10 == (s * 1000 + part) - (s * 1000 + part) % 10
  {
    assert s < 6000;
    assert (s * 1000 + part) % 10 == part % 10 by {
      assert s * 1000 + part == (s * 100) * 10 + part;
    }
  }

  /** Below 100 minutes the formatted length is a well-formed LRC time whose
      offset is the length cut down to whole centiseconds: minutes and
      seconds are `s div 60` and `s mod 60`, the two fraction digits the
      truncated hundredths, `00` for a whole number of seconds. */
  lemma LengthTagValue(x: Length)
    requires LengthMs(x) < 6000000
    ensures WellFormed(LengthTag(x))
    ensures Offset(LengthTag(x)) == CentiMs(x)
    ensures Value(LengthTag(x).minutes) == WholeSeconds(x) / 60
    ensures Value(LengthTag(x).seconds) == WholeSeconds(x) % 60 < 60
    ensures LengthTag(x).fraction.Some? && Value(LengthTag(x).fraction.value) == PartMs(x) / 10 < 100
  {
    var s := WholeSeconds(x);
    ZeroPadValue(s / 60, 2);
    ZeroPadValue(s % 60, 2);
    ZeroPadValue(PartMs(x) / 10, 2);
    LengthSplit(x);
    CentisecondSum(s, PartMs(x));
    assert CentiMs(x) == (s * 1000 + PartMs(x)) - (s * 1000 + PartMs(x)) % 10;
    assert LengthTag(x) == Tag(ZeroPad(s / 60, 2), ZeroPad(s % 60, 2), Some(ZeroPad(PartMs(x) / 10, 2)));
    PaddedTag(s / 60, s % 60, PartMs(x) / 10, 2);
  }

  /** A whole number of seconds is formatted with the fraction `00`. */
  lemma WholeLengthHasNoCentiseconds(n: nat)
    ensures LengthTag(Whole(n)).fraction == Some("00")
  {
    assert PartMs(Whole(n)) / 10 == 0;
    assert DigitChar(0) == '0';
    assert Decimal(0) == ['0'];
    assert Zeros(1) == ['0'];
    assert ZeroPad(0, 2) == "00";
    assert LengthTag(Whole(n)).fraction == Some(ZeroPad(0, 2));
  }

  /** Format, then read as an LRC tag: `[` + the formatted length + `]` is
      read back as the length truncated to centiseconds. */
  lemma FormatReadsBackAsTag(x: Length, rest: string)
    requires LengthMs(x) < 6000000
    ensures FirstTag("[" + FormatMmSsCc(x) + "]" + rest) == Some(CentiMs(x))
  {
    var t := LengthTag(x);
    var line := "[" + FormatMmSsCc(x) + "]";
    LengthTagValue(x);
    LengthTagIsFormat(x);
    RenderedTagWins(t, line, rest);
  }

  lemma RenderedTagWins(t: Tag, line: string, rest: string)
    requires WellFormed(t) && line == Render(t)
    ensures FirstTag(line + rest) == Some(Offset(t))
  {
    LeadingTagWins(t, rest);
  }

  // ----------------------------------------------------------------- header

  /** One header line, `[key:value]`. */
  function HeaderLine(key: string, value: string): string {
    "[" + key + ":" + value + "]"
  }

  /** A header line that is written only when `present`. */
  function Optional(key: string, value: string, present: bool): seq<string> {
    if present then [HeaderLine(key, value)] else []
  }

  /** The lines of the header, in their fixed order. */
  function HeaderLines(title: string, artist: string, length: Option<Length>, matchTag: string): seq<string> {
    Optional("ti", title, title != "")
    + Optional("ar", artist, artist != "")
    + Optional("length", if length.Some? then FormatMmSsCc(length.value) else "", length.Some?)
    + [HeaderLine("by", "LyricSync Pro"), HeaderLine("match", matchTag)]
  }

  /** `build_lrc_header`: the lines joined by line feeds, no final one, so
      the header ends with a line feed and its `match` line. */
  function BuildLrcHeader(title: string, artist: string, length: Option<Length>, matchTag: string): (r: string)
    ensures var m := HeaderLine("match", matchTag);
      |m| < |r| && r[|r| - |m| - 1..] == "\n" + m
  {
    HeaderLastLine(title, artist, length, matchTag);
    JoinEndsWithLast(HeaderLines(title, artist, length, matchTag));
    Join(HeaderLines(title, artist, length, matchTag))
  }

  /** The value of a line for a key, if the line is `[key:value]`. */
  function FieldOf(line: string, key: string): Option<string> {
    var n := |key| + 2;
    if |line| >= n + 1 && line[..n] == "[" + key + ":" && line[|line| - 1] == ']' then Some(line[n..|line| - 1])
    else None
  }

  /** The value of the first line carrying a key. */
  function Lookup(lines: seq<string>, key: string): Option<string> {
    if lines == [] then None
    else if FieldOf(lines[0], key).Some? then FieldOf(lines[0], key)
    else Lookup(lines[1..], key)
  }

  lemma FieldOfLine(key: string, value: string)
    ensures FieldOf(HeaderLine(key, value), key) == Some(value)
  {
    var line := HeaderLine(key, value);
    assert line[..|key| + 2] == "[" + key + ":";
    assert line[|key| + 2..|line| - 1] == value;
  }

  lemma FieldOfOtherKey(key: string, other: string, value: string)
    requires key != [] && other != [] && key[0] != other[0]
    ensures FieldOf(HeaderLine(key, value), other) == None
  {
    var line := HeaderLine(key, value);
    if |line| >= |other| + 3 {
      assert line[..|other| + 2] != "[" + other + ":" by {
        assert line[..|other| + 2][1] == key[0];
        assert ("[" + other + ":")[1] == other[0];
      }
    }
  }

  /** A line written for `key` is found by `key`. */
  lemma LookupFound(key: string, value: string, rest: seq<string>)
    ensures Lookup([HeaderLine(key, value)] + rest, key) == Some(value)
  {
    FieldOfLine(key, value);
  }

  /** An optional line for another key is passed over. */
  lemma LookupSkips(key: string, value: string, present: bool, rest: seq<string>, other: string)
    requires key != [] && other != [] && key[0] != other[0]
    ensures Lookup(Optional(key, value, present) + rest, other) == Lookup(rest, other)
  {
    if present {
      FieldOfOtherKey(key, other, value);
      assert (Optional(key, value, present) + rest)[1..] == rest;
    } else {
      assert Optional(key, value, present) + rest == rest;
    }
  }

  /** The two fixed lines at the end of the header. */
  lemma LookupTail(matchTag: string, other: string)
    requires other != []
    ensures var tail := [HeaderLine("by", "LyricSync Pro"), HeaderLine("match", matchTag)];
      && (other == "by" ==> Lookup(tail, other) == Some("LyricSync Pro"))
      && (other == "match" ==> Lookup(tail, other) == Some(matchTag))
      && (other[0] != 'b' && other[0] != 'm' ==> Lookup(tail, other) == None)
  {
    var last := [HeaderLine("match", matchTag)];
    var tail := [HeaderLine("by", "LyricSync Pro")] + last;
    assert tail == [HeaderLine("by", "LyricSync Pro"), HeaderLine("match", matchTag)];
    assert last == Optional("match", matchTag, true) + [];
    if other[0] == 'b' {
      LookupFound("by", "LyricSync Pro", last);
    } else {
      LookupSkips("by", "LyricSync Pro", true, last, other);
      if other[0] == 'm' {
        LookupFound("match", matchTag, []);
      } else {
        LookupSkips("match", matchTag, true, [], other);
      }
    }
  }

  lemma HeaderKeyReadBack(key: string, value: string, present: bool, rest: seq<string>)
    ensures Lookup(Optional(key, value, present) + rest, key) == if present then Some(value) else Lookup(rest, key)
  {
    if present {
      LookupFound(key, value, rest);
    } else {
      assert Optional(key, value, present) + rest == rest;
    }
  }

  /** The header split into its optional lines and the fixed tail. */
  lemma HeaderParts(title: string, artist: string, length: Option<Length>, matchTag: string)
    ensures var len := if length.Some? then FormatMmSsCc(length.value) else "";
      HeaderLines(title, artist, length, matchTag)
      == Optional("ti", title, title != "") + (Optional("ar", artist, artist != "")
         + (Optional("length", len, length.Some?) + [HeaderLine("by", "LyricSync Pro"), HeaderLine("match", matchTag)]))
  {
    var len := if length.Some? then FormatMmSsCc(length.value) else "";
    Regroup(Optional("ti", title, title != ""), Optional("ar", artist, artist != ""),
      Optional("length", len, length.Some?), [HeaderLine("by", "LyricSync Pro"), HeaderLine("match", matchTag)]);
  }

  lemma Regroup(a: seq<string>, b: seq<string>, c: seq<string>, d: seq<string>)
    ensures a + b + c + d == a + (b + (c + d))
  {
  }

  lemma TitleReadBack(title: string, artist: string, length: Option<Length>, matchTag: string)
    ensures Lookup(HeaderLines(title, artist, length, matchTag), "ti") == if title != "" then Some(title) else None
  {
    var tail := [HeaderLine("by", "LyricSync Pro"), HeaderLine("match", matchTag)];
    var len := if length.Some? then FormatMmSsCc(length.value) else "";
    var l3 := Optional("length", len, length.Some?) + tail;
    var l2 := Optional("ar", artist, artist != "") + l3;
    HeaderParts(title, artist, length, matchTag);
    HeaderKeyReadBack("ti", title, title != "", l2);
    LookupSkips("ar", artist, artist != "", l3, "ti");
    LookupSkips("length", len, length.Some?, tail, "ti");
    LookupTail(matchTag, "ti");
  }

  lemma ArtistReadBack(title: string, artist: string, length: Option<Length>, matchTag: string)
    ensures Lookup(HeaderLines(title, artist, length, matchTag), "ar") == if artist != "" then Some(artist) else None
  {
    var tail := [HeaderLine("by", "LyricSync Pro"), HeaderLine("match", matchTag)];
    var len := if length.Some? then FormatMmSsCc(length.value) else "";
    var l3 := Optional("length", len, length.Some?) + tail;
    var l2 := Optional("ar", artist, artist != "") + l3;
    HeaderParts(title, artist, length, matchTag);
    LookupSkips("ti", title, title != "", l2, "ar");
    HeaderKeyReadBack("ar", artist, artist != "", l3);
    LookupSkips("length", len, length.Some?, tail, "ar");
    LookupTail(matchTag, "ar");
  }

  lemma LengthReadBack(title: string, artist: string, length: Option<Length>, matchTag: string)
    ensures Lookup(HeaderLines(title, artist, length, matchTag), "length")
      == if length.Some? then Some(FormatMmSsCc(length.value)) else None
  {
    var tail := [HeaderLine("by", "LyricSync Pro"), HeaderLine("match", matchTag)];
    var len := if length.Some? then FormatMmSsCc(length.value) else "";
    var l3 := Optional("length", len, length.Some?) + tail;
    var l2 := Optional("ar", artist, artist != "") + l3;
    HeaderParts(title, artist, length, matchTag);
    LookupSkips("ti", title, title != "", l2, "length");
    LookupSkips("ar", artist, artist != "", l3, "length");
    HeaderKeyReadBack("length", len, length.Some?, tail);
    LookupTail(matchTag, "length");
  }

  /** `by` and `match` are found in the fixed tail, past the optional lines. */
  lemma TailReadBack(title: string, artist: string, length: Option<Length>, matchTag: string, key: string)
    requires key == "by" || key == "match"
    ensures Lookup(HeaderLines(title, artist, length, matchTag), key)
      == if key == "by" then Some("LyricSync Pro") else Some(matchTag)
  {
    var tail := [HeaderLine("by", "LyricSync Pro"), HeaderLine("match", matchTag)];
    var len := if length.Some? then FormatMmSsCc(length.value) else "";
    var l3 := Optional("length", len, length.Some?) + tail;
    var l2 := Optional("ar", artist, artist != "") + l3;
    HeaderParts(title, artist, length, matchTag);
    LookupSkips("ti", title, title != "", l2, key);
    LookupSkips("ar", artist, artist != "", l3, key);
    LookupSkips("length", len, length.Some?, tail, key);
    LookupTail(matchTag, key);
  }

  /** Every field can be read back from the header: title and artist when
      they are non-empty, the formatted length when there is one, the fixed
      `by` line and the match tag. */
  lemma HeaderFieldsReadBack(title: string, artist: string, length: Option<Length>, matchTag: string)
    ensures var lines := HeaderLines(title, artist, length, matchTag);
      && Lookup(lines, "ti") == (if title != "" then Some(title) else None)
      && Lookup(lines, "ar") == (if artist != "" then Some(artist) else None)
      && Lookup(lines, "length") == (if length.Some? then Some(FormatMmSsCc(length.value)) else None)
      && Lookup(lines, "by") == Some("LyricSync Pro")
      && Lookup(lines, "match") == Some(matchTag)
  {
    TitleReadBack(title, artist, length, matchTag);
    ArtistReadBack(title, artist, length, matchTag);
    LengthReadBack(title, artist, length, matchTag);
    TailReadBack(title, artist, length, matchTag, "by");
    TailReadBack(title, artist, length, matchTag, "match");
  }

  // ------------------------------------------------- the header before lyrics

  /** The formatted length is digits, a colon and a full stop. */
  lemma FormatHasNoBreakOrBracket(x: Length)
    ensures '\n' !in FormatMmSsCc(x) && '[' !in FormatMmSsCc(x)
  {
    var s := WholeSeconds(x);
    DigitFieldsArePlain(ZeroPad(s / 60, 2), ZeroPad(s % 60, 2), ZeroPad(PartMs(x) / 10, 2));
  }

  /** Digit fields joined by `:` and `.` hold no line feed and no `[`. */
  lemma DigitFieldsArePlain(mm: string, ss: string, cc: string)
    requires AllDigits(mm) && AllDigits(ss) && AllDigits(cc)
    ensures var f := mm + ":" + ss + "." + cc; '\n' !in f && '[' !in f
  {
  }

  /** What the header asks of its fields to stay one line each and free of
      tags. */
  predicate PlainField(s: string) {
    '\n' !in s && '[' !in s
  }

  /** Lines that are neither broken nor tagged. */
  predicate PlainLines(p: seq<string>) {
    forall k :: 0 <= k < |p| ==> '\n' !in p[k] && FirstTag(p[k]) == None
  }

  lemma PlainConcat(a: seq<string>, b: seq<string>)
    requires PlainLines(a) && PlainLines(b)
    ensures PlainLines(a + b)
  {
    forall k | 0 <= k < |a + b|
      ensures '\n' !in (a + b)[k] && FirstTag((a + b)[k]) == None
    {
      if k < |a| {
        assert (a + b)[k] == a[k];
      } else {
        assert (a + b)[k] == b[k - |a|];
      }
    }
  }

  lemma OptionalIsPlain(key: string, value: string, present: bool)
    requires key != [] && 'a' <= key[0] <= 'z' && PlainField(key) && PlainField(value)
    ensures PlainLines(Optional(key, value, present))
  {
    HeaderLineIsPlain(key, value);
  }

  /** With plain fields every line of the header is plain. */
  lemma HeaderLinesArePlain(title: string, artist: string, length: Option<Length>, matchTag: string)
    requires PlainField(title) && PlainField(artist) && PlainField(matchTag)
    ensures PlainLines(HeaderLines(title, artist, length, matchTag))
  {
    var len := if length.Some? then FormatMmSsCc(length.value) else "";
    if length.Some? {
      FormatHasNoBreakOrBracket(length.value);
    }
    OptionalIsPlain("ti", title, title != "");
    OptionalIsPlain("ar", artist, artist != "");
    OptionalIsPlain("length", len, length.Some?);
    OptionalIsPlain("by", "LyricSync Pro", true);
    OptionalIsPlain("match", matchTag, true);
    var tail := Optional("by", "LyricSync Pro", true) + Optional("match", matchTag, true);
    assert tail == [HeaderLine("by", "LyricSync Pro"), HeaderLine("match", matchTag)];
    PlainConcat(Optional("by", "LyricSync Pro", true), Optional("match", matchTag, true));
    PlainConcat(Optional("length", len, length.Some?), tail);
    PlainConcat(Optional("ar", artist, artist != ""), Optional("length", len, length.Some?) + tail);
    PlainConcat(Optional("ti", title, title != ""), Optional("ar", artist, artist != "") + (Optional("length", len, length.Some?) + tail));
    HeaderParts(title, artist, length, matchTag);
  }

  /** A line `[key:value]` whose key starts with a letter and whose value
      holds no `[` and no line feed is neither broken nor a tag. */
  lemma HeaderLineIsPlain(key: string, value: string)
    requires key != [] && 'a' <= key[0] <= 'z' && PlainField(key) && PlainField(value)
    ensures '\n' !in HeaderLine(key, value) && FirstTag(HeaderLine(key, value)) == None
  {
    var s := HeaderLine(key, value);
    var body := key + ":" + value + "]";
    assert s == "[" + body;
    forall j | 1 <= j < |s|
      ensures s[j] != '['
    {
      assert s[j] == body[j - 1];
    }
    assert s[1] == key[0];
    NoDigitAfterBracketNoTag(s);
  }

  /** Lines that hold no line feed. */
  predicate UnbrokenLines(p: seq<string>) {
    forall k :: 0 <= k < |p| ==> '\n' !in p[k]
  }

  lemma UnbrokenConcat(a: seq<string>, b: seq<string>)
    requires UnbrokenLines(a) && UnbrokenLines(b)
    ensures UnbrokenLines(a + b)
  {
    forall k | 0 <= k < |a + b| ensures '\n' !in (a + b)[k] {
      if k < |a| {
        assert (a + b)[k] == a[k];
      } else {
        assert (a + b)[k] == b[k - |a|];
      }
    }
  }

  /** A `[key:value]` line is unbroken when its key and value are. */
  lemma OptionalIsUnbroken(key: string, value: string, present: bool)
    requires '\n' !in key && '\n' !in value
    ensures UnbrokenLines(Optional(key, value, present))
  {
    var line := HeaderLine(key, value);
    forall i | 0 <= i < |line| ensures line[i] != '\n' {
      if i == 0 {
      } else if i < 1 + |key| {
        assert line[i] == key[i - 1];
      } else if i == 1 + |key| {
      } else if i < 2 + |key| + |value| {
        assert line[i] == value[i - 2 - |key|];
      }
    }
  }

  /** With fields free of line feeds every line of the header is one line;
      a `[` in a field does not matter here. */
  lemma HeaderLinesAreUnbroken(title: string, artist: string, length: Option<Length>, matchTag: string)
    requires '\n' !in title && '\n' !in artist && '\n' !in matchTag
    ensures UnbrokenLines(HeaderLines(title, artist, length, matchTag))
  {
    var len := if length.Some? then FormatMmSsCc(length.value) else "";
    if length.Some? {
      FormatHasNoBreakOrBracket(length.value);
    }
    OptionalIsUnbroken("ti", title, title != "");
    OptionalIsUnbroken("ar", artist, artist != "");
    OptionalIsUnbroken("length", len, length.Some?);
    OptionalIsUnbroken("by", "LyricSync Pro", true);
    OptionalIsUnbroken("match", matchTag, true);
    var tail := Optional("by", "LyricSync Pro", true) + Optional("match", matchTag, true);
    assert tail == [HeaderLine("by", "LyricSync Pro"), HeaderLine("match", matchTag)];
    UnbrokenConcat(Optional("by", "LyricSync Pro", true), Optional("match", matchTag, true));
    UnbrokenConcat(Optional("length", len, length.Some?), tail);
    UnbrokenConcat(Optional("ar", artist, artist != ""), Optional("length", len, length.Some?) + tail);
    UnbrokenConcat(Optional("ti", title, title != ""), Optional("ar", artist, artist != "") + (Optional("length", len, length.Some?) + tail));
    HeaderParts(title, artist, length, matchTag);
  }

  /** `build_lrc_header` splits back into its lines whenever its fields hold
      no line feed. */
  lemma HeaderSplitsIntoLines(title: string, artist: string, length: Option<Length>, matchTag: string)
    requires '\n' !in title && '\n' !in artist && '\n' !in matchTag
    ensures SplitLines(BuildLrcHeader(title, artist, length, matchTag)) == HeaderLines(title, artist, length, matchTag)
  {
    var lines := HeaderLines(title, artist, length, matchTag);
    HeaderLinesAreUnbroken(title, artist, length, matchTag);
    HeaderLastLine(title, artist, length, matchTag);
    SplitLinesOfJoin(lines);
  }

  /** The header ends with its `match` line. */
  lemma HeaderLastLine(title: string, artist: string, length: Option<Length>, matchTag: string)
    ensures var lines := HeaderLines(title, artist, length, matchTag);
      |lines| >= 2 && lines[|lines| - 1] == HeaderLine("match", matchTag)
  {
  }

  /** Every entry moved down by `n` lines. */
  function ShiftLines(s: seq<Entry>, n: nat): seq<Entry> {
    seq(|s|, i requires 0 <= i < |s| => Entry(s[i].time, s[i].line + n))
  }

  lemma ShiftedMember(s: seq<Entry>, n: nat, e: Entry)
    ensures e in ShiftLines(s, n) <==> e.line >= n && Entry(e.time, e.line - n) in s
  {
    if e in ShiftLines(s, n) {
      var i :| 0 <= i < |s| && ShiftLines(s, n)[i] == e;
      assert s[i] == Entry(e.time, e.line - n);
    }
    if e.line >= n && Entry(e.time, e.line - n) in s {
      var i :| 0 <= i < |s| && s[i] == Entry(e.time, e.line - n);
      assert ShiftLines(s, n)[i] == e;
    }
  }

  lemma ShiftedIsSorted(s: seq<Entry>, n: nat)
    requires LexSorted(s)
    ensures LexSorted(ShiftLines(s, n))
  {
  }

  /** Behind untagged lines, a tagged line keeps its tag and moves down. */
  lemma TaggedLineBehindUntagged(p: seq<string>, q: seq<string>, e: Entry)
    requires forall k :: 0 <= k < |p| ==> FirstTag(p[k]) == None
    ensures (e.line < |p + q| && FirstTag((p + q)[e.line]) == Some(e.time)) <==>
      (e.line >= |p| && e.line - |p| < |q| && FirstTag(q[e.line - |p|]) == Some(e.time))
  {
    if e.line < |p| {
      assert (p + q)[e.line] == p[e.line];
    } else if e.line < |p + q| {
      assert (p + q)[e.line] == q[e.line - |p|];
    }
  }

  /** `full` holds exactly the entries of `s`, each moved down `n` lines. */
  ghost predicate MovedDown(full: seq<Entry>, s: seq<Entry>, n: nat) {
    forall e :: e in full <==> e.line >= n && Entry(e.time, e.line - n) in s
  }

  /** Lines with no tag in front of a text's lines: every entry of the whole
      is an entry of the text moved down past them, and back. */
  lemma MembersBehindUntagged(text: string, p: seq<string>, after: string)
    requires forall k :: 0 <= k < |p| ==> FirstTag(p[k]) == None
    requires SplitLines(text) == p + SplitLines(after)
    ensures MovedDown(IndexOf(text), IndexOf(after), |p|)
  {
    var all, q := SplitLines(text), SplitLines(after);
    forall e ensures e in IndexOf(text) <==> e.line < |all| && FirstTag(all[e.line]) == Some(e.time) {
      IndexMember(text, e);
    }
    forall e ensures e in IndexOf(after) <==> e.line < |q| && FirstTag(q[e.line]) == Some(e.time) {
      IndexMember(after, e);
    }
    AllBehindUntagged(IndexOf(text), IndexOf(after), all, p, q);
  }

  /** `MembersBehindUntagged` over the indexes and line lists as plain values. */
  lemma AllBehindUntagged(whole: seq<Entry>, rest: seq<Entry>, all: seq<string>,
                          p: seq<string>, q: seq<string>)
    requires forall k :: 0 <= k < |p| ==> FirstTag(p[k]) == None
    requires all == p + q
    requires forall e :: e in whole <==> e.line < |all| && FirstTag(all[e.line]) == Some(e.time)
    requires forall e :: e in rest <==> e.line < |q| && FirstTag(q[e.line]) == Some(e.time)
    ensures MovedDown(whole, rest, |p|)
  {
    forall e ensures e in whole <==> e.line >= |p| && Entry(e.time, e.line - |p|) in rest {
      TaggedLineBehindUntagged(p, q, e);
      if e.line >= |p| {
        assert Entry(e.time, e.line - |p|).line == e.line - |p|;
      }
    }
  }

  /** A sequence in (time, line) order with the members of a sorted sequence
      moved down by `n` lines is that sequence moved down. */
  lemma ShiftedByMembers(full: seq<Entry>, s: seq<Entry>, n: nat)
    requires LexSorted(full) && LexSorted(s)
    requires MovedDown(full, s, n)
    ensures full == ShiftLines(s, n)
  {
    forall e ensures e in full <==> e in ShiftLines(s, n) {
      ShiftedMember(s, n, e);
    }
    ShiftedIsSorted(s, n);
    LexSortedUnique(full, ShiftLines(s, n));
  }

  /** Lines with no tag in front of a text move its index down past them
      and change nothing else. */
  lemma IndexBehindUntagged(text: string, p: seq<string>, after: string)
    requires forall k :: 0 <= k < |p| ==> FirstTag(p[k]) == None
    requires SplitLines(text) == p + SplitLines(after)
    ensures IndexOf(text) == ShiftLines(IndexOf(after), |p|)
  {
    MembersBehindUntagged(text, p, after);
    IndexSorted(text);
    IndexSorted(after);
    ShiftedByMembers(IndexOf(text), IndexOf(after), |p|);
  }

  /** Plain lines joined in front of a text move its index down past them. */
  lemma IndexAfterPlainLines(p: seq<string>, after: string)
    requires |p| >= 1 && PlainLines(p)
    ensures IndexOf(Join(p) + "\n" + after) == ShiftLines(IndexOf(after), |p|)
  {
    SplitLinesAfterJoin(p, after);
    IndexBehindUntagged(Join(p) + "\n" + after, p, after);
  }

  /** The downloaded text shown in the editor is the header, a line feed and
      the lyrics (app.py:613): its index is the lyrics' own index, in the
      same order, every line moved down past the header. */
  lemma HeaderShiftsIndex(title: string, artist: string, length: Option<Length>, matchTag: string, lrc: string)
    requires PlainField(title) && PlainField(artist) && PlainField(matchTag)
    ensures IndexOf(BuildLrcHeader(title, artist, length, matchTag) + "\n" + lrc)
      == ShiftLines(IndexOf(lrc), |HeaderLines(title, artist, length, matchTag)|)
  {
    HeaderLinesArePlain(title, artist, length, matchTag);
    IndexAfterPlainLines(HeaderLines(title, artist, length, matchTag), lrc);
  }
}
