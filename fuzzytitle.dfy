/** `_fuzzy_title_from_filename` of lyricsync_pro/downloader.py (lines
    74-86): a title guessed from a file name by dropping a leading track
    number, removing bracketed text, splitting on separators and keeping the
    longest token. Each regular expression is written out as the match
    Python's backtracking engine finds. */
module FuzzyTitle {
  import opened Wrappers
  import opened Strings
  import opened Selection

  // ---------------------------------------------------- track-number prefix

  /** The class `[-_. ]` that ends a track number. */
  predicate TrackMark(c: char) {
    c == '-' || c == '_' || c == '.' || c == ' '
  }

  /** `stem[..e]` is matched by `\s*\d+\s*[-_. ]\s*` with the digits at
      `a..p` and the mark at `j`. */
  predicate PrefixAt(stem: string, a: nat, p: nat, j: nat, e: nat) {
    && a < p <= j < e <= |stem|
    && (forall m :: 0 <= m < a ==> IsSpace(stem[m]))
    && (forall m :: a <= m < p ==> IsDigit(stem[m]))
    && (forall m :: p <= m < j ==> IsSpace(stem[m]))
    && TrackMark(stem[j])
    && (forall m :: j < m < e ==> IsSpace(stem[m]))
  }

  /** The anchored pattern `^\s*\d+\s*[-_. ]\s*` matches `stem[..e]`. */
  ghost predicate IsTrackPrefix(stem: string, e: nat) {
    exists a, p, j :: PrefixAt(stem, a, p, j, e)
  }

  /** Whether a plain space is among `s[i..j]`. */
  function SpaceCharIn(s: string, i: nat, j: nat): bool
    requires i <= j <= |s|
    decreases j - i
  {
    i < j && (s[i] == ' ' || SpaceCharIn(s, i + 1, j))
  }

  lemma {:induction false} SpaceCharInIsSome(s: string, i: nat, j: nat)
    requires i <= j <= |s|
    ensures SpaceCharIn(s, i, j) <==> exists m :: i <= m < j && s[m] == ' '
    decreases j - i
  {
    if i < j {
      SpaceCharInIsSome(s, i + 1, j);
    }
  }

  /** Where the match of the track-number pattern ends. Leading whitespace
      and the digits are taken whole; the whitespace after the digits is
      taken whole when a `-`, `_` or `.` follows it, and otherwise gives back
      up to its last space, which then serves as the mark. */
  function TrackPrefixEnd(stem: string): (r: Option<nat>)
    ensures r.Some? ==> r.value <= |stem|
  {
    var a := SpaceRun(stem, 0);
    if a < |stem| && IsDigit(stem[a]) then
      var p := a + DigitRun(stem, a);
      var q := p + SpaceRun(stem, p);
      if q < |stem| && TrackMark(stem[q]) then Some(q + 1 + SpaceRun(stem, q + 1))
      else if SpaceCharIn(stem, p, q) then Some(q)
      else None
    else None
  }

  /** The stem with its track-number prefix removed, if it has one. */
  function DropTrackNumber(stem: string): (r: string)
    ensures |r| <= |stem|
  {
    match TrackPrefixEnd(stem)
    case Some(e) => stem[e..]
    case None => stem
  }

  /** A track number needs a digit after the leading whitespace. */
  lemma TrackPrefixNeedsDigit(stem: string)
    requires TrackPrefixEnd(stem).Some?
    ensures SpaceRun(stem, 0) < |stem| && IsDigit(stem[SpaceRun(stem, 0)])
  {
  }

  /** Whitespace, digits, whitespace, a mark and whitespace make a match. */
  lemma PrefixFromParts(stem: string, a: nat, p: nat, j: nat, e: nat)
    requires a < p <= j < e <= |stem|
    requires forall m :: 0 <= m < a ==> IsSpace(stem[m])
    requires forall m :: a <= m < p ==> IsDigit(stem[m])
    requires forall m :: p <= m < j ==> IsSpace(stem[m])
    requires TrackMark(stem[j])
    requires forall m :: j < m < e ==> IsSpace(stem[m])
    ensures IsTrackPrefix(stem, e)
  {
    assert PrefixAt(stem, a, p, j, e);
  }

  /** The digits, the whitespace after them and a mark from the class. */
  lemma MarkIsMatch(stem: string, a: nat, p: nat, q: nat, e: nat)
    requires a == SpaceRun(stem, 0) && a < |stem| && IsDigit(stem[a])
    requires p == a + DigitRun(stem, a) && q == p + SpaceRun(stem, p)
    requires q < |stem| && TrackMark(stem[q]) && e == q + 1 + SpaceRun(stem, q + 1)
    ensures IsTrackPrefix(stem, e)
  {
    SpacesUpTo(stem, 0, a);
    DigitsUpTo(stem, a, p);
    SpacesUpTo(stem, p, q);
    SpacesUpTo(stem, q + 1, e);
    PrefixFromParts(stem, a, p, q, e);
  }

  /** The digits and whitespace after them holding a space, which serves
      as the mark. */
  lemma SpaceIsMatch(stem: string, a: nat, p: nat, q: nat, e: nat)
    requires a == SpaceRun(stem, 0) && a < |stem| && IsDigit(stem[a])
    requires p == a + DigitRun(stem, a) && q == p + SpaceRun(stem, p)
    requires SpaceCharIn(stem, p, q) && e == q
    ensures IsTrackPrefix(stem, e)
  {
    SpacesUpTo(stem, 0, a);
    DigitsUpTo(stem, a, p);
    SpacesUpTo(stem, p, q);
    SpaceCharInIsSome(stem, p, q);
    var j :| p <= j < q && stem[j] == ' ';
    PrefixFromParts(stem, a, p, j, e);
  }

  /** What is removed is a match of the pattern. */
  lemma TrackPrefixIsMatch(stem: string)
    requires TrackPrefixEnd(stem).Some?
    ensures IsTrackPrefix(stem, TrackPrefixEnd(stem).value)
  {
    TrackPrefixNeedsDigit(stem);
    var a := SpaceRun(stem, 0);
    var p := a + DigitRun(stem, a);
    var q := p + SpaceRun(stem, p);
    var e := TrackPrefixEnd(stem).value;
    TrackPrefixEndCases(stem, a, p, q);
    if q < |stem| && TrackMark(stem[q]) {
      MarkIsMatch(stem, a, p, q, e);
    } else {
      SpaceIsMatch(stem, a, p, q, e);
    }
  }

  /** Any match starts its digits where the leading whitespace ends, takes
      all the digits, and has its mark inside the whitespace after them or
      just past it. */
  lemma MatchIsAnchored(stem: string, a: nat, p: nat, j: nat, e: nat)
    requires PrefixAt(stem, a, p, j, e)
    ensures a == SpaceRun(stem, 0)
    ensures p == a + DigitRun(stem, a)
    ensures j <= p + SpaceRun(stem, p)
  {
    assert IsDigit(stem[a]) && !IsSpace(stem[a]);
    SpaceRunEndsAt(stem, 0, a);
    assert !IsDigit(stem[p]);
    DigitRunEndsAt(stem, a, p);
    SpaceRunCovers(stem, p, j);
  }

  /** Whitespace after position `j` cannot run past a non-space at `q`. */
  lemma SpacesStopAt(stem: string, j: nat, e: nat, q: nat)
    requires j < q <= |stem| && e <= |stem|
    requires forall m :: j < m < e ==> IsSpace(stem[m])
    requires q == |stem| || !IsSpace(stem[q])
    ensures e <= q
  {
  }

  /** The two ways the pattern can end once the digits are found. */
  lemma TrackPrefixEndCases(stem: string, a: nat, p: nat, q: nat)
    requires a == SpaceRun(stem, 0) && a < |stem| && IsDigit(stem[a])
    requires p == a + DigitRun(stem, a) && q == p + SpaceRun(stem, p)
    ensures q < |stem| && TrackMark(stem[q]) ==> TrackPrefixEnd(stem) == Some(q + 1 + SpaceRun(stem, q + 1))
    ensures SpaceCharIn(stem, p, q) ==> TrackPrefixEnd(stem).Some? && TrackPrefixEnd(stem).value >= q
    ensures !(q < |stem| && TrackMark(stem[q])) ==>
      TrackPrefixEnd(stem) == (if SpaceCharIn(stem, p, q) then Some(q) else None)
  {
  }

  /** The only whitespace character in the mark class is the space. */
  lemma SpaceMarkIsBlank(c: char)
    requires TrackMark(c) && IsSpace(c)
    ensures c == ' '
  {
  }

  /** A match whose mark is a space inside the whitespace after the digits
      ends within that whitespace, which then holds a space. */
  lemma MarkInSpacesIsCovered(stem: string, p: nat, j: nat, q: nat, e: nat)
    requires p <= j < q <= |stem| && j < e <= |stem| && stem[j] == ' '
    requires q == |stem| || !IsSpace(stem[q])
    requires forall m :: j < m < e ==> IsSpace(stem[m])
    ensures SpaceCharIn(stem, p, q) && e <= q
  {
    SpaceCharInIsSome(stem, p, q);
    SpacesStopAt(stem, j, e, q);
  }

  /** The end of a match, given where its digits and mark are, is not past
      the end the function computes. */
  lemma MatchEndIsCovered(stem: string, p: nat, j: nat, e: nat)
    requires SpaceRun(stem, 0) < |stem| && IsDigit(stem[SpaceRun(stem, 0)])
    requires p == SpaceRun(stem, 0) + DigitRun(stem, SpaceRun(stem, 0))
    requires p <= j <= p + SpaceRun(stem, p) && j < e <= |stem|
    requires TrackMark(stem[j]) && (j < p + SpaceRun(stem, p) ==> IsSpace(stem[j]))
    requires forall m :: j < m < e ==> IsSpace(stem[m])
    ensures TrackPrefixEnd(stem).Some? && e <= TrackPrefixEnd(stem).value
  {
    var q := p + SpaceRun(stem, p);
    if j == q {
      SpaceRunCovers(stem, q + 1, e);
    } else {
      SpaceMarkIsBlank(stem[j]);
      MarkInSpacesIsCovered(stem, p, j, q, e);
    }
    TrackPrefixEndCases(stem, SpaceRun(stem, 0), p, q);
  }

  /** Every match is found, and the one removed is the longest: the greedy
      choice Python's engine tries first. */
  lemma TrackPrefixIsLongestMatch(stem: string, e: nat)
    requires IsTrackPrefix(stem, e)
    ensures TrackPrefixEnd(stem).Some? && e <= TrackPrefixEnd(stem).value
  {
    var a: nat, p: nat, j: nat :| PrefixAt(stem, a, p, j, e);
    MatchIsAnchored(stem, a, p, j, e);
    SpaceRunHolds(stem, p);
    MatchEndIsCovered(stem, p, j, e);
  }

  /** A stem made only of digits is left as it is. */
  lemma DigitsOnlyStemIsKept(stem: string)
    requires AllDigits(stem)
    ensures DropTrackNumber(stem) == stem
  {
    if stem != [] {
      assert !IsSpace(stem[0]);
      assert SpaceRun(stem, 0) == 0;
      DigitRunCovers(stem, 0, |stem|);
    }
  }

  // --------------------------------------------------------- bracketed text

  /** `[\[\(\{（【]`: the opening brackets. */
  predicate Opener(c: char) {
    c == '[' || c == '(' || c == '{' || c == '\U{FF08}' || c == '\U{3010}'
  }

  /** `[\]\)\}）】]`: the closing brackets, of any kind. */
  predicate Closer(c: char) {
    c == ']' || c == ')' || c == '}' || c == '\U{FF09}' || c == '\U{3011}'
  }

  /** No closing bracket before the first line feed of `t`. */
  predicate LineHasNoCloser(t: string) {
    forall k :: 0 <= k < |t| && Closer(t[k]) ==> '\n' in t[..k]
  }

  /** The lazy `.*?` followed by a closer: the position of the first closer
      of `t`, if no line feed comes before it (`.` does not match one). */
  function CloserIn(t: string): (r: Option<nat>)
    ensures r.Some? ==> (r.value < |t| && Closer(t[r.value]) && '\n' !in t[..r.value]
      && forall k :: 0 <= k < r.value ==> !Closer(t[k]))
    ensures r.None? <==> LineHasNoCloser(t)
  {
    if t == [] then None
    else if Closer(t[0]) then Some(0)
    else if t[0] == '\n' then None
    else
      NoCloserCons(t);
      match CloserIn(t[1..])
      case Some(k) =>
        PrefixAfterHead(t, k);
        Some(k + 1)
      case None => None
  }

  lemma PrefixAfterHead(t: string, k: nat)
    requires k < |t|
    ensures t[..k + 1] == [t[0]] + t[1..][..k]
  {
  }

  /** A first character that is neither a closer nor a line feed does not
      decide whether the line has a closer. */
  lemma NoCloserCons(t: string)
    requires t != [] && !Closer(t[0]) && t[0] != '\n'
    ensures LineHasNoCloser(t) <==> LineHasNoCloser(t[1..])
  {
    forall k | 1 <= k <= |t| ensures t[..k] == [t[0]] + t[1..][..k - 1] {
      PrefixAfterHead(t, k - 1);
    }
    if LineHasNoCloser(t[1..]) {
      forall k | 0 <= k < |t| && Closer(t[k]) ensures '\n' in t[..k] {
        assert t[k] == t[1..][k - 1];
      }
    }
  }

  /** `re.sub` of the bracket pattern with the empty string: scanning from
      the left, an opener with a closer after it on the same line is dropped
      together with everything up to that first closer. Removal never
      lengthens the text. */
  function RemoveBrackets(s: string): (r: string)
    ensures |r| <= |s|
    decreases |s|
  {
    if s == [] then []
    else if Opener(s[0]) && CloserIn(s[1..]).Some? then RemoveBrackets(s[1..][CloserIn(s[1..]).value + 1..])
    else [s[0]] + RemoveBrackets(s[1..])
  }

  /** The pattern finds no match: every opener left has no closer after it
      on its line. */
  predicate NoBracketPair(r: string) {
    forall i :: 0 <= i < |r| && Opener(r[i]) ==> LineHasNoCloser(r[i + 1..])
  }

  lemma LineHasNoCloserTail(t: string)
    requires t != [] && t[0] != '\n' && LineHasNoCloser(t)
    ensures !Closer(t[0]) && LineHasNoCloser(t[1..])
  {
    forall k | 0 <= k < |t[1..]| && Closer(t[1..][k])
      ensures '\n' in t[1..][..k]
    {
      assert t[k + 1] == t[1..][k];
      assert t[..k + 1] == [t[0]] + t[1..][..k];
    }
  }

  /** Removal keeps a line free of closers: it only drops text. */
  lemma {:induction false} RemovalKeepsLineFree(t: string)
    requires LineHasNoCloser(t)
    ensures LineHasNoCloser(RemoveBrackets(t))
    decreases |t|
  {
    if t != [] && t[0] == '\n' {
      var r := RemoveBrackets(t);
      assert r[0] == '\n';
      forall k | 0 < k < |r| ensures '\n' in r[..k] {
        assert r[..k][0] == '\n';
      }
    } else if t != [] {
      LineHasNoCloserTail(t);
      RemovalKeepsLineFree(t[1..]);
      var r := RemoveBrackets(t);
      var rest := RemoveBrackets(t[1..]);
      assert r == [t[0]] + rest;
      forall k | 0 <= k < |r| && Closer(r[k]) ensures '\n' in r[..k] {
        assert k > 0 && r[k] == rest[k - 1];
        assert '\n' in rest[..k - 1];
        assert r[..k] == [t[0]] + rest[..k - 1];
      }
    }
  }

  lemma NoBracketPairCons(c: char, rest: string)
    requires NoBracketPair(rest)
    requires Opener(c) ==> LineHasNoCloser(rest)
    ensures NoBracketPair([c] + rest)
  {
    var r := [c] + rest;
    forall i | 0 <= i < |r| && Opener(r[i]) ensures LineHasNoCloser(r[i + 1..]) {
      if i > 0 {
        assert r[i] == rest[i - 1];
        assert r[i + 1..] == rest[i..];
      } else {
        assert r[1..] == rest;
      }
    }
  }

  /** After the substitution the pattern matches nowhere. */
  lemma {:induction false} RemovalLeavesNoPair(s: string)
    ensures NoBracketPair(RemoveBrackets(s))
    decreases |s|
  {
    if s != [] {
      if Opener(s[0]) && CloserIn(s[1..]).Some? {
        RemovalLeavesNoPair(s[1..][CloserIn(s[1..]).value + 1..]);
      } else {
        RemovalLeavesNoPair(s[1..]);
        if Opener(s[0]) {
          RemovalKeepsLineFree(s[1..]);
        }
        NoBracketPairCons(s[0], RemoveBrackets(s[1..]));
      }
    }
  }

  /** A text in which the pattern matches nowhere is left as it is. */
  lemma {:induction false} NoPairIsKept(r: string)
    requires NoBracketPair(r)
    ensures RemoveBrackets(r) == r
    decreases |r|
  {
    if r != [] {
      forall i | 0 <= i < |r[1..]| && Opener(r[1..][i]) ensures LineHasNoCloser(r[1..][i + 1..]) {
        assert r[1..][i] == r[i + 1];
        assert r[1..][i + 1..] == r[i + 2..];
      }
      NoPairIsKept(r[1..]);
      if Opener(r[0]) {
        assert r[1..] == r[0 + 1..];
      }
    }
  }

  /** Removing bracketed text twice removes nothing more. */
  lemma RemovalIsIdempotent(s: string)
    ensures RemoveBrackets(RemoveBrackets(s)) == RemoveBrackets(s)
  {
    RemovalLeavesNoPair(s);
    NoPairIsKept(RemoveBrackets(s));
  }

  /** An opener, text with no closer and no line feed, and a closer of any
      kind are removed together, and the scan goes on after the closer. */
  lemma ShortestSpanIsRemoved(open: char, inner: string, close: char, rest: string)
    requires Opener(open) && Closer(close)
    requires forall k :: 0 <= k < |inner| ==> !Closer(inner[k]) && inner[k] != '\n'
    ensures RemoveBrackets([open] + inner + [close] + rest) == RemoveBrackets(rest)
  {
    var s := [open] + inner + [close] + rest;
    var t := s[1..];
    assert t == inner + [close] + rest;
    assert t[|inner|] == close;
    assert t[..|inner|] == inner;
    forall k | 0 <= k < |inner| ensures t[k] == inner[k] && !Closer(t[k]) {
    }
    assert CloserIn(t) == Some(|inner|);
    assert t[|inner| + 1..] == rest;
  }

  /** A character that does not start a match is kept, and the scan goes on
      right after it: text outside every match is left in place. With
      `ShortestSpanIsRemoved` and the empty text this fixes the result. */
  lemma HeadWithoutMatchIsKept(c: char, rest: string)
    requires !Opener(c) || LineHasNoCloser(rest)
    ensures RemoveBrackets([c] + rest) == [c] + RemoveBrackets(rest)
  {
    assert ([c] + rest)[1..] == rest;
  }

  // ------------------------------------------------------------ the tokens

  /** `[-–—_|]`: the separators between title tokens. */
  predicate Separator(c: char) {
    c == '-' || c == '\U{2013}' || c == '\U{2014}' || c == '_' || c == '|'
  }

  predicate NoSeparator(s: string) {
    forall k :: 0 <= k < |s| ==> !Separator(s[k])
  }

  /** The position of the first separator at or after `i`. */
  function SeparatorFrom(s: string, i: nat): (r: Option<nat>)
    requires i <= |s|
    ensures r.Some? ==> i <= r.value < |s|
    decreases |s| - i
  {
    if i == |s| then None
    else if Separator(s[i]) then Some(i)
    else SeparatorFrom(s, i + 1)
  }

  /** The position of the first separator. */
  function FirstSeparator(s: string): (r: Option<nat>)
    ensures r.Some? ==> r.value < |s|
  {
    SeparatorFrom(s, 0)
  }

  lemma {:induction false} SeparatorFromIsFirst(s: string, i: nat)
    requires i <= |s|
    ensures SeparatorFrom(s, i).Some? ==> var k := SeparatorFrom(s, i).value;
      Separator(s[k]) && forall m :: i <= m < k ==> !Separator(s[m])
    ensures SeparatorFrom(s, i).None? ==> forall m :: i <= m < |s| ==> !Separator(s[m])
    decreases |s| - i
  {
    if i < |s| && !Separator(s[i]) {
      SeparatorFromIsFirst(s, i + 1);
    }
  }

  /** The separator found is one, and none comes before it; when none is
      found the text has none. */
  lemma FirstSeparatorIsFirst(s: string)
    ensures FirstSeparator(s).Some? ==> var k := FirstSeparator(s).value;
      Separator(s[k]) && NoSeparator(s[..k])
    ensures FirstSeparator(s).None? ==> NoSeparator(s)
  {
    SeparatorFromIsFirst(s, 0);
  }

  /** A token's text once the whitespace before it is cut, which happens to
      every token that follows a separator. */
  function Lead(s: string, afterSep: bool): string {
    if afterSep then TrimLeft(s) else s
  }

  /** `re.split(r"\s*[-–—_|]\s*", s)` on a text that follows a separator
      (`afterSep`) or starts the title. The leftmost match is the first
      separator with all the whitespace around it: the token before it is
      the text up to it with its trailing whitespace cut, and the whitespace
      after it goes with the separator, so the next token starts without
      any. */
  function SplitFrom(s: string, afterSep: bool): (parts: seq<string>)
    ensures |parts| >= 1
    ensures |parts| == 1 <==> FirstSeparator(s).None?
    decreases |s|
  {
    match FirstSeparator(s)
    case None => [Lead(s, afterSep)]
    case Some(k) => [TrimRight(Lead(s[..k], afterSep))] + SplitFrom(s[k + 1..], true)
  }

  function SplitTitle(s: string): seq<string> {
    SplitFrom(s, false)
  }

  function SeparatorCount(s: string): nat {
    if s == [] then 0 else (if Separator(s[0]) then 1 else 0) + SeparatorCount(s[1..])
  }

  /** A stretch with no separator adds nothing to the count. */
  lemma {:induction false} SkipNoSeparator(s: string, i: nat, j: nat)
    requires i <= j <= |s|
    requires forall m :: i <= m < j ==> !Separator(s[m])
    ensures SeparatorCount(s[i..]) == SeparatorCount(s[j..])
    decreases j - i
  {
    if i < j {
      assert s[i..][1..] == s[i + 1..];
      SkipNoSeparator(s, i + 1, j);
    }
  }

  /** The first separator accounts for one separator of the text. */
  lemma CountAtSeparator(s: string, k: nat)
    requires k < |s| && Separator(s[k])
    requires forall m :: 0 <= m < k ==> !Separator(s[m])
    ensures SeparatorCount(s) == 1 + SeparatorCount(s[k + 1..])
  {
    assert s[0..] == s;
    SkipNoSeparator(s, 0, k);
    assert s[k..][1..] == s[k + 1..];
  }

  /** The split gives one token more than there are separators. */
  lemma {:induction false} SplitFromCount(s: string, afterSep: bool)
    ensures |SplitFrom(s, afterSep)| == SeparatorCount(s) + 1
    decreases |s|
  {
    SeparatorFromIsFirst(s, 0);
    match FirstSeparator(s)
    case None =>
      assert s[0..] == s && s[|s|..] == [];
      SkipNoSeparator(s, 0, |s|);
      assert SplitFrom(s, afterSep) == [Lead(s, afterSep)];
    case Some(k) =>
      SplitFromCount(s[k + 1..], true);
      CountAtSeparator(s, k);
      assert SplitFrom(s, afterSep) == [TrimRight(Lead(s[..k], afterSep))] + SplitFrom(s[k + 1..], true);
  }

  /** Cutting whitespace off a text with no separator leaves none. */
  lemma TrimmedHasNoSeparator(s: string, afterSep: bool)
    requires NoSeparator(s)
    ensures NoSeparator(Lead(s, afterSep)) && NoSeparator(TrimRight(Lead(s, afterSep)))
  {
    var l := Lead(s, afterSep);
    forall m | 0 <= m < |l| ensures !Separator(l[m]) {
      assert l[m] == s[|s| - |l| + m];
    }
    var r := TrimRight(l);
    forall m | 0 <= m < |r| ensures !Separator(r[m]) {
      assert r[m] == l[m];
    }
  }

  /** No token holds a separator. */
  lemma {:induction false} SplitFromHasNoSeparator(s: string, afterSep: bool)
    ensures forall i :: 0 <= i < |SplitFrom(s, afterSep)| ==> NoSeparator(SplitFrom(s, afterSep)[i])
    decreases |s|
  {
    FirstSeparatorIsFirst(s);
    match FirstSeparator(s)
    case None =>
      TrimmedHasNoSeparator(s, afterSep);
    case Some(k) =>
      SplitFromHasNoSeparator(s[k + 1..], true);
      TrimmedHasNoSeparator(s[..k], afterSep);
      var parts := SplitFrom(s, afterSep);
      var rest := SplitFrom(s[k + 1..], true);
      assert parts == [TrimRight(Lead(s[..k], afterSep))] + rest;
      forall i | 0 <= i < |parts| ensures NoSeparator(parts[i]) {
        if i > 0 {
          assert parts[i] == rest[i - 1];
        }
      }
  }

  /** One match of the separator pattern `\s*[-–—_|]\s*`: whitespace, a
      separator, whitespace. */
  datatype Mark = Mark(before: string, sep: char, after: string)

  function MarkText(mk: Mark): string {
    mk.before + [mk.sep] + mk.after
  }

  predicate WellMark(mk: Mark) {
    AllSpace(mk.before) && Separator(mk.sep) && AllSpace(mk.after)
  }

  /** The matches `re.split` cuts at, in order: each is the first separator
      of what is left with the whitespace on either side of it. */
  function Marks(s: string, afterSep: bool): seq<Mark>
    decreases |s|
  {
    match FirstSeparator(s)
    case None => []
    case Some(k) => [MarkBetween(Lead(s[..k], afterSep), s[k], s[k + 1..])] + Marks(s[k + 1..], true)
  }

  /** The match at separator `c` between the text `l` before it and the text
      `rest` after it: the whitespace ending `l` and the whitespace starting
      `rest`. */
  function MarkBetween(l: string, c: char, rest: string): Mark {
    Mark(l[|TrimRight(l)|..], c, rest[..|rest| - |TrimLeft(rest)|])
  }

  /** The tokens with the matches put back between them. */
  function Interleave(parts: seq<string>, marks: seq<Mark>): string
    requires |parts| == |marks| + 1
    decreases marks
  {
    if marks == [] then parts[0]
    else parts[0] + MarkText(marks[0]) + Interleave(parts[1..], marks[1..])
  }

  predicate AllWell(marks: seq<Mark>) {
    forall i :: 0 <= i < |marks| ==> WellMark(marks[i])
  }

  /** Every match cut at is whitespace, one separator, whitespace. */
  lemma {:induction false} MarksAreWell(s: string, afterSep: bool)
    ensures AllWell(Marks(s, afterSep))
    decreases |s|
  {
    FirstSeparatorIsFirst(s);
    match FirstSeparator(s)
    case None =>
    case Some(k) =>
      var rest := s[k + 1..];
      var mk := MarkBetween(Lead(s[..k], afterSep), s[k], rest);
      MarksAreWell(rest, true);
      WellMarkAround(Lead(s[..k], afterSep), s[k], rest);
      WellCons(mk, Marks(rest, true));
  }

  /** The whitespace cut from both sides of a separator makes a match. */
  lemma WellMarkAround(l: string, c: char, rest: string)
    requires Separator(c)
    ensures WellMark(MarkBetween(l, c, rest))
  {
    TrimRightCutsSpace(l);
    TrimLeftCutsSpace(rest);
  }

  lemma WellCons(mk: Mark, marks: seq<Mark>)
    requires WellMark(mk) && AllWell(marks)
    ensures AllWell([mk] + marks)
  {
    forall i | 0 <= i < |[mk] + marks| ensures WellMark(([mk] + marks)[i]) {
      if i > 0 {
        assert ([mk] + marks)[i] == marks[i - 1];
      }
    }
  }

  /** The split loses nothing but the whitespace in front of a text that
      follows a separator: the tokens with the matches between them give
      the text back. */
  lemma {:induction false} SplitFromRebuilds(s: string, afterSep: bool)
    ensures |SplitFrom(s, afterSep)| == |Marks(s, afterSep)| + 1
    ensures Interleave(SplitFrom(s, afterSep), Marks(s, afterSep)) == Lead(s, afterSep)
    decreases |s|
  {
    FirstSeparatorIsFirst(s);
    match FirstSeparator(s)
    case None =>
    case Some(k) =>
      var l := Lead(s[..k], afterSep);
      var t := TrimRight(l);
      var rest := s[k + 1..];
      var tr := TrimLeft(rest);
      var mk := MarkBetween(l, s[k], rest);
      SplitFromRebuilds(rest, true);
      assert SplitFrom(s, afterSep) == [t] + SplitFrom(rest, true);
      assert Marks(s, afterSep) == [mk] + Marks(rest, true);
      InterleaveCons(t, mk, SplitFrom(rest, true), Marks(rest, true));
      LeadAtSeparator(s, k, afterSep);
      JoinAtMark(l, t, mk, rest, tr);
  }

  lemma InterleaveCons(t: string, mk: Mark, parts: seq<string>, marks: seq<Mark>)
    requires |parts| == |marks| + 1
    ensures Interleave([t] + parts, [mk] + marks) == t + MarkText(mk) + Interleave(parts, marks)
  {
    assert ([t] + parts)[1..] == parts && ([mk] + marks)[1..] == marks;
  }

  /** The text that follows a separator's position, cut at it. */
  lemma LeadAtSeparator(s: string, k: nat, afterSep: bool)
    requires k < |s| && Separator(s[k])
    ensures Lead(s, afterSep) == Lead(s[..k], afterSep) + [s[k]] + s[k + 1..]
  {
    SliceAt(s, k);
    if afterSep {
      SeparatorIsNoSpace(s[k]);
      TrimLeftBeforeNonSpace(s, k);
      Glue(TrimLeft(s[..k]), s[k..], [s[k]], s[k + 1..]);
    }
  }

  lemma SliceAt(s: string, k: nat)
    requires k < |s|
    ensures s[k..] == [s[k]] + s[k + 1..] && s == s[..k] + [s[k]] + s[k + 1..]
  {
    assert s == s[..k] + s[k..];
  }

  lemma Glue(x: string, y: string, a: string, b: string)
    requires y == a + b
    ensures x + y == x + a + b
  {
  }

  /** A token, a match and the rest glued back give the text they were cut
      from. */
  lemma JoinAtMark(l: string, t: string, mk: Mark, rest: string, tr: string)
    requires |t| <= |l| && t == l[..|t|] && mk.before == l[|t|..]
    requires |tr| <= |rest| && tr == rest[|rest| - |tr|..] && mk.after == rest[..|rest| - |tr|]
    ensures t + MarkText(mk) + tr == l + [mk.sep] + rest
  {
    assert t + mk.before == l;
    assert mk.after + tr == rest;
  }

  lemma SeparatorIsNoSpace(c: char)
    requires Separator(c)
    ensures !IsSpace(c)
  {
  }

  /** The `\s*` on either side of match `i` is greedy: the token before it
      does not end in whitespace, and what follows the match does not start
      with any. */
  predicate GreedyAt(parts: seq<string>, marks: seq<Mark>, i: nat)
    requires |parts| == |marks| + 1 && i < |marks|
  {
    var after := Interleave(parts[i + 1..], marks[i + 1..]);
    && (parts[i] == [] || !IsSpace(parts[i][|parts[i]| - 1]))
    && (after == [] || !IsSpace(after[0]))
  }

  predicate Greedy(parts: seq<string>, marks: seq<Mark>)
    requires |parts| == |marks| + 1
  {
    forall i :: 0 <= i < |marks| ==> GreedyAt(parts, marks, i)
  }

  /** Every match of the split takes all the whitespace around its
      separator, as the greedy `\s*` of the pattern does. */
  lemma {:induction false} SplitFromIsGreedy(s: string, afterSep: bool)
    ensures |SplitFrom(s, afterSep)| == |Marks(s, afterSep)| + 1
    ensures Greedy(SplitFrom(s, afterSep), Marks(s, afterSep))
    decreases |s|
  {
    SplitFromRebuilds(s, afterSep);
    match FirstSeparator(s)
    case None =>
    case Some(k) =>
      var rest := s[k + 1..];
      var t := TrimRight(Lead(s[..k], afterSep));
      var mk := MarkBetween(Lead(s[..k], afterSep), s[k], rest);
      SplitFromIsGreedy(rest, true);
      SplitFromRebuilds(rest, true);
      assert SplitFrom(s, afterSep) == [t] + SplitFrom(rest, true);
      assert Marks(s, afterSep) == [mk] + Marks(rest, true);
      GreedyCons(t, mk, SplitFrom(rest, true), Marks(rest, true));
  }

  /** A token that does not end in whitespace, put in front of a greedy
      split of a text that does not start with whitespace, keeps it
      greedy. */
  lemma GreedyCons(t: string, mk: Mark, parts: seq<string>, marks: seq<Mark>)
    requires |parts| == |marks| + 1 && Greedy(parts, marks)
    requires t == [] || !IsSpace(t[|t| - 1])
    requires var after := Interleave(parts, marks); after == [] || !IsSpace(after[0])
    ensures Greedy([t] + parts, [mk] + marks)
  {
    forall i | 0 <= i < |marks| + 1 ensures GreedyAt([t] + parts, [mk] + marks, i) {
      if i == 0 {
        GreedyHead(t, mk, parts, marks);
      } else {
        GreedyTail(t, mk, parts, marks, i);
      }
    }
  }

  lemma GreedyHead(t: string, mk: Mark, parts: seq<string>, marks: seq<Mark>)
    requires |parts| == |marks| + 1
    requires t == [] || !IsSpace(t[|t| - 1])
    requires var after := Interleave(parts, marks); after == [] || !IsSpace(after[0])
    ensures GreedyAt([t] + parts, [mk] + marks, 0)
  {
    assert ([t] + parts)[1..] == parts && ([mk] + marks)[1..] == marks;
  }

  lemma GreedyTail(t: string, mk: Mark, parts: seq<string>, marks: seq<Mark>, i: nat)
    requires |parts| == |marks| + 1 && 0 < i <= |marks|
    requires GreedyAt(parts, marks, i - 1)
    ensures GreedyAt([t] + parts, [mk] + marks, i)
  {
    assert ([t] + parts)[i] == parts[i - 1];
    assert ([t] + parts)[i + 1..] == parts[i..] && ([mk] + marks)[i + 1..] == marks[i..];
  }

  /** The whole title is the whitespace cut in front of nothing, then the
      tokens with the matches between them, each match taking all the
      whitespace around its separator. */
  lemma SplitTitleRebuilds(s: string)
    ensures |SplitTitle(s)| == |Marks(s, false)| + 1
    ensures Interleave(SplitTitle(s), Marks(s, false)) == s
    ensures AllWell(Marks(s, false))
    ensures Greedy(SplitTitle(s), Marks(s, false))
  {
    SplitFromRebuilds(s, false);
    MarksAreWell(s, false);
    SplitFromIsGreedy(s, false);
  }

  /** `[p for p in parts if p]`. */
  function NonEmpty(parts: seq<string>): (r: seq<string>)
    ensures forall x :: x in r <==> x in parts && x != ""
  {
    if parts == [] then []
    else (if parts[0] != "" then [parts[0]] else []) + NonEmpty(parts[1..])
  }

  /** The filter keeps order and repeats: it distributes over `+`. */
  lemma {:induction false} NonEmptyConcat(a: seq<string>, b: seq<string>)
    ensures NonEmpty(a + b) == NonEmpty(a) + NonEmpty(b)
    decreases |a|
  {
    if a == [] {
      assert a + b == b;
    } else {
      assert (a + b)[0] == a[0] && (a + b)[1..] == a[1..] + b;
      NonEmptyConcat(a[1..], b);
    }
  }

  /** One token is kept exactly when it is non-empty. */
  lemma NonEmptyOne(x: string)
    ensures NonEmpty([x]) == if x != "" then [x] else []
  {
    assert [x][1..] == [];
  }

  /** The sort key of `sort(key=len, reverse=True)`: Python's reverse sort
      is stable, so it orders like an ascending stable sort on the negated
      length. */
  function NegLength(s: string): int {
    -|s|
  }

  /** The tokens the title is chosen from. */
  function Tokens(stem: string): seq<string> {
    NonEmpty(SplitTitle(RemoveBrackets(DropTrackNumber(stem))))
  }

  /** `_fuzzy_title_from_filename`: the stem itself when no token is left,
      and otherwise one of the tokens, stripped. */
  function FuzzyTitleFromFilename(stem: string): (title: string)
    ensures Tokens(stem) == [] ==> title == stem
    ensures Tokens(stem) != [] ==> exists i :: 0 <= i < |Tokens(stem)| && title == Strip(Tokens(stem)[i])
  {
    var parts := Tokens(stem);
    if parts == [] then stem
    else
      var sorted := SortBy(parts, NegLength);
      assert |multiset(sorted)| == |multiset(parts)|;
      assert sorted[0] in multiset(parts);
      Strip(sorted[0])
  }

  /** With no token left the stem comes back unchanged; otherwise the title
      is the first of the longest tokens, stripped. */
  lemma TitleIsLongestToken(stem: string)
    ensures Tokens(stem) == [] ==> FuzzyTitleFromFilename(stem) == stem
    ensures Tokens(stem) != [] ==> exists i :: (0 <= i < |Tokens(stem)|
      && FuzzyTitleFromFilename(stem) == Strip(Tokens(stem)[i])
      && (forall j :: 0 <= j < |Tokens(stem)| ==> |Tokens(stem)[j]| <= |Tokens(stem)[i]|)
      && (forall j :: 0 <= j < i ==> |Tokens(stem)[j]| < |Tokens(stem)[i]|))
  {
    var parts := Tokens(stem);
    if parts != [] {
      SortByFirst(parts, NegLength);
      var i := ArgMin(parts, NegLength);
      assert FuzzyTitleFromFilename(stem) == Strip(parts[i]);
      assert forall j :: 0 <= j < |parts| ==> NegLength(parts[i]) <= NegLength(parts[j]);
    }
  }

  /** A stem with no track number, no bracket and no separator is its own
      title, stripped. */
  lemma PlainStemIsItsOwnTitle(stem: string)
    requires TrackPrefixEnd(stem).None?
    requires forall k :: 0 <= k < |stem| ==> !Opener(stem[k]) && !Separator(stem[k])
    ensures FuzzyTitleFromFilename(stem) == Strip(stem)
  {
    assert NoBracketPair(stem);
    NoPairIsKept(stem);
    FirstSeparatorIsFirst(stem);
    assert SplitTitle(stem) == [stem];
    if stem != "" {
      assert NonEmpty([stem]) == [stem];
      SortByFirst([stem], NegLength);
    }
  }
}
