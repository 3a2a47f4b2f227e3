/** The pieces of Python string behaviour the lyric tools rely on: decimal
    digits and `int()` of a digit string, the `{n:0Wd}` format, Unicode
    whitespace with `str.strip()`, and the split of a document into lines. */
module Strings {

  // ---------------------------------------------------------------- digits

  predicate IsDigit(c: char) {
    '0' <= c <= '9'
  }

  predicate AllDigits(s: string) {
    forall i :: 0 <= i < |s| ==> IsDigit(s[i])
  }

  function DigitValue(c: char): nat
    requires IsDigit(c)
  {
    c as int - '0' as int
  }

  function DigitChar(d: nat): (c: char)
    requires d < 10
    ensures IsDigit(c) && DigitValue(c) == d
  {
    ('0' as int + d) as char
  }

  function Pow10(k: nat): (p: nat)
    ensures p >= 1
  {
    if k == 0 then 1 else 10 * Pow10(k - 1)
  }

  /** `int(s)` for a string of ASCII decimal digits (the empty string reads as 0). */
  function Value(s: string): nat
    requires AllDigits(s)
  {
    if s == [] then 0 else Value(s[..|s| - 1]) * 10 + DigitValue(s[|s| - 1])
  }

  /** The number of consecutive digits of `s` starting at `i`. */
  function DigitRun(s: string, i: nat): (n: nat)
    requires i <= |s|
    ensures i + n <= |s|
    ensures i + n == |s| || !IsDigit(s[i + n])
    decreases |s| - i
  {
    if i < |s| && IsDigit(s[i]) then 1 + DigitRun(s, i + 1) else 0
  }

  /** Every character of the run passes the test. */
  lemma {:induction false} DigitRunHolds(s: string, i: nat)
    requires i <= |s|
    ensures forall k :: i <= k < i + DigitRun(s, i) ==> IsDigit(s[k])
    decreases |s| - i
  {
    if i < |s| && IsDigit(s[i]) {
      DigitRunHolds(s, i + 1);
    }
  }

  /** The same, for a run whose end has been named. */
  lemma DigitsUpTo(s: string, i: nat, j: nat)
    requires i <= |s| && j == i + DigitRun(s, i)
    ensures forall k :: i <= k < j ==> IsDigit(s[k])
  {
    DigitRunHolds(s, i);
  }

  /** A run of digits reaching `k` is taken whole by `DigitRun`. */
  lemma {:induction false} DigitRunCovers(s: string, i: nat, k: nat)
    requires i <= k <= |s|
    requires forall m :: i <= m < k ==> IsDigit(s[m])
    ensures i + DigitRun(s, i) >= k
    decreases k - i
  {
    if i < k {
      DigitRunCovers(s, i + 1, k);
    }
  }

  /** A run of digits from `i` that stops at `k` is what `DigitRun` takes. */
  lemma DigitRunEndsAt(s: string, i: nat, k: nat)
    requires i <= k <= |s| && forall m :: i <= m < k ==> IsDigit(s[m])
    requires k == |s| || !IsDigit(s[k])
    ensures i + DigitRun(s, i) == k
  {
    DigitRunCovers(s, i, k);
    DigitRunHolds(s, i);
  }

  lemma {:induction false} ValueConcat(a: string, b: string)
    requires AllDigits(a) && AllDigits(b)
    ensures AllDigits(a + b)
    ensures Value(a + b) == Value(a) * Pow10(|b|) + Value(b)
    decreases |b|
  {
    if b == [] {
      assert a + b == a;
    } else {
      var b' := b[..|b| - 1];
      var d := DigitValue(b[|b| - 1]);
      assert (a + b)[..|a + b| - 1] == a + b';
      assert (a + b)[|a + b| - 1] == b[|b| - 1];
      ValueConcat(a, b');
      assert Value(a + b) == Value(a + b') * 10 + d;
      assert Value(b) == Value(b') * 10 + d;
      ShiftDigit(Value(a), Pow10(|b'|), Value(b'), d);
    }
  }

  /** Appending a digit to a number written after a prefix. */
  lemma ShiftDigit(x: nat, p: nat, v: nat, d: nat)
    ensures (x * p + v) * 10 + d == x * (10 * p) + (v * 10 + d)
  {
  }

  // ------------------------------------------------------ integer formatting

  /** `str(n)` for a natural number: its digits without leading zeros. */
  function Decimal(n: nat): (s: string)
    ensures AllDigits(s) && |s| >= 1
  {
    if n < 10 then [DigitChar(n)] else Decimal(n / 10) + [DigitChar(n % 10)]
  }

  lemma {:induction false} DecimalValue(n: nat)
    ensures Value(Decimal(n)) == n
  {
    if n >= 10 {
      DecimalValue(n / 10);
      var s := Decimal(n);
      assert s[..|s| - 1] == Decimal(n / 10);
    }
  }

  /** How many digits `str(n)` has, for the widths the formats use. */
  lemma {:induction false} DecimalLength(n: nat)
    ensures n < 10 <==> |Decimal(n)| == 1
    ensures n < 100 <==> |Decimal(n)| <= 2
    ensures n < 1000 <==> |Decimal(n)| <= 3
  {
    if n >= 10 {
      DecimalLength(n / 10);
    }
  }

  function Zeros(k: nat): (s: string)
    ensures |s| == k && AllDigits(s)
  {
    if k == 0 then "" else "0" + Zeros(k - 1)
  }

  /** The format `{n:0Wd}` of a natural number: `str(n)` left-padded with
      zeros to at least `width` characters. */
  function ZeroPad(n: nat, width: nat): (s: string)
    ensures AllDigits(s)
  {
    var d := Decimal(n);
    if |d| < width then Zeros(width - |d|) + d else d
  }

  lemma {:induction false} ZerosValue(k: nat)
    ensures Value(Zeros(k)) == 0
  {
    if k > 0 {
      ValueConcat("0", Zeros(k - 1));
      ZerosValue(k - 1);
      assert Value("0") == 0 by {
        assert "0"[..0] == "";
      }
    }
  }

  /** Padding never changes the number a formatted field reads back as. */
  lemma ZeroPadValue(n: nat, width: nat)
    ensures Value(ZeroPad(n, width)) == n
  {
    var d := Decimal(n);
    DecimalValue(n);
    if |d| < width {
      var z := Zeros(width - |d|);
      assert ZeroPad(n, width) == z + d;
      ValueConcat(z, d);
      ZerosValue(width - |d|);
      ZeroTimes(Value(z), Pow10(|d|));
    }
  }

  /** A two- or three-digit field that fits its width is written with
      exactly that many digits and reads back as the number. */
  lemma ZeroPadField(n: nat, width: nat)
    requires (width == 2 && n < 100) || (width == 3 && n < 1000)
    ensures |ZeroPad(n, width)| == width && Value(ZeroPad(n, width)) == n
  {
    DecimalLength(n);
    ZeroPadValue(n, width);
  }

  lemma ZeroTimes(x: nat, p: nat)
    requires x == 0
    ensures x * p == 0
  {
  }

  /** The width of `{n:0Wd}`: exactly `width` characters while `n` has no more
      digits than that, and `str(n)` otherwise. */
  lemma ZeroPadLength(n: nat, width: nat)
    ensures |ZeroPad(n, width)| == if |Decimal(n)| < width then width else |Decimal(n)|
  {
  }

  /** The reading of a formatted field: `{n:0Wd}` followed by anything reads
      back, over its own characters, as `n`. */
  lemma ZeroPadReadsBack(n: nat, width: nat, rest: string)
    ensures var s := ZeroPad(n, width) + rest;
      |ZeroPad(n, width)| <= |s| && AllDigits(s[..|ZeroPad(n, width)|])
      && Value(s[..|ZeroPad(n, width)|]) == n
  {
    var s := ZeroPad(n, width) + rest;
    assert s[..|ZeroPad(n, width)|] == ZeroPad(n, width);
    ZeroPadValue(n, width);
  }

  // -------------------------------------------------------------- whitespace

  /** Python's `str.isspace()`, which is also what `\s` and `str.strip()` use. */
  predicate IsSpace(c: char) {
    ('\t' <= c <= '\r') || ('\U{1C}' <= c <= ' ') || c == '\U{85}' || c == '\U{A0}'
    || c == '\U{1680}' || ('\U{2000}' <= c <= '\U{200A}') || c == '\U{2028}' || c == '\U{2029}'
    || c == '\U{202F}' || c == '\U{205F}' || c == '\U{3000}'
  }

  predicate AllSpace(s: string) {
    forall i :: 0 <= i < |s| ==> IsSpace(s[i])
  }

  /** The number of consecutive whitespace characters of `s` starting at `i`. */
  function SpaceRun(s: string, i: nat): (n: nat)
    requires i <= |s|
    ensures i + n <= |s|
    ensures i + n == |s| || !IsSpace(s[i + n])
    decreases |s| - i
  {
    if i < |s| && IsSpace(s[i]) then 1 + SpaceRun(s, i + 1) else 0
  }

  /** Every character of the run passes the test. */
  lemma {:induction false} SpaceRunHolds(s: string, i: nat)
    requires i <= |s|
    ensures forall k :: i <= k < i + SpaceRun(s, i) ==> IsSpace(s[k])
    decreases |s| - i
  {
    if i < |s| && IsSpace(s[i]) {
      SpaceRunHolds(s, i + 1);
    }
  }

  /** The same, for a run whose end has been named. */
  lemma SpacesUpTo(s: string, i: nat, j: nat)
    requires i <= |s| && j == i + SpaceRun(s, i)
    ensures forall k :: i <= k < j ==> IsSpace(s[k])
  {
    SpaceRunHolds(s, i);
  }

  /** A run of whitespace reaching `k` is taken whole by `SpaceRun`. */
  lemma {:induction false} SpaceRunCovers(s: string, i: nat, k: nat)
    requires i <= k <= |s|
    requires forall m :: i <= m < k ==> IsSpace(s[m])
    ensures i + SpaceRun(s, i) >= k
    decreases k - i
  {
    if i < k {
      SpaceRunCovers(s, i + 1, k);
    }
  }

  /** A run of whitespace from `i` that stops at `k` is what `SpaceRun` takes. */
  lemma SpaceRunEndsAt(s: string, i: nat, k: nat)
    requires i <= k <= |s| && forall m :: i <= m < k ==> IsSpace(s[m])
    requires k == |s| || !IsSpace(s[k])
    ensures i + SpaceRun(s, i) == k
  {
    SpaceRunCovers(s, i, k);
    SpaceRunHolds(s, i);
  }

  /** `s.lstrip()`: the suffix left after the leading whitespace. */
  function TrimLeft(s: string): (r: string)
    ensures |r| <= |s| && r == s[|s| - |r|..]
    ensures r == [] || !IsSpace(r[0])
  {
    s[SpaceRun(s, 0)..]
  }

  /** What `lstrip()` cuts away is whitespace. */
  lemma TrimLeftCutsSpace(s: string)
    ensures AllSpace(s[..|s| - |TrimLeft(s)|])
  {
    var n := SpaceRun(s, 0);
    SpacesUpTo(s, 0, n);
    assert |s| - |TrimLeft(s)| == n;
    forall i | 0 <= i < n ensures IsSpace(s[..n][i]) {
      assert s[..n][i] == s[i];
    }
  }

  /** `lstrip()` of a text stops before its first non-space character, so
      it only looks at the text in front of one. */
  lemma TrimLeftBeforeNonSpace(s: string, k: nat)
    requires k < |s| && !IsSpace(s[k])
    ensures TrimLeft(s) == TrimLeft(s[..k]) + s[k..]
  {
    var p := s[..k];
    var n := SpaceRun(p, 0);
    SpacesUpTo(p, 0, n);
    RunOfPrefix(s, k, p, n);
    SpaceRunEndsAt(s, 0, n);
    SuffixThroughPrefix(s, k, p, n);
  }

  /** A run of whitespace at the start of a prefix is one of the whole text. */
  lemma RunOfPrefix(s: string, k: nat, p: string, n: nat)
    requires n <= k <= |s| && p == s[..k]
    requires forall m :: 0 <= m < n ==> IsSpace(p[m])
    requires n == k || !IsSpace(p[n])
    ensures forall m :: 0 <= m < n ==> IsSpace(s[m])
    ensures n < k ==> !IsSpace(s[n])
  {
    forall m | 0 <= m < n ensures IsSpace(s[m]) {
      assert s[m] == p[m];
    }
  }

  lemma SuffixThroughPrefix(s: string, k: nat, p: string, n: nat)
    requires n <= k <= |s| && p == s[..k]
    ensures s[n..] == p[n..] + s[k..]
  {
  }

  /** The number of consecutive whitespace characters of `s` ending just
      before `j`. */
  function SpaceRunBack(s: string, j: nat): (n: nat)
    requires j <= |s|
    ensures n <= j
    ensures n == j || !IsSpace(s[j - n - 1])
  {
    if j > 0 && IsSpace(s[j - 1]) then 1 + SpaceRunBack(s, j - 1) else 0
  }

  lemma {:induction false} SpaceRunBackHolds(s: string, j: nat)
    requires j <= |s|
    ensures forall k :: j - SpaceRunBack(s, j) <= k < j ==> IsSpace(s[k])
  {
    if j > 0 && IsSpace(s[j - 1]) {
      SpaceRunBackHolds(s, j - 1);
    }
  }

  /** A run of whitespace from `i` to `j` that starts the text or follows a
      non-space is what `SpaceRunBack` takes. */
  lemma {:induction false} SpaceRunBackEndsAt(s: string, i: nat, j: nat)
    requires i <= j <= |s| && forall k :: i <= k < j ==> IsSpace(s[k])
    requires i == 0 || !IsSpace(s[i - 1])
    ensures j - SpaceRunBack(s, j) == i
    decreases j
  {
    if i < j {
      SpaceRunBackEndsAt(s, i, j - 1);
    }
  }

  /** `s.rstrip()`: the prefix left before the trailing whitespace. */
  function TrimRight(s: string): (r: string)
    ensures |r| <= |s| && r == s[..|r|]
    ensures r == [] || !IsSpace(r[|r| - 1])
  {
    s[..|s| - SpaceRunBack(s, |s|)]
  }

  /** What `rstrip()` cuts away is whitespace. */
  lemma TrimRightCutsSpace(s: string)
    ensures AllSpace(s[|TrimRight(s)|..])
  {
    var m := |s| - SpaceRunBack(s, |s|);
    SpaceRunBackHolds(s, |s|);
    assert |TrimRight(s)| == m;
    forall i | 0 <= i < |s| - m ensures IsSpace(s[m..][i]) {
      assert s[m..][i] == s[m + i];
    }
  }

  /** `s.strip()`. */
  function Strip(s: string): (r: string)
  {
    TrimRight(TrimLeft(s))
  }

  /** What `strip()` leaves: a slice of the input with only whitespace cut
      away on either side, and no whitespace at either of its ends. */
  lemma StripIsTrimmedSlice(s: string)
    ensures var r := Strip(s);
      && (exists a, b :: 0 <= a <= b <= |s| && r == s[a..b] && AllSpace(s[..a]) && AllSpace(s[b..]))
      && (r == [] || (!IsSpace(r[0]) && !IsSpace(r[|r| - 1])))
  {
    var l := TrimLeft(s);
    var r := TrimRight(l);
    TrimLeftCutsSpace(s);
    TrimRightCutsSpace(l);
    TrimmedSlice(s, l, r);
  }

  /** Whitespace cut from the front of `s`, leaving `l`, and then from the
      back of `l`, leaving `r`, leaves a slice of `s`. */
  lemma TrimmedSlice(s: string, l: string, r: string)
    requires |l| <= |s| && l == s[|s| - |l|..] && AllSpace(s[..|s| - |l|]) && (l == [] || !IsSpace(l[0]))
    requires |r| <= |l| && r == l[..|r|] && AllSpace(l[|r|..]) && (r == [] || !IsSpace(r[|r| - 1]))
    ensures exists a, b :: 0 <= a <= b <= |s| && r == s[a..b] && AllSpace(s[..a]) && AllSpace(s[b..])
    ensures r == [] || (!IsSpace(r[0]) && !IsSpace(r[|r| - 1]))
  {
    var a := |s| - |l|;
    var b := a + |r|;
    SliceOfSuffix(s, l, r);
    assert AllSpace(s[..a]) && AllSpace(s[b..]);
    assert r == [] || r[0] == l[0];
  }

  /** A prefix `r` of a suffix `l` of `s` is a slice of `s`, and what
      follows it in `l` is what follows it in `s`. */
  lemma SliceOfSuffix(s: string, l: string, r: string)
    requires |l| <= |s| && l == s[|s| - |l|..] && |r| <= |l| && r == l[..|r|]
    ensures var a := |s| - |l|; r == s[a..a + |r|] && s[a + |r|..] == l[|r|..]
  {
  }

  /** `lstrip()` removes exactly a whitespace padding. */
  lemma TrimLeftPadded(pre: string, rest: string)
    requires AllSpace(pre) && (rest == [] || !IsSpace(rest[0]))
    ensures TrimLeft(pre + rest) == rest
  {
    var s := pre + rest;
    forall m | 0 <= m < |pre| ensures IsSpace(s[m]) {
      assert s[m] == pre[m];
    }
    if rest != [] {
      assert s[|pre|] == rest[0];
    }
    SpaceRunEndsAt(s, 0, |pre|);
    assert s[|pre|..] == rest;
  }

  /** `rstrip()` removes exactly a whitespace padding. */
  lemma TrimRightPadded(rest: string, post: string)
    requires AllSpace(post) && (rest == [] || !IsSpace(rest[|rest| - 1]))
    ensures TrimRight(rest + post) == rest
  {
    var s := rest + post;
    forall k | |rest| <= k < |s| ensures IsSpace(s[k]) {
      assert s[k] == post[k - |rest|];
    }
    if rest != [] {
      assert s[|rest| - 1] == rest[|rest| - 1];
    }
    SpaceRunBackEndsAt(s, |rest|, |s|);
    assert s[..|rest|] == rest;
  }

  /** `strip()` gives back a text padded with whitespace on both sides. */
  lemma StripPadded(pre: string, core: string, post: string)
    requires AllSpace(pre) && AllSpace(post)
    requires core == [] || (!IsSpace(core[0]) && !IsSpace(core[|core| - 1]))
    ensures Strip(pre + core + post) == core
  {
    if core == [] {
      assert pre + core + post == pre + post;
      assert AllSpace(pre + post);
      TrimLeftPadded(pre + post, "");
      assert pre + post + "" == pre + post;
    } else {
      assert pre + core + post == pre + (core + post);
      TrimLeftPadded(pre, core + post);
      TrimRightPadded(core, post);
    }
  }

  /** `strip()` leaves a text without whitespace at its ends as it is. */
  lemma StripKeepsUnpadded(s: string)
    requires s == [] || (!IsSpace(s[0]) && !IsSpace(s[|s| - 1]))
    ensures Strip(s) == s
  {
    TrimLeftPadded("", s);
    assert "" + s == s;
    TrimRightPadded(s, "");
    assert s + "" == s;
  }

  // ------------------------------------------------------------------- lines

  /** `s.split("\n")`: the text between line feeds, always at least one piece. */
  function Pieces(s: string): (p: seq<string>)
    ensures |p| >= 1
  {
    if s == [] then [""]
    else
      var rest := Pieces(s[1..]);
      if s[0] == '\n' then [""] + rest
      else [[s[0]] + rest[0]] + rest[1..]
  }

  /** No piece holds a line feed. */
  lemma {:induction false} PiecesHaveNoLineFeed(s: string)
    ensures forall k :: 0 <= k < |Pieces(s)| ==> '\n' !in Pieces(s)[k]
  {
    if s != [] {
      PiecesHaveNoLineFeed(s[1..]);
      PiecesCons(s[0], s[1..]);
      assert [s[0]] + s[1..] == s;
    }
  }

  /** `"\n".join(p)`. */
  function Join(p: seq<string>): string
  {
    if |p| == 0 then "" else if |p| == 1 then p[0] else p[0] + "\n" + Join(p[1..])
  }

  /** A join of two or more lines ends with a line feed and its last line. */
  lemma {:induction false} JoinEndsWithLast(p: seq<string>)
    requires |p| >= 2
    ensures var x := p[|p| - 1]; var j := Join(p);
      |x| < |j| && j[|j| - |x| - 1..] == "\n" + x
  {
    var x := p[|p| - 1];
    if |p| > 2 {
      JoinEndsWithLast(p[1..]);
      assert p[1..][|p| - 2] == x;
      var j := Join(p[1..]);
      var h := p[0] + "\n";
      assert Join(p) == h + j;
      assert (h + j)[|h + j| - |x| - 1..] == j[|j| - |x| - 1..];
    }
  }

  /** Joining the pieces with line feeds gives the text back. */
  lemma {:induction false} JoinPieces(s: string)
    ensures Join(Pieces(s)) == s
  {
    if s != [] {
      JoinPieces(s[1..]);
      var rest := Pieces(s[1..]);
      if s[0] != '\n' {
        var p := Pieces(s);
        assert p[1..] == rest[1..];
        if |rest| > 1 {
          assert Join(rest) == rest[0] + "\n" + Join(rest[1..]);
        }
      } else {
        assert Join([""] + rest) == "" + "\n" + Join(rest) by {
          assert ([""] + rest)[1..] == rest;
        }
      }
    }
  }

  /** One step of the split: the pieces of a text that starts with `c`. */
  lemma PiecesCons(c: char, t: string)
    ensures Pieces([c] + t) ==
      if c == '\n' then [""] + Pieces(t) else [[c] + Pieces(t)[0]] + Pieces(t)[1..]
  {
    assert ([c] + t)[1..] == t;
  }

  /** A line feed splits the pieces exactly there. */
  lemma {:induction false} PiecesConcat(a: string, b: string)
    ensures Pieces(a + "\n" + b) == Pieces(a) + Pieces(b)
    decreases |a|, 1
  {
    if a == [] {
      PiecesCons('\n', b);
      assert a + "\n" + b == ['\n'] + b;
    } else {
      PiecesConcatStep(a[0], a[1..], b);
      assert a + "\n" + b == [a[0]] + (a[1..] + "\n" + b);
      assert [a[0]] + a[1..] == a;
    }
  }

  lemma {:induction false} PiecesConcatStep(c: char, a: string, b: string)
    ensures Pieces([c] + (a + "\n" + b)) == Pieces([c] + a) + Pieces(b)
    decreases |a| + 1, 0
  {
    PiecesConcat(a, b);
    PiecesCons(c, a + "\n" + b);
    PiecesCons(c, a);
    if c != '\n' {
      ConsOntoFirst([c], Pieces(a), Pieces(b));
    } else {
      ConsInFront("", Pieces(a), Pieces(b));
    }
  }

  /** Prefixing the first of the concatenated pieces prefixes the first of
      the left-hand ones. */
  lemma ConsOntoFirst(x: string, pa: seq<string>, pb: seq<string>)
    requires |pa| >= 1
    ensures [x + (pa + pb)[0]] + (pa + pb)[1..] == ([x + pa[0]] + pa[1..]) + pb
  {
    assert (pa + pb)[0] == pa[0];
    assert (pa + pb)[1..] == pa[1..] + pb;
  }

  lemma ConsInFront(x: string, pa: seq<string>, pb: seq<string>)
    ensures [x] + (pa + pb) == ([x] + pa) + pb
  {
  }

  /** A text without line feeds is a single piece. */
  lemma {:induction false} PiecesOfLine(a: string)
    requires '\n' !in a
    ensures Pieces(a) == [a]
  {
    if a != [] {
      PiecesOfLine(a[1..]);
      assert [a[0]] + a[1..] == a;
    }
  }

  /** Splitting the join of line-feed-free lines gives the lines back. */
  lemma {:induction false} PiecesJoin(p: seq<string>)
    requires |p| >= 1
    requires forall k :: 0 <= k < |p| ==> '\n' !in p[k]
    ensures Pieces(Join(p)) == p
  {
    if |p| == 1 {
      PiecesOfLine(p[0]);
    } else {
      PiecesJoin(p[1..]);
      PiecesConcat(p[0], Join(p[1..]));
      PiecesOfLine(p[0]);
      assert [p[0]] + p[1..] == p;
    }
  }

  /** The lines of a join, the last one non-empty, split back apart. */
  lemma SplitLinesOfJoin(p: seq<string>)
    requires |p| >= 1 && p[|p| - 1] != ""
    requires forall k :: 0 <= k < |p| ==> '\n' !in p[k]
    ensures SplitLines(Join(p)) == p
  {
    PiecesJoin(p);
    SplitLinesOfPieces(Join(p), p);
  }

  /** Lines joined and then followed by a line feed and more text come
      back first when the whole is split. */
  lemma SplitLinesAfterJoin(p: seq<string>, after: string)
    requires |p| >= 1
    requires forall k :: 0 <= k < |p| ==> '\n' !in p[k]
    ensures SplitLines(Join(p) + "\n" + after) == p + SplitLines(after)
  {
    PiecesConcat(Join(p), after);
    PiecesJoin(p);
    SplitLinesBehind(Join(p) + "\n" + after, after, p);
  }

  /** A text whose pieces are `p` followed by the pieces of `after` splits
      into `p` followed by the lines of `after`. */
  lemma SplitLinesBehind(text: string, after: string, p: seq<string>)
    requires Pieces(text) == p + Pieces(after)
    ensures SplitLines(text) == p + SplitLines(after)
  {
    var q := Pieces(after);
    SplitLinesOfPieces(text, p + q);
    SplitLinesOfPieces(after, q);
    LastOfConcat(p, q);
  }

  lemma SplitLinesOfPieces(t: string, ps: seq<string>)
    requires Pieces(t) == ps
    ensures SplitLines(t) == if ps[|ps| - 1] == "" then ps[..|ps| - 1] else ps
  {
  }

  lemma LastOfConcat(p: seq<string>, q: seq<string>)
    requires |q| >= 1
    ensures (p + q)[|p + q| - 1] == q[|q| - 1]
    ensures (p + q)[..|p + q| - 1] == p + q[..|q| - 1]
  {
  }

  /** Two lines without line feeds, the second non-empty, split back apart. */
  lemma SplitTwoLines(a: string, b: string)
    requires '\n' !in a && '\n' !in b && b != ""
    ensures SplitLines(a + "\n" + b) == [a, b]
  {
    PiecesConcat(a, b);
    PiecesOfLine(a);
    PiecesOfLine(b);
  }

  /** `s.splitlines()` for text whose only line break is the line feed: the
      pieces between line feeds, without the empty piece after a final one. */
  function SplitLines(s: string): seq<string>
  {
    var p := Pieces(s);
    if p[|p| - 1] == "" then p[..|p| - 1] else p
  }

  /** A line ended by a line feed is the first piece. */
  lemma PiecesOfLineThen(line: string, after: string)
    requires '\n' !in line
    ensures Pieces(line + "\n" + after) == [line] + Pieces(after)
  {
    PiecesOfLine(line);
    PiecesConcat(line, after);
  }

  /** A text ending in a line feed ends in an empty piece. */
  lemma PiecesOfBrokenText(head: string)
    ensures Pieces(head + "\n") == Pieces(head) + [""]
  {
    PiecesConcat(head, "");
    assert head + "\n" + "" == head + "\n";
  }

  /** The pieces of a text with a line inserted after a line feed (or at the
      very start) and ended by one. */
  lemma PiecesAfterBreak(before: string, line: string, after: string)
    requires '\n' !in line
    requires before == "" || before[|before| - 1] == '\n'
    ensures Pieces(before + line + "\n" + after)
      == Pieces(before)[..|Pieces(before)| - 1] + [line] + Pieces(after)
  {
    if before == "" {
      assert before + line + "\n" + after == line + "\n" + after;
      PiecesOfLineThen(line, after);
    } else {
      var head := before[..|before| - 1];
      assert before == head + "\n";
      TextAfterBreak(head, line, after);
      PiecesAfterLine(head, line, after);
      PiecesOfBrokenText(head);
      DropLastEmpty(Pieces(head), [line] + Pieces(after));
    }
  }

  lemma TextAfterBreak(head: string, line: string, after: string)
    ensures (head + "\n") + line + "\n" + after == head + "\n" + (line + "\n" + after)
  {
  }

  lemma PiecesAfterLine(head: string, line: string, after: string)
    requires '\n' !in line
    ensures Pieces(head + "\n" + (line + "\n" + after)) == Pieces(head) + ([line] + Pieces(after))
  {
    PiecesOfLineThen(line, after);
    PiecesConcat(head, line + "\n" + after);
  }

  /** Dropping the empty piece a final line feed leaves. */
  lemma DropLastEmpty(p: seq<string>, q: seq<string>)
    ensures (p + [""])[..|p + [""]| - 1] + q == p + q
  {
    assert (p + [""])[..|p + [""]| - 1] == p;
  }

  /** A line written right after a line feed (or at the very start) and
      ended by one is the line numbered by the line feeds before it. */
  lemma LineAfterBreak(before: string, line: string, after: string)
    requires '\n' !in line
    requires before == "" || before[|before| - 1] == '\n'
    ensures var k := |Pieces(before)| - 1;
      k < |SplitLines(before + line + "\n" + after)|
      && SplitLines(before + line + "\n" + after)[k] == line
  {
    var text := before + line + "\n" + after;
    var p0 := Pieces(before)[..|Pieces(before)| - 1];
    PiecesAfterBreak(before, line, after);
    SplitLinesOfPieces(text, Pieces(text));
    MiddlePiece(p0, line, Pieces(after));
  }

  /** The piece between others stays where it is when the last is dropped. */
  lemma MiddlePiece(p0: seq<string>, line: string, q: seq<string>)
    requires |q| >= 1
    ensures var p := p0 + [line] + q;
      |p0| < |p| - 1 && p[|p0|] == line && p[..|p| - 1][|p0|] == line
  {
  }

  /** The number of blocks (paragraphs) of an editor holding `s`: one more
      than the number of line feeds, so an empty document has one block. */
  function BlockCount(s: string): (n: nat)
    ensures n >= 1
  {
    |Pieces(s)|
  }
}
