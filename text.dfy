/** The parts of Python's `str` the scraper relies on: whitespace as
    `str.isspace()` sees it, `str.strip()`, `str.split()` without arguments,
    splitting on one separator character, and ASCII decimal digits. */
module Text {

  /** `str.isspace()`: the characters that `str.strip()`, `str.split()` and the
      regular-expression class `\s` treat as whitespace. */
  predicate IsSpace(c: char)
  {
    || c == ' '
    || '\t' <= c <= '\r'
    || '\U{1C}' <= c <= '\U{1F}'
    || c == '\U{85}' || c == '\U{A0}' || c == '\U{1680}'
    || '\U{2000}' <= c <= '\U{200A}'
    || c == '\U{2028}' || c == '\U{2029}' || c == '\U{202F}' || c == '\U{205F}'
    || c == '\U{3000}'
  }

  predicate AllSpace(s: string)
  {
    forall k :: 0 <= k < |s| ==> IsSpace(s[k])
  }

  predicate NoSpace(s: string)
  {
    forall k :: 0 <= k < |s| ==> !IsSpace(s[k])
  }

  // ---------------------------------------------------------------------
  // Digits

  predicate IsDigit(c: char)
  {
    '0' <= c <= '9'
  }

  predicate AllDigits(s: string)
  {
    forall k :: 0 <= k < |s| ==> IsDigit(s[k])
  }

  function DigitValue(c: char): (v: nat)
    requires IsDigit(c)
    ensures v < 10
  {
    c as int - '0' as int
  }

  function Digit(v: nat): (c: char)
    requires v < 10
    ensures IsDigit(c) && DigitValue(c) == v
  {
    (v + '0' as int) as char
  }

  /** The value of a string of decimal digits, most significant first. */
  function NumberOf(s: string): nat
    requires AllDigits(s)
  {
    if s == [] then 0 else NumberOf(s[..|s| - 1]) * 10 + DigitValue(s[|s| - 1])
  }

  /** A number below 100 as two digits, zero-padded (`%02d`). */
  function Pad2(n: nat): (s: string)
    requires n < 100
    ensures |s| == 2 && AllDigits(s) && NumberOf(s) == n
  {
    var s := [Digit(n / 10), Digit(n % 10)];
    assert NumberOf(s[..1]) == n / 10 by { assert s[..1][..0] == []; }
    s
  }

  /** A number below 10000 as four digits, zero-padded (`%04d`). */
  function Pad4(n: nat): (s: string)
    requires n < 10000
    ensures |s| == 4 && AllDigits(s) && NumberOf(s) == n
  {
    NumberOfAppend2(Pad2(n / 100), Pad2(n % 100));
    Pad2(n / 100) + Pad2(n % 100)
  }

  /** Appending two digits multiplies the value by a hundred and adds theirs. */
  lemma NumberOfAppend2(x: string, y: string)
    requires AllDigits(x) && AllDigits(y) && |y| == 2
    ensures AllDigits(x + y) && NumberOf(x + y) == NumberOf(x) * 100 + NumberOf(y)
  {
    var z := x + y;
    assert z[..|z| - 1] == x + [y[0]];
    assert (x + [y[0]])[..|x|] == x;
    assert y[..1][..0] == [];
    assert NumberOf(y[..1]) == DigitValue(y[0]);
  }

  lemma DigitOfValue(c: char)
    requires IsDigit(c)
    ensures Digit(DigitValue(c)) == c
  {
  }

  /** Two digits are the zero-padded form of their value. */
  lemma TwoDigits(t: string)
    requires |t| == 2 && AllDigits(t)
    ensures NumberOf(t) < 100 && t == Pad2(NumberOf(t))
  {
    var x, y := DigitValue(t[0]), DigitValue(t[1]);
    assert NumberOf(t[..1]) == x by { assert t[..1][..0] == []; }
    var n := NumberOf(t);
    assert n == x * 10 + y;
    assert n / 10 == x && n % 10 == y;
    DigitOfValue(t[0]);
    DigitOfValue(t[1]);
    assert Pad2(n)[0] == t[0] && Pad2(n)[1] == t[1];
  }

  /** Four digits are the zero-padded form of their value. */
  lemma FourDigits(t: string)
    requires |t| == 4 && AllDigits(t)
    ensures NumberOf(t) < 10000 && t == Pad4(NumberOf(t))
  {
    var hi, lo := t[..2], t[2..];
    assert t == hi + lo;
    TwoDigits(hi);
    TwoDigits(lo);
    NumberOfAppend2(hi, lo);
    var n := NumberOf(t);
    assert n / 100 == NumberOf(hi) && n % 100 == NumberOf(lo);
  }

  // ---------------------------------------------------------------------
  // str.strip()

  /** The first position at or after `i` that does not hold whitespace, or
      the end of the text. */
  function SkipSpace(s: string, i: nat): (n: nat)
    requires i <= |s|
    ensures i <= n <= |s|
    ensures forall k :: i <= k < n ==> IsSpace(s[k])
    ensures n == |s| || !IsSpace(s[n])
    decreases |s| - i
  {
    if i < |s| && IsSpace(s[i]) then SkipSpace(s, i + 1) else i
  }

  /** The position just after the last character of `s[lo..j]` that is not
      whitespace, or `lo` when there is none. */
  function SkipSpaceBack(s: string, lo: nat, j: nat): (n: nat)
    requires lo <= j <= |s|
    ensures lo <= n <= j
    ensures forall k :: n <= k < j ==> IsSpace(s[k])
    ensures n == lo || !IsSpace(s[n - 1])
  {
    if j > lo && IsSpace(s[j - 1]) then SkipSpaceBack(s, lo, j - 1) else j
  }

  /** `str.lstrip()`: drops the leading whitespace. */
  function TrimStart(s: string): (r: string)
    ensures |r| <= |s| && r == s[|s| - |r|..]
    ensures AllSpace(s[..|s| - |r|])
    ensures r == [] || !IsSpace(r[0])
  {
    var n := SkipSpace(s, 0);
    assert forall k :: 0 <= k < n ==> s[..n][k] == s[k];
    s[n..]
  }

  /** `str.rstrip()`: drops the trailing whitespace. */
  function TrimEnd(s: string): (r: string)
    ensures |r| <= |s| && r == s[..|r|]
    ensures AllSpace(s[|r|..])
    ensures r == [] || !IsSpace(r[|r| - 1])
  {
    var n := SkipSpaceBack(s, 0, |s|);
    assert forall k :: 0 <= k < |s| - n ==> s[n..][k] == s[n + k];
    s[..n]
  }

  /** `r` is `s[i..j]` and only whitespace lies outside it. */
  predicate StrippedAt(s: string, r: string, i: int, j: int)
  {
    0 <= i <= j <= |s| && r == s[i..j] && AllSpace(s[..i]) && AllSpace(s[j..])
  }

  /** `str.strip()`: the text between the leading and the trailing whitespace.
      What is removed is whitespace only, and what is kept neither starts nor
      ends with whitespace. */
  function Trim(s: string): (r: string)
    ensures exists i, j {:trigger StrippedAt(s, r, i, j)} :: StrippedAt(s, r, i, j)
    ensures r == [] || (!IsSpace(r[0]) && !IsSpace(r[|r| - 1]))
  {
    var i := SkipSpace(s, 0);
    var j := SkipSpaceBack(s, i, |s|);
    assert forall k :: 0 <= k < i ==> s[..i][k] == s[k];
    assert forall k :: 0 <= k < |s| - j ==> s[j..][k] == s[j + k];
    assert StrippedAt(s, s[i..j], i, j);
    s[i..j]
  }

  /** Stripping both ends at once is `s.lstrip().rstrip()`. */
  lemma TrimIsBothTrims(s: string)
    ensures Trim(s) == TrimEnd(TrimStart(s))
  {
    var i := SkipSpace(s, 0);
    var t := s[i..];
    var j := SkipSpaceBack(s, i, |s|);
    BackFromShifted(s, i, |s|);
  }

  /** Searching back in `s[i..]` is searching back in `s` down to `i`. */
  lemma {:induction false} BackFromShifted(s: string, i: nat, j: nat)
    requires i <= j <= |s|
    ensures SkipSpaceBack(s[i..], 0, j - i) + i == SkipSpaceBack(s, i, j)
    decreases j
  {
    if j > i {
      assert s[i..][j - i - 1] == s[j - 1];
      BackFromShifted(s, i, j - 1);
    }
  }

  // ---------------------------------------------------------------------
  // str.split() without arguments

  /** The longest suffix of `s` free of whitespace. */
  function TakeLastWord(s: string): (w: string)
    ensures |w| <= |s| && w == s[|s| - |w|..] && NoSpace(w)
    ensures |w| < |s| ==> IsSpace(s[|s| - |w| - 1])
  {
    if s == [] || IsSpace(s[|s| - 1]) then [] else TakeLastWord(s[..|s| - 1]) + [s[|s| - 1]]
  }

  /** `str.split()`: the maximal runs of non-whitespace characters, in order,
      taken here from the end of the text. */
  function Words(s: string): (words: seq<string>)
    ensures forall k :: 0 <= k < |words| ==> words[k] != [] && NoSpace(words[k])
    decreases |s|
  {
    var t := TrimEnd(s);
    if t == [] then []
    else
      var w := TakeLastWord(t);
      Words(t[..|t| - |w|]) + [w]
  }

  /** `str.split()` finds no word exactly when the text is blank. */
  lemma WordsEmptyIff(s: string)
    ensures Words(s) == [] <==> AllSpace(s)
  {
    var t := TrimEnd(s);
    if t != [] {
      assert s[|t| - 1] == t[|t| - 1];
    } else {
      assert s[0..] == s;
    }
  }

  /** `w` occurs in `s` at `i`, followed only by whitespace and preceded by
      whitespace or the start of the text. */
  predicate FinalRunAt(s: string, w: string, i: int)
  {
    0 <= i && i + |w| <= |s| && s[i..i + |w|] == w
    && AllSpace(s[i + |w|..]) && (i == 0 || IsSpace(s[i - 1]))
  }

  /** The last word of `str.split()` is the final run of non-whitespace
      characters of the text, and it is not empty. */
  lemma LastWordIsFinalRun(s: string)
    requires Words(s) != []
    ensures Words(s)[|Words(s)| - 1] != []
    ensures exists i {:trigger FinalRunAt(s, Words(s)[|Words(s)| - 1], i)} :: FinalRunAt(s, Words(s)[|Words(s)| - 1], i)
  {
    var t := TrimEnd(s);
    var w := TakeLastWord(t);
    LastWordOf(s);
    FinalRunOfTrimmedEnd(s, t, w);
  }

  /** The last word is the last run of the text without its trailing
      whitespace. */
  lemma LastWordOf(s: string)
    requires Words(s) != []
    ensures TrimEnd(s) != [] && Words(s)[|Words(s)| - 1] == TakeLastWord(TrimEnd(s))
  {
  }

  /** A whitespace-free suffix of `s` without its trailing whitespace, preceded
      by whitespace or the start, is a final run of `s`. */
  lemma FinalRunOfTrimmedEnd(s: string, t: string, w: string)
    requires |t| <= |s| && t == s[..|t|] && AllSpace(s[|t|..])
    requires |w| <= |t| && w == t[|t| - |w|..]
    requires |w| < |t| ==> IsSpace(t[|t| - |w| - 1])
    ensures FinalRunAt(s, w, |t| - |w|)
  {
    var i := |t| - |w|;
    forall k | 0 <= k < |w| ensures s[i..i + |w|][k] == w[k] {
      assert t[i + k] == s[i + k];
    }
    assert s[i..i + |w|] == w;
    if i > 0 {
      assert s[i - 1] == t[i - 1];
    }
  }

  /** A text is blank exactly when its stripped form is. */
  lemma TrimBlank(s: string)
    ensures AllSpace(Trim(s)) <==> AllSpace(s)
  {
    var r := Trim(s);
    var i, j :| StrippedAt(s, r, i, j);
    if AllSpace(r) {
      forall k | 0 <= k < |s| ensures IsSpace(s[k]) {
        if k < i {
          assert s[..i][k] == s[k];
        } else {
          // A blank stripped text is empty, so `i == j`.
          assert k >= j;
          assert s[j..][k - j] == s[k];
        }
      }
    } else {
      var k :| 0 <= k < |r| && !IsSpace(r[k]);
      assert s[i + k] == r[k];
    }
  }

  /** The last word of the stripped text is the final run of the text. */
  lemma LastWordOfTrimmed(s: string)
    requires Words(Trim(s)) != []
    ensures var ws := Words(Trim(s));
            exists i {:trigger FinalRunAt(s, ws[|ws| - 1], i)} :: FinalRunAt(s, ws[|ws| - 1], i)
  {
    var r := Trim(s);
    var i, j :| StrippedAt(s, r, i, j);
    LastWordIsFinalRun(r);
    var ws := Words(r);
    var w := ws[|ws| - 1];
    var p :| FinalRunAt(r, w, p);
    FinalRunWithin(s, i, j, w, p);
  }

  /** A final run of `s[i..j]`, between whitespace margins, is one of `s`. */
  lemma FinalRunWithin(s: string, i: int, j: int, w: string, p: int)
    requires 0 <= i <= j <= |s| && AllSpace(s[..i]) && AllSpace(s[j..])
    requires FinalRunAt(s[i..j], w, p)
    ensures FinalRunAt(s, w, i + p)
  {
    var r := s[i..j];
    forall t | 0 <= t < |w| ensures s[i + p..i + p + |w|][t] == w[t] {
      assert r[p..p + |w|][t] == r[p + t] == s[i + p + t];
    }
    assert s[i + p..i + p + |w|] == w;
    forall k | i + p + |w| <= k < |s| ensures IsSpace(s[k]) {
      if k < j {
        assert r[k - i] == s[k];
        assert r[p + |w|..][k - i - p - |w|] == r[k - i];
        assert IsSpace(r[p + |w|..][k - i - p - |w|]);
      }
      else { assert s[j..][k - j] == s[k]; }
    }
    if i + p > 0 {
      if p > 0 { assert s[i + p - 1] == r[p - 1]; }
      else { assert s[..i][i - 1] == s[i - 1]; }
    }
  }

  // ---------------------------------------------------------------------
  // Splitting on one separator character, and joining back

  /** `s.split(sep)` for a one-character separator: the pieces between the
      separators, always at least one, none holding the separator. */
  function SplitOn(s: string, sep: char): (parts: seq<string>)
    ensures |parts| >= 1
    ensures forall k :: 0 <= k < |parts| ==> sep !in parts[k]
  {
    if s == [] then [""]
    else
      var rest := SplitOn(s[1..], sep);
      if s[0] == sep then [""] + rest
      else [[s[0]] + rest[0]] + rest[1..]
  }

  /** `sep.join(parts)`. */
  function Join(parts: seq<string>, sep: char): string
    requires |parts| >= 1
  {
    if |parts| == 1 then parts[0] else parts[0] + [sep] + Join(parts[1..], sep)
  }

  lemma Join3(a: string, b: string, c: string, sep: char)
    ensures Join([a, b, c], sep) == a + [sep] + b + [sep] + c
  {
    assert [a, b, c][1..] == [b, c];
    assert [b, c][1..] == [c];
    assert Join([c], sep) == c;
    assert Join([b, c], sep) == b + [sep] + c;
  }

  /** Joining the pieces of a split gives back the text. */
  lemma {:induction false} JoinSplitOn(s: string, sep: char)
    ensures Join(SplitOn(s, sep), sep) == s
  {
    if s != [] {
      var rest := SplitOn(s[1..], sep);
      JoinSplitOn(s[1..], sep);
      if s[0] != sep {
        if |rest| == 1 {
          assert SplitOn(s, sep) == [[s[0]] + rest[0]];
        } else {
          assert SplitOn(s, sep)[1..] == rest[1..];
          assert Join(rest, sep) == rest[0] + [sep] + Join(rest[1..], sep);
        }
      } else {
        assert SplitOn(s, sep) == [""] + rest;
        assert (SplitOn(s, sep))[1..] == rest;
      }
    }
  }

  /** A piece free of the separator, followed by the separator, splits off as
      the first piece. */
  lemma {:induction false} SplitOnAfterPiece(a: string, sep: char, b: string)
    requires sep !in a
    ensures SplitOn(a + [sep] + b, sep) == [a] + SplitOn(b, sep)
  {
    if a != [] {
      SplitOnAfterPiece(a[1..], sep, b);
      assert (a + [sep] + b)[1..] == a[1..] + [sep] + b;
      assert a[0] != sep by { assert a[0] in a; }
      assert [a[0]] + a[1..] == a;
    } else {
      assert (a + [sep] + b)[1..] == b;
    }
  }

  /** A text free of the separator is one piece. */
  lemma {:induction false} SplitOnNoSeparator(a: string, sep: char)
    requires sep !in a
    ensures SplitOn(a, sep) == [a]
  {
    if a != [] {
      SplitOnNoSeparator(a[1..], sep);
      assert [a[0]] + a[1..] == a;
    }
  }

  /** Splitting undoes joining pieces that do not contain the separator. */
  lemma {:induction false} SplitOnJoin(parts: seq<string>, sep: char)
    requires |parts| >= 1
    requires forall k :: 0 <= k < |parts| ==> sep !in parts[k]
    ensures SplitOn(Join(parts, sep), sep) == parts
  {
    if |parts| == 1 {
      SplitOnNoSeparator(parts[0], sep);
    } else {
      SplitOnJoin(parts[1..], sep);
      SplitOnAfterPiece(parts[0], sep, Join(parts[1..], sep));
    }
  }

  /** A text that contains the separator splits into at least two pieces. */
  lemma SplitOnSeveral(s: string, sep: char)
    requires sep in s
    ensures |SplitOn(s, sep)| >= 2
  {
    JoinSplitOn(s, sep);
  }
}
