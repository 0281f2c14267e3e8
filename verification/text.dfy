/**
 The Python string operations the service relies on, over `seq<char>`:
 whitespace splitting and stripping, `" ".join`, ASCII lower-casing,
 substring search and the decimal rendering of integers.
 */
module Text {
  import opened Wrappers

  /** The characters for which Python's `str.isspace()` holds; `str.split()` and
      `str.strip()` with no argument use exactly this set. */
  predicate IsSpace(c: char) {
    || ('\t' <= c <= '\r')
    || ('\U{1C}' <= c <= '\U{1F}')
    || c == ' '
    || c == '\U{85}'
    || c == '\U{A0}'
    || c == '\U{1680}'
    || ('\U{2000}' <= c <= '\U{200A}')
    || c == '\U{2028}'
    || c == '\U{2029}'
    || c == '\U{202F}'
    || c == '\U{205F}'
    || c == '\U{3000}'
  }

  predicate NoSpace(w: string) {
    forall i :: 0 <= i < |w| ==> !IsSpace(w[i])
  }

  /** An element of a `str.split()` result: non-empty and free of whitespace. */
  predicate IsWord(w: string) {
    |w| > 0 && NoSpace(w)
  }

  predicate AllWords(ws: seq<string>) {
    forall i :: 0 <= i < |ws| ==> IsWord(ws[i])
  }

  // ---------------------------------------------------------------------------
  // Stripping and splitting on whitespace

  /** `s.lstrip()` */
  function TrimLeft(s: string): (r: string)
    ensures |r| <= |s|
    ensures forall i :: 0 <= i < |s| - |r| ==> IsSpace(s[i])
    ensures |r| == 0 || !IsSpace(r[0])
  {
    if |s| > 0 && IsSpace(s[0]) then TrimLeft(s[1..]) else s
  }

  /** `s.rstrip()` */
  function TrimRight(s: string): (r: string)
    ensures |r| <= |s|
    ensures forall i :: |r| <= i < |s| ==> IsSpace(s[i])
    ensures |r| == 0 || !IsSpace(r[|r| - 1])
  {
    if |s| > 0 && IsSpace(s[|s| - 1]) then TrimRight(s[..|s| - 1]) else s
  }

  /** What `lstrip` removes is a prefix: the result is the rest of `s`. */
  lemma TrimLeftSuffix(s: string)
    ensures TrimLeft(s) == s[|s| - |TrimLeft(s)|..]
  {
    if |s| > 0 && IsSpace(s[0]) {
      TrimLeftSuffix(s[1..]);
    }
  }

  /** What `rstrip` removes is a suffix: the result is the beginning of `s`. */
  lemma TrimRightPrefix(s: string)
    ensures TrimRight(s) == s[..|TrimRight(s)|]
  {
    if |s| > 0 && IsSpace(s[|s| - 1]) {
      TrimRightPrefix(s[..|s| - 1]);
    }
  }

  /** `r` is the slice of `s` that starts at index `a`. */
  predicate SliceAt(r: string, s: string, a: int) {
    0 <= a && a + |r| <= |s| && r == s[a..a + |r|]
  }

  lemma TrimBothEnds(s: string, l: string, r: string)
    requires |l| <= |s| && l == s[|s| - |l|..] && (|l| == 0 || !IsSpace(l[0]))
    requires |r| <= |l| && r == l[..|r|] && (|r| == 0 || !IsSpace(r[|r| - 1]))
    ensures SliceAt(r, s, |s| - |l|)
    ensures |r| == 0 || (!IsSpace(r[0]) && !IsSpace(r[|r| - 1]))
  {
    var a := |s| - |l|;
    assert r == s[a..a + |r|];
    if |r| > 0 {
      assert r[0] == l[0];
    }
  }

  /** `s.strip()`: neither starts nor ends with whitespace. */
  function Strip(s: string): (r: string)
    ensures |r| <= |s|
    ensures |r| == 0 || (!IsSpace(r[0]) && !IsSpace(r[|r| - 1]))
  {
    var l := TrimLeft(s);
    var r := TrimRight(l);
    TrimLeftSuffix(s);
    TrimRightPrefix(l);
    TrimBothEnds(s, l, r);
    r
  }

  /** `s.strip()` is a slice of `s`: whitespace is only removed from the ends. */
  lemma StripSlice(s: string)
    ensures SliceAt(Strip(s), s, |s| - |TrimLeft(s)|)
  {
    var l := TrimLeft(s);
    var r := TrimRight(l);
    assert Strip(s) == r;
    TrimLeftSuffix(s);
    TrimRightPrefix(l);
    TrimBothEnds(s, l, r);
  }

  /** What `s.strip()` removes is whitespace: everything before the slice `StripSlice`
      names and everything after it. With `Strip`'s contract (the slice neither starts
      nor ends with whitespace), the slice is the one `strip()` returns. */
  lemma StripRemovesSpace(s: string)
    ensures forall i :: 0 <= i < |s| - |TrimLeft(s)| ==> IsSpace(s[i])
    ensures forall i :: |s| - |TrimLeft(s)| + |Strip(s)| <= i < |s| ==> IsSpace(s[i])
  {
    var l := TrimLeft(s);
    var r := TrimRight(l);
    var a := |s| - |l|;
    assert Strip(s) == r;
    TrimLeftSuffix(s);
    forall i | a + |r| <= i < |s|
      ensures IsSpace(s[i])
    {
      assert s[i] == l[i - a];
    }
  }

  /** The longest whitespace-free prefix of `s`. */
  function LeadingWord(s: string): (w: string)
    ensures |w| <= |s|
    ensures NoSpace(w)
    ensures |w| == |s| || IsSpace(s[|w|])
    ensures |s| > 0 && !IsSpace(s[0]) ==> |w| > 0
  {
    if |s| == 0 || IsSpace(s[0]) then "" else [s[0]] + LeadingWord(s[1..])
  }

  /** The leading word is a prefix of `s`. */
  lemma LeadingWordPrefix(s: string)
    ensures LeadingWord(s) == s[..|LeadingWord(s)|]
  {
    if |s| > 0 && !IsSpace(s[0]) {
      LeadingWordPrefix(s[1..]);
    }
  }

  lemma AllWordsCons(w: string, ws: seq<string>)
    requires IsWord(w) && AllWords(ws)
    ensures AllWords([w] + ws)
  {
    forall i | 0 <= i < |[w] + ws| ensures IsWord(([w] + ws)[i]) {
      if i > 0 {
        assert ([w] + ws)[i] == ws[i - 1];
      }
    }
  }

  /** `s.split()`: the maximal whitespace-free runs of `s`, in order. */
  function Split(s: string): (ws: seq<string>)
    ensures AllWords(ws)
    decreases |s|
  {
    var t := TrimLeft(s);
    if |t| == 0 then []
    else
      var w := LeadingWord(t);
      var rest := Split(t[|w|..]);
      AllWordsCons(w, rest);
      [w] + rest
  }

  /** `s.split()` is empty exactly when `s` is all whitespace. */
  lemma SplitEmpty(s: string)
    ensures |Split(s)| == 0 <==> forall i :: 0 <= i < |s| ==> IsSpace(s[i])
  {
    var t := TrimLeft(s);
    if |t| > 0 {
      TrimLeftSuffix(s);
      assert s[|s| - |t|] == t[0];
    }
  }

  /** `" ".join(ws)` */
  function JoinSpace(ws: seq<string>): string {
    if |ws| == 0 then ""
    else if |ws| == 1 then ws[0]
    else ws[0] + " " + JoinSpace(ws[1..])
  }

  lemma LeadingWordOf(w: string, rest: string)
    requires NoSpace(w)
    requires |rest| == 0 || IsSpace(rest[0])
    ensures LeadingWord(w + rest) == w
  {
    var s := w + rest;
    var v := LeadingWord(s);
    LeadingWordPrefix(s);
    assert forall k :: 0 <= k < |w| ==> s[k] == w[k];
    assert v == s[..|w|] == w;
  }

  lemma SplitSpacePrefix(s: string)
    ensures Split(" " + s) == Split(s)
  {
    assert (" " + s)[1..] == s;
    assert TrimLeft(" " + s) == TrimLeft(s);
  }

  /** A single word splits to itself. */
  lemma SplitWord(w: string)
    requires IsWord(w)
    ensures Split(w) == [w]
  {
    assert TrimLeft(w) == w;
    LeadingWordOf(w, "");
    assert w + "" == w;
    assert w[|w|..] == "";
    assert Split("") == [];
  }

  /** A word followed by a space splits off as the first element. */
  lemma SplitWordThen(w: string, rest: string)
    requires IsWord(w)
    ensures Split(w + " " + rest) == [w] + Split(rest)
  {
    var s := w + " " + rest;
    assert s == w + (" " + rest);
    assert s[0] == w[0];
    assert TrimLeft(s) == s;
    LeadingWordOf(w, " " + rest);
    assert s[|w|..] == " " + rest;
    SplitSpacePrefix(rest);
  }

  lemma SplitJoinStep(ws: seq<string>)
    requires |ws| > 1 && AllWords(ws)
    requires Split(JoinSpace(ws[1..])) == ws[1..]
    ensures Split(JoinSpace(ws)) == ws
  {
    var r := JoinSpace(ws[1..]);
    assert IsWord(ws[0]);
    SplitWordThen(ws[0], r);
    assert JoinSpace(ws) == ws[0] + " " + r;
    assert [ws[0]] + ws[1..] == ws;
  }

  /** Splitting a space-joined list of words gives the words back. */
  lemma {:induction false} SplitJoin(ws: seq<string>)
    requires AllWords(ws)
    ensures Split(JoinSpace(ws)) == ws
  {
    if |ws| == 0 {
    } else if |ws| == 1 {
      assert IsWord(ws[0]);
      SplitWord(ws[0]);
    } else {
      assert AllWords(ws[1..]) by {
        forall i | 0 <= i < |ws| - 1 ensures IsWord(ws[1..][i]) {
          assert ws[1..][i] == ws[i + 1];
        }
      }
      SplitJoin(ws[1..]);
      SplitJoinStep(ws);
    }
  }

  /** Any run of a list of words is a list of words, and joining it loses nothing. */
  lemma SliceSplitJoin(ws: seq<string>, a: int, b: int)
    requires AllWords(ws) && 0 <= a <= b <= |ws|
    ensures AllWords(ws[a..b])
    ensures Split(JoinSpace(ws[a..b])) == ws[a..b]
  {
    var words := ws[a..b];
    forall i | 0 <= i < |words| ensures IsWord(words[i]) {
      assert words[i] == ws[a + i];
    }
    SplitJoin(words);
  }

  /** A space-joined list of words neither starts nor ends with whitespace. */
  lemma {:induction false} JoinEnds(ws: seq<string>)
    requires AllWords(ws) && |ws| > 0
    ensures |JoinSpace(ws)| > 0
    ensures !IsSpace(JoinSpace(ws)[0])
    ensures !IsSpace(JoinSpace(ws)[|JoinSpace(ws)| - 1])
  {
    assert IsWord(ws[0]);
    if |ws| > 1 {
      JoinEnds(ws[1..]);
      var rest := JoinSpace(ws[1..]);
      var s := JoinSpace(ws);
      assert s == ws[0] + " " + rest;
      assert s[|s| - 1] == rest[|rest| - 1];
    }
  }

  /** Stripping a space-joined list of words changes nothing. */
  lemma StripJoin(ws: seq<string>)
    requires AllWords(ws)
    ensures Strip(JoinSpace(ws)) == JoinSpace(ws)
  {
    if |ws| > 0 {
      JoinEnds(ws);
    }
  }

  lemma {:induction false} TrimLeftAppend(s: string, x: string)
    requires |TrimLeft(s)| > 0
    ensures TrimLeft(s + x) == TrimLeft(s) + x
    decreases |s|
  {
    if IsSpace(s[0]) {
      assert (s + x)[1..] == s[1..] + x;
      TrimLeftAppend(s[1..], x);
    }
  }

  /** The first word of a string that is not all whitespace, and what follows it. */
  lemma SplitFirstWord(s: string) returns (w: string, rest: string)
    requires |TrimLeft(s)| > 0
    ensures w == LeadingWord(TrimLeft(s)) && rest == TrimLeft(s)[|w|..]
    ensures TrimLeft(s) == w + rest
    ensures Split(s) == [w] + Split(rest)
  {
    var t := TrimLeft(s);
    w := LeadingWord(t);
    LeadingWordPrefix(t);
    rest := t[|w|..];
    assert t == w + rest;
  }

  /** Trailing whitespace adds no word. */
  lemma {:induction false} SplitTrailingSpace(s: string, sp: string)
    requires forall i :: 0 <= i < |sp| ==> IsSpace(sp[i])
    ensures Split(s + sp) == Split(s)
    decreases |s|
  {
    if |TrimLeft(s)| == 0 {
      SplitEmpty(s);
      SplitEmpty(s + sp);
    } else {
      var w, rest := SplitFirstWord(s);
      TrimLeftAppend(s, sp);
      assert TrimLeft(s + sp) == w + (rest + sp);
      LeadingWordOf(w, rest + sp);
      var w', rest' := SplitFirstWord(s + sp);
      assert rest' == rest + sp;
      SplitTrailingSpace(rest, sp);
    }
  }

  /** `s.strip().split()` is `s.split()`. */
  lemma SplitStrip(s: string)
    ensures Split(Strip(s)) == Split(s)
  {
    var l := TrimLeft(s);
    var r := TrimRight(l);
    TrimRightPrefix(l);
    assert l == r + l[|r|..];
    SplitTrailingSpace(r, l[|r|..]);
    assert TrimLeft(l) == l;
  }

  // ---------------------------------------------------------------------------
  // Lower-casing

  /** `str.lower()` on one character, restricted to ASCII letters. */
  function LowerChar(c: char): char {
    if 'A' <= c <= 'Z' then (c as int + 32) as char else c
  }

  /** `s.lower()`, restricted to ASCII letters. */
  function Lower(s: string): (r: string)
    ensures |r| == |s|
  {
    seq(|s|, i requires 0 <= i < |s| => LowerChar(s[i]))
  }

  // ---------------------------------------------------------------------------
  // Substring search

  /** `n` occurs in `h` starting at index `i`. */
  predicate OccursAt(h: string, n: string, i: int) {
    0 <= i && i + |n| <= |h| && h[i..i + |n|] == n
  }

  /** Python's `n in h`. */
  predicate Contains(h: string, n: string) {
    exists i | 0 <= i <= |h| - |n| :: OccursAt(h, n, i)
  }

  /** `i` is the last index at which `n` occurs in `h`. */
  ghost predicate IsLastOccurrence(h: string, n: string, i: int) {
    OccursAt(h, n, i) && forall j :: i < j ==> !OccursAt(h, n, j)
  }

  lemma EmptyOccursEverywhere(h: string)
    ensures Contains(h, "")
  {
    assert OccursAt(h, "", 0);
  }

  function FirstFrom(h: string, n: string, i: nat): (r: Option<nat>)
    requires forall j :: 0 <= j < i ==> !OccursAt(h, n, j)
    ensures r.Some? ==> OccursAt(h, n, r.value)
    ensures r.Some? ==> forall j :: 0 <= j < r.value ==> !OccursAt(h, n, j)
    ensures r.None? ==> forall j :: !OccursAt(h, n, j)
    decreases |h| - i
  {
    if i + |n| > |h| then None
    else if OccursAt(h, n, i) then Some(i)
    else FirstFrom(h, n, i + 1)
  }

  /** `h.find(n)`: the first index at which `n` occurs, if any. */
  function FirstIndexOf(h: string, n: string): (r: Option<nat>)
    ensures r.Some? ==> OccursAt(h, n, r.value)
    ensures r.Some? ==> forall j :: 0 <= j < r.value ==> !OccursAt(h, n, j)
    ensures r.None? <==> !Contains(h, n)
  {
    FirstFrom(h, n, 0)
  }

  function LastFrom(h: string, n: string, i: nat): (r: Option<nat>)
    requires i + |n| <= |h|
    requires forall j :: i < j ==> !OccursAt(h, n, j)
    ensures r.Some? ==> IsLastOccurrence(h, n, r.value)
    ensures r.None? ==> forall j :: !OccursAt(h, n, j)
    decreases i
  {
    if OccursAt(h, n, i) then Some(i)
    else if i == 0 then None
    else LastFrom(h, n, i - 1)
  }

  /** `h.rfind(n)`: the last index at which `n` occurs, if any. */
  function LastIndexOf(h: string, n: string): (r: Option<nat>)
    ensures r.Some? ==> IsLastOccurrence(h, n, r.value)
    ensures r.None? <==> !Contains(h, n)
  {
    if |n| > |h| then None else LastFrom(h, n, |h| - |n|)
  }

  /** `h.split(sep)[-1]`: Python scans for `sep` left to right, cutting after each match,
      and this is the piece after the final cut. */
  function LastSplitPiece(h: string, sep: string): string
    requires |sep| > 0
    decreases |h|
  {
    match FirstIndexOf(h, sep)
    case None => h
    case Some(i) => LastSplitPiece(h[i + |sep|..], sep)
  }

  /** The last character of `sep` occurs nowhere else in it, so two occurrences of
      `sep` can never overlap. */
  predicate LastCharUnique(sep: string) {
    |sep| > 0 && forall k :: 0 <= k < |sep| - 1 ==> sep[k] != sep[|sep| - 1]
  }

  lemma OccursInSuffix(h: string, n: string, d: nat, t: int)
    requires d <= |h| && 0 <= t
    ensures OccursAt(h[d..], n, t) <==> OccursAt(h, n, d + t)
  {
    if 0 <= t && t + |n| <= |h| - d {
      assert h[d..][t..t + |n|] == h[d + t..d + t + |n|];
    }
  }

  lemma NoOverlap(h: string, sep: string, i: int, j: int)
    requires LastCharUnique(sep)
    requires OccursAt(h, sep, i) && OccursAt(h, sep, j) && i < j
    ensures i + |sep| <= j
  {
    var p := i + |sep| - 1;
    assert h[p] == h[i..i + |sep|][|sep| - 1] == sep[|sep| - 1];
    assert forall q :: j <= q < j + |sep| ==> h[q] == h[j..j + |sep|][q - j];
  }

  /** Nothing after the last occurrence of `n` contains `n`. */
  lemma NoneAfterLast(h: string, n: string, k: int)
    requires |n| > 0 && IsLastOccurrence(h, n, k)
    ensures !Contains(h[k + |n|..], n)
  {
    var rest := h[k + |n|..];
    forall t | 0 <= t <= |rest| - |n|
      ensures !OccursAt(rest, n, t)
    {
      OccursInSuffix(h, n, k + |n|, t);
    }
  }

  /** Dropping a prefix that ends before the last occurrence keeps it the last one. */
  lemma LastInSuffix(h: string, n: string, d: int, k: int)
    requires 0 <= d <= k
    requires IsLastOccurrence(h, n, k)
    ensures IsLastOccurrence(h[d..], n, k - d)
  {
    OccursInSuffix(h, n, d, k - d);
    forall t | k - d < t
      ensures !OccursAt(h[d..], n, t)
    {
      OccursInSuffix(h, n, d, t);
    }
  }

  /** One step of the left-to-right scan. */
  lemma LastSplitPieceStep(h: string, sep: string, i: nat)
    requires |sep| > 0 && FirstIndexOf(h, sep) == Some(i)
    ensures LastSplitPiece(h, sep) == LastSplitPiece(h[i + |sep|..], sep)
  {
  }

  /** Without an occurrence, `split` returns the whole string as its only piece. */
  lemma LastSplitPieceNone(h: string, sep: string)
    requires |sep| > 0 && !Contains(h, sep)
    ensures LastSplitPiece(h, sep) == h
  {
  }

  /** When the first occurrence is the last one, the piece after it is the last piece. */
  lemma LastSplitPieceAtLast(h: string, sep: string, k: int)
    requires |sep| > 0 && IsLastOccurrence(h, sep, k)
    requires FirstIndexOf(h, sep) == Some(k)
    ensures LastSplitPiece(h, sep) == h[k + |sep|..]
  {
    LastSplitPieceStep(h, sep, k);
    NoneAfterLast(h, sep, k);
    LastSplitPieceNone(h[k + |sep|..], sep);
  }

  /** When an earlier occurrence comes first, the scan cuts after it and the last
      occurrence stays the last one of what remains. */
  lemma LastSplitPieceShift(h: string, sep: string, k: int) returns (d: int)
    requires LastCharUnique(sep) && IsLastOccurrence(h, sep, k)
    requires FirstIndexOf(h, sep) != Some(k)
    ensures 0 < d <= k
    ensures LastSplitPiece(h, sep) == LastSplitPiece(h[d..], sep)
    ensures IsLastOccurrence(h[d..], sep, k - d)
    ensures h[d..][k - d + |sep|..] == h[k + |sep|..]
  {
    assert Contains(h, sep) by { assert OccursAt(h, sep, k); }
    var i := FirstIndexOf(h, sep).value;
    assert i < k by { assert OccursAt(h, sep, k); }
    LastSplitPieceStep(h, sep, i);
    NoOverlap(h, sep, i, k);
    d := i + |sep|;
    LastInSuffix(h, sep, d, k);
  }

  /** For a separator whose occurrences cannot overlap, the last piece of Python's
      left-to-right `split` is exactly the text after the last occurrence. */
  lemma {:induction false} LastSplitPieceAfterLast(h: string, sep: string, k: int)
    requires LastCharUnique(sep)
    requires IsLastOccurrence(h, sep, k)
    ensures LastSplitPiece(h, sep) == h[k + |sep|..]
    decreases |h|
  {
    if FirstIndexOf(h, sep) == Some(k) {
      LastSplitPieceAtLast(h, sep, k);
    } else {
      var d := LastSplitPieceShift(h, sep, k);
      LastSplitPieceAfterLast(h[d..], sep, k - d);
    }
  }

  // ---------------------------------------------------------------------------
  // Decimal rendering of integers (`str(n)` / f-string formatting)

  predicate IsDigit(c: char) {
    '0' <= c <= '9'
  }

  predicate IsDigits(s: string) {
    forall i :: 0 <= i < |s| ==> IsDigit(s[i])
  }

  function DigitChar(d: nat): (c: char)
    requires d < 10
    ensures IsDigit(c)
  {
    ('0' as int + d) as char
  }

  /** `str(n)` for a non-negative integer. */
  function NatToString(n: nat): (s: string)
    ensures |s| > 0 && IsDigits(s)
    decreases n
  {
    if n < 10 then [DigitChar(n)] else NatToString(n / 10) + [DigitChar(n % 10)]
  }

  /** `str(i)` for any integer. */
  function IntToString(i: int): (s: string)
    ensures |s| > 0
    ensures forall k :: 0 <= k < |s| ==> IsDigit(s[k]) || s[k] == '-'
  {
    if i < 0 then "-" + NatToString(-i) else NatToString(i)
  }

  /** The number a string of decimal digits denotes (Python's `int(s)`). */
  function DigitsValue(s: string): nat
    requires IsDigits(s)
  {
    if |s| == 0 then 0
    else DigitsValue(s[..|s| - 1]) * 10 + (s[|s| - 1] as int - '0' as int)
  }

  /** Reading back the decimal rendering of `n` gives `n`. */
  lemma {:induction false} DigitsRoundTrip(n: nat)
    ensures DigitsValue(NatToString(n)) == n
    decreases n
  {
    var s := NatToString(n);
    if n >= 10 {
      DigitsRoundTrip(n / 10);
      assert s[..|s| - 1] == NatToString(n / 10);
    }
  }

  lemma NatToStringInjective(a: nat, b: nat)
    requires NatToString(a) == NatToString(b)
    ensures a == b
  {
    DigitsRoundTrip(a);
    DigitsRoundTrip(b);
  }

  lemma IntToStringInjective(a: int, b: int)
    requires IntToString(a) == IntToString(b)
    ensures a == b
  {
    var s := IntToString(a);
    assert (s[0] == '-') == (a < 0) by {
      if a >= 0 { assert IsDigit(NatToString(a)[0]); }
    }
    assert (IntToString(b)[0] == '-') == (b < 0) by {
      if b >= 0 { assert IsDigit(NatToString(b)[0]); }
    }
    if a < 0 && b < 0 {
      assert NatToString(-a) == s[1..] == NatToString(-b);
      NatToStringInjective(-a, -b);
    } else if a >= 0 && b >= 0 {
      NatToStringInjective(a, b);
    }
  }

  /** Equal strings with a common prefix have equal remainders. */
  lemma PrefixCancel(p: string, a: string, b: string)
    requires p + a == p + b
    ensures a == b
  {
    assert a == (p + a)[|p|..];
    assert b == (p + b)[|p|..];
  }
}
