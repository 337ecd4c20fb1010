/** String primitives with Python's semantics: `str.isspace`, `str.strip`,
    `str.lower` (ASCII part), `str.split(sep)`, `sep.join(xs)`, `len(s.split())`
    and `str(n)` for integers. */
module Text {
  import opened Wrappers

  /** Python's `str.isspace()`; a `\s` in a `str` pattern matches exactly these. */
  predicate IsSpace(c: char) {
    || c == ' ' || c == '\t' || c == '\n' || c == '\r' || c == '\U{000B}' || c == '\U{000C}'
    || ('\U{001C}' <= c <= '\U{001F}') || c == '\U{0085}' || c == '\U{00A0}' || c == '\U{1680}'
    || ('\U{2000}' <= c <= '\U{200A}') || c == '\U{2028}' || c == '\U{2029}' || c == '\U{202F}'
    || c == '\U{205F}' || c == '\U{3000}'
  }

  predicate IsDigit(c: char) { '0' <= c <= '9' }

  predicate IsLetter(c: char) { 'a' <= c <= 'z' || 'A' <= c <= 'Z' }

  predicate IsBlank(s: string) {
    forall k :: 0 <= k < |s| ==> IsSpace(s[k])
  }

  function LowerChar(c: char): char {
    if 'A' <= c <= 'Z' then (c as int + 32) as char else c
  }

  /** `str.lower()` on the ASCII letters; every other character is kept. */
  function Lower(s: string): (r: string)
    ensures |r| == |s|
    ensures forall k :: 0 <= k < |s| ==> r[k] == LowerChar(s[k])
  {
    if |s| == 0 then [] else [LowerChar(s[0])] + Lower(s[1..])
  }

  function LowerAll(xs: seq<string>): (r: seq<string>)
    ensures |r| == |xs|
    ensures forall k :: 0 <= k < |xs| ==> r[k] == Lower(xs[k])
  {
    if |xs| == 0 then [] else [Lower(xs[0])] + LowerAll(xs[1..])
  }

  /** No whitespace at either end. */
  predicate IsStripped(s: string) {
    |s| == 0 || (!IsSpace(s[0]) && !IsSpace(s[|s| - 1]))
  }

  /** Blankness does not depend on a whitespace character at either end. */
  lemma BlankWithoutEnd(s: string)
    requires |s| > 0
    ensures IsSpace(s[0]) ==> (IsBlank(s) <==> IsBlank(s[1..]))
    ensures IsSpace(s[|s| - 1]) ==> (IsBlank(s) <==> IsBlank(s[..|s| - 1]))
  {
    assert forall k :: 0 <= k < |s| - 1 ==> s[1..][k] == s[k + 1];
    assert forall k :: 0 <= k < |s| - 1 ==> s[..|s| - 1][k] == s[k];
  }

  /** `str.strip()` with no argument: whitespace is dropped from both ends. */
  function Strip(s: string): (r: string)
    ensures |r| <= |s|
    ensures IsStripped(r)
    ensures r == "" <==> IsBlank(s)
    decreases |s|
  {
    if |s| > 0 && IsSpace(s[0]) then
      BlankWithoutEnd(s);
      Strip(s[1..])
    else if |s| > 0 && IsSpace(s[|s| - 1]) then
      BlankWithoutEnd(s);
      Strip(s[..|s| - 1])
    else
      s
  }

  /** `r` is `s` with the blank prefix `s[..i]` and the blank suffix `s[j..]` cut off. */
  predicate TrimsTo(s: string, r: string, i: nat, j: nat) {
    i <= j <= |s| && r == s[i..j] && IsBlank(s[..i]) && IsBlank(s[j..])
  }

  lemma TrimsToFront(s: string, r: string, i: nat, j: nat)
    requires |s| > 0 && IsSpace(s[0]) && TrimsTo(s[1..], r, i, j)
    ensures TrimsTo(s, r, i + 1, j + 1)
  {
    var t := s[1..];
    assert t[i..j] == s[i + 1..j + 1];
    assert t[j..] == s[j + 1..];
    var pre := s[..i + 1];
    forall k | 0 <= k < i + 1 ensures IsSpace(pre[k]) {
      if k > 0 {
        assert pre[k] == t[..i][k - 1];
      }
    }
  }

  lemma TrimsToBack(s: string, r: string, i: nat, j: nat)
    requires |s| > 0 && IsSpace(s[|s| - 1]) && TrimsTo(s[..|s| - 1], r, i, j)
    ensures TrimsTo(s, r, i, j)
  {
    var t := s[..|s| - 1];
    assert t[i..j] == s[i..j];
    assert t[..i] == s[..i];
    var post := s[j..];
    forall k | 0 <= k < |s| - j ensures IsSpace(post[k]) {
      if j + k < |t| {
        assert post[k] == t[j..][k];
      }
    }
  }

  /** The strip is the input with a blank prefix and a blank suffix cut off. */
  lemma {:induction false} StripTrims(s: string)
    ensures exists i: nat, j: nat :: TrimsTo(s, Strip(s), i, j)
    decreases |s|
  {
    if |s| > 0 && IsSpace(s[0]) {
      StripTrims(s[1..]);
      var i: nat, j: nat :| TrimsTo(s[1..], Strip(s[1..]), i, j);
      TrimsToFront(s, Strip(s[1..]), i, j);
      assert Strip(s) == Strip(s[1..]);
      assert TrimsTo(s, Strip(s), i + 1, j + 1);
    } else if |s| > 0 && IsSpace(s[|s| - 1]) {
      StripTrims(s[..|s| - 1]);
      var i: nat, j: nat :| TrimsTo(s[..|s| - 1], Strip(s[..|s| - 1]), i, j);
      TrimsToBack(s, Strip(s[..|s| - 1]), i, j);
      assert Strip(s) == Strip(s[..|s| - 1]);
      assert TrimsTo(s, Strip(s), i, j);
    } else {
      assert s[0..|s|] == s;
      assert TrimsTo(s, Strip(s), 0, |s|);
    }
  }

  /** Stripping only removes characters. */
  lemma {:induction false} StripSubset(s: string, c: char)
    requires c in Strip(s)
    ensures c in s
    decreases |s|
  {
    if |s| > 0 && IsSpace(s[0]) {
      StripSubset(s[1..], c);
    } else if |s| > 0 && IsSpace(s[|s| - 1]) {
      StripSubset(s[..|s| - 1], c);
    }
  }

  /** A string with no surrounding whitespace is its own strip. */
  lemma StripUnpadded(s: string)
    requires IsStripped(s)
    ensures Strip(s) == s
  {
  }

  lemma StripIdempotent(s: string)
    ensures Strip(Strip(s)) == Strip(s)
  {
    StripUnpadded(Strip(s));
  }

  /** Whitespace in front of a string does not survive the strip. */
  lemma {:induction false} StripBlankPrefix(pad: string, y: string)
    requires IsBlank(pad)
    ensures Strip(pad + y) == Strip(y)
  {
    if |pad| > 0 {
      assert (pad + y)[1..] == pad[1..] + y;
      StripBlankPrefix(pad[1..], y);
    } else {
      assert pad + y == y;
    }
  }

  /** The non-blank entries of `xs`, stripped, in order: `[x.strip() for x in xs if x.strip()]`. */
  function NonBlankStripped(xs: seq<string>): (r: seq<string>)
    ensures |r| <= |xs|
    ensures forall y :: y in r ==> y != "" && IsStripped(y)
  {
    if |xs| == 0 then []
    else
      (if Strip(xs[0]) != "" then [Strip(xs[0])] else []) + NonBlankStripped(xs[1..])
  }

  /** Every entry is non-empty and stripped (recursive, so that it unfolds only where asked). */
  predicate AllStripped(xs: seq<string>) {
    |xs| == 0 || (xs[0] != "" && IsStripped(xs[0]) && AllStripped(xs[1..]))
  }

  lemma {:induction false} AllStrippedOf(ys: seq<string>)
    requires forall t :: t in ys ==> t != "" && IsStripped(t)
    ensures AllStripped(ys)
  {
    if |ys| > 0 {
      assert ys[0] in ys;
      assert forall t :: t in ys[1..] ==> t in ys;
      AllStrippedOf(ys[1..]);
    }
  }

  /** A list of stripped non-empty strings is its own filtered form. */
  lemma {:induction false} NonBlankStrippedKeeps(xs: seq<string>)
    requires AllStripped(xs)
    ensures NonBlankStripped(xs) == xs
  {
    if |xs| > 0 {
      NonBlankStrippedKeeps(xs[1..]);
      StripUnpadded(xs[0]);
      ConsSplit(xs);
    }
  }

  /** A character that does not occur as a one-character substring is not in the string. */
  lemma NoOccurrenceCharFree(p: string, c: char)
    requires !Occurs(p, [c])
    ensures c !in p
  {
    forall k | 0 <= k < |p| ensures p[k] != c {
      assert p[k..k + 1] == [p[k]];
      assert !OccursAt(p, [c], k);
    }
  }

  /** A character absent from every entry is absent from every filtered entry. */
  lemma {:induction false} NonBlankStrippedAvoids(xs: seq<string>, c: char)
    requires forall k :: 0 <= k < |xs| ==> c !in xs[k]
    ensures forall t :: t in NonBlankStripped(xs) ==> c !in t
  {
    if |xs| > 0 {
      NonBlankStrippedAvoids(xs[1..], c);
      if c in Strip(xs[0]) {
        StripSubset(xs[0], c);
      }
      assert NonBlankStripped(xs) == (if Strip(xs[0]) != "" then [Strip(xs[0])] else []) + NonBlankStripped(xs[1..]);
    }
  }

  lemma SeqAssoc<T>(a: seq<T>, b: seq<T>, d: seq<T>)
    ensures (a + b) + d == a + (b + d)
  {
  }

  lemma SliceSplit<T>(s: seq<T>, i: nat, j: nat)
    requires i <= j <= |s|
    ensures s[i..] == s[i..j] + s[j..]
  {
  }

  lemma SliceCons<T>(s: seq<T>, i: nat)
    requires i < |s|
    ensures s[i..] == [s[i]] + s[i + 1..]
  {
  }

  lemma TakeAll<T>(s: seq<T>)
    ensures s[..|s|] == s
  {
  }

  lemma TakeTake<T>(s: seq<T>, m: nat, n: nat)
    requires n <= m <= |s|
    ensures s[..m][..n] == s[..n]
  {
  }

  /** `a` is `b` with some of its elements deleted. */
  predicate IsSubsequence<T(==)>(a: seq<T>, b: seq<T>)
    decreases |b|
  {
    a == [] || (b != [] && ((a[0] == b[0] && IsSubsequence(a[1..], b[1..])) || IsSubsequence(a, b[1..])))
  }

  lemma {:induction false} SubsequenceRefl<T>(a: seq<T>)
    ensures IsSubsequence(a, a)
  {
    if a != [] {
      SubsequenceRefl(a[1..]);
    }
  }

  /** Deleting a whole prefix keeps a subsequence one. */
  lemma {:induction false} SubsequenceSkip<T>(a: seq<T>, x: seq<T>, b: seq<T>)
    requires IsSubsequence(a, b)
    ensures IsSubsequence(a, x + b)
    decreases |x|
  {
    if x != [] {
      assert (x + b)[1..] == x[1..] + b;
      SubsequenceSkip(a, x[1..], b);
      assert IsSubsequence(a, (x + b)[1..]);
    } else {
      assert x + b == b;
    }
  }

  lemma {:induction false} SubsequenceTrans<T>(a: seq<T>, b: seq<T>, c: seq<T>)
    requires IsSubsequence(a, b) && IsSubsequence(b, c)
    ensures IsSubsequence(a, c)
    decreases |c|
  {
    if a != [] {
      if b[0] == c[0] && IsSubsequence(b[1..], c[1..]) {
        if a[0] == b[0] && IsSubsequence(a[1..], b[1..]) {
          SubsequenceTrans(a[1..], b[1..], c[1..]);
        } else {
          SubsequenceTrans(a, b[1..], c[1..]);
        }
      } else {
        SubsequenceTrans(a, b, c[1..]);
      }
    }
  }

  lemma ConsSplit<T>(xs: seq<T>)
    requires |xs| > 0
    ensures [xs[0]] + xs[1..] == xs
  {
  }

  /** The entries of `xs` that are not blank, unchanged: `[x for x in xs if x.strip()]`. */
  function NonBlank(xs: seq<string>): (r: seq<string>)
    ensures |r| <= |xs|
    ensures forall y :: y in r ==> y in xs && !IsBlank(y)
  {
    if |xs| == 0 then []
    else (if !IsBlank(xs[0]) then [xs[0]] else []) + NonBlank(xs[1..])
  }

  // ---------------------------------------------------------------------------
  // Substring search, split and join

  predicate OccursAt(s: string, t: string, k: nat) {
    k + |t| <= |s| && s[k..k + |t|] == t
  }

  /** Python's `t in s`. */
  ghost predicate Occurs(s: string, t: string) {
    exists k: nat :: OccursAt(s, t, k)
  }

  /** The leftmost occurrence of `t` in `s` at or after `i` (`s.find(t, i)`). */
  function IndexFrom(s: string, t: string, i: nat): (r: Option<nat>)
    requires i <= |s|
    ensures r.Some? ==> i <= r.value && OccursAt(s, t, r.value)
    ensures forall k: nat :: i <= k && (r.None? || k < r.value) ==> !OccursAt(s, t, k)
    decreases |s| - i
  {
    if i + |t| > |s| then None
    else if s[i..i + |t|] == t then Some(i)
    else IndexFrom(s, t, i + 1)
  }

  function Contains(s: string, t: string): (r: bool)
    ensures r <==> Occurs(s, t)
  {
    var f := IndexFrom(s, t, 0);
    if f.Some? then assert OccursAt(s, t, f.value); true else false
  }

  lemma OccursInLonger(x: string, y: string, t: string)
    requires Occurs(x, t)
    ensures Occurs(x + y, t)
  {
    var k: nat :| OccursAt(x, t, k);
    assert (x + y)[k..k + |t|] == x[k..k + |t|];
    assert OccursAt(x + y, t, k);
  }

  lemma OccursAfter(x: string, y: string, t: string)
    requires Occurs(y, t)
    ensures Occurs(x + y, t)
  {
    var k: nat :| OccursAt(y, t, k);
    assert (x + y)[|x| + k..|x| + k + |t|] == y[k..k + |t|];
    assert OccursAt(x + y, t, |x| + k);
  }

  /** `sep.join(xs)`. */
  function Join(xs: seq<string>, sep: string): string {
    if |xs| == 0 then "" else if |xs| == 1 then xs[0] else xs[0] + sep + Join(xs[1..], sep)
  }

  /** A join starts with the first character of its first entry. */
  lemma JoinHead(xs: seq<string>, sep: string)
    requires xs != [] && xs[0] != ""
    ensures Join(xs, sep) != [] && Join(xs, sep)[0] == xs[0][0]
  {
    if |xs| > 1 {
      assert Join(xs, sep) == xs[0] + (sep + Join(xs[1..], sep));
    }
  }

  /** Every entry of a join occurs in it. */
  lemma {:induction false} JoinHoldsEntries(xs: seq<string>, sep: string)
    ensures forall k :: 0 <= k < |xs| ==> Occurs(Join(xs, sep), xs[k])
  {
    if |xs| >= 1 {
      var x := xs[0];
      assert OccursAt(x, x, 0) by {
        assert x[0..|x|] == x;
      }
      if |xs| == 1 {
        assert Occurs(Join(xs, sep), xs[0]);
      } else {
        var rest := Join(xs[1..], sep);
        JoinHoldsEntries(xs[1..], sep);
        assert Join(xs, sep) == x + (sep + rest);
        OccursInLonger(x, sep + rest, x);
        forall k | 1 <= k < |xs| ensures Occurs(Join(xs, sep), xs[k]) {
          assert xs[k] == xs[1..][k - 1];
          OccursAfter(x + sep, rest, xs[k]);
          assert x + sep + rest == x + (sep + rest);
        }
      }
    }
  }

  /** `s.split(sep)` for a non-empty separator: cut at every leftmost occurrence. */
  function SplitOn(s: string, sep: string): (r: seq<string>)
    requires |sep| > 0
    ensures |r| >= 1
    ensures Join(r, sep) == s
    ensures forall p :: p in r ==> !Occurs(p, sep)
    decreases |s|
  {
    match IndexFrom(s, sep, 0)
    case None =>
      assert !Occurs(s, sep);
      [s]
    case Some(k) =>
      var rest := SplitOn(s[k + |sep|..], sep);
      var piece := s[..k];
      assert !Occurs(piece, sep) by {
        forall j: nat | OccursAt(piece, sep, j) ensures false {
          assert s[j..j + |sep|] == piece[j..j + |sep|];
          assert OccursAt(s, sep, j);
        }
      }
      assert ([piece] + rest)[1..] == rest;
      assert s == piece + sep + s[k + |sep|..];
      [piece] + rest
  }

  /** Joining `x` and anything behind it with `sep` cannot create an earlier
      occurrence of `sep` than the one just written. */
  ghost predicate SplitsCleanly(x: string, sep: string)
    requires |sep| > 0
  {
    !Occurs(x + sep[..|sep| - 1], sep)
  }

  lemma SplitCons(x: string, rest: string, sep: string)
    requires |sep| > 0 && SplitsCleanly(x, sep)
    ensures SplitOn(x + sep + rest, sep) == [x] + SplitOn(rest, sep)
  {
    var s := x + sep + rest;
    assert s[|x|..|x| + |sep|] == sep;
    assert OccursAt(s, sep, |x|);
    forall k: nat | k < |x| ensures !OccursAt(s, sep, k) {
      if OccursAt(s, sep, k) {
        var u := x + sep[..|sep| - 1];
        assert u[k..k + |sep|] == s[k..k + |sep|];
        assert OccursAt(u, sep, k);
      }
    }
    assert IndexFrom(s, sep, 0) == Some(|x|);
    assert s[..|x|] == x;
    assert s[|x| + |sep|..] == rest;
  }

  /** Splitting a join recovers the pieces when none of them can be confused with the separator. */
  lemma {:induction false} SplitJoinRoundTrip(xs: seq<string>, sep: string)
    requires |sep| > 0 && |xs| >= 1
    requires forall x :: x in xs ==> SplitsCleanly(x, sep)
    ensures SplitOn(Join(xs, sep), sep) == xs
  {
    if |xs| == 1 {
      assert xs[0] in xs;
      assert SplitsCleanly(xs[0], sep);
      if Occurs(xs[0], sep) {
        OccursInLonger(xs[0], sep[..|sep| - 1], sep);
        assert false;
      }
      assert IndexFrom(xs[0], sep, 0).None?;
    } else {
      SplitCons(xs[0], Join(xs[1..], sep), sep);
      SplitJoinRoundTrip(xs[1..], sep);
    }
  }

  /** A piece without the (one-character) separator cannot be confused with it. */
  lemma CharFreeSplitsCleanly(x: string, c: char)
    requires c !in x
    ensures SplitsCleanly(x, [c])
  {
    assert x + [c][..0] == x;
    forall k: nat ensures !OccursAt(x, [c], k) {
      if k + 1 <= |x| {
        assert x[k] in x;
        assert x[k..k + 1] == [x[k]];
      }
    }
  }

  lemma CommaFreeSplitsCleanly(x: string)
    requires ',' !in x
    ensures SplitsCleanly(x, ",")
  {
    CharFreeSplitsCleanly(x, ',');
  }

  lemma CommaSpaceFreeSplitsCleanly(x: string)
    requires !Occurs(x, ", ")
    ensures SplitsCleanly(x, ", ")
  {
    var u := x + ",";
    assert ", "[..1] == ",";
    forall k: nat ensures !OccursAt(u, ", ", k) {
      if k + 2 <= |x| {
        assert x[k..k + 2] == u[k..k + 2];
        assert !OccursAt(x, ", ", k);
      } else if k + 2 == |u| {
        assert u[k + 1] == ',';
        assert u[k..k + 2][1] == u[k + 1];
      }
    }
  }

  /** A join is empty exactly when there is nothing to join, provided no piece is empty. */
  lemma JoinEmptyIff(xs: seq<string>, sep: string)
    requires forall x :: x in xs ==> x != ""
    ensures Join(xs, sep) == "" <==> xs == []
  {
    if |xs| == 1 {
      assert xs[0] in xs;
    } else if |xs| > 1 {
      assert xs[0] in xs;
      assert |Join(xs, sep)| >= |xs[0]|;
    }
  }

  // ---------------------------------------------------------------------------
  // Whitespace-separated words

  /** `len(s.split())`: the number of maximal runs of non-whitespace characters,
      counted at the position where each run starts. */
  function WordCount(s: string): nat {
    if |s| == 0 then 0
    else
      var last := |s| - 1;
      WordCount(s[..last]) + (if !IsSpace(s[last]) && (last == 0 || IsSpace(s[last - 1])) then 1 else 0)
  }

  /** A word: non-empty, with no whitespace in it. */
  predicate IsWord(w: string) {
    w != "" && forall k :: 0 <= k < |w| ==> !IsSpace(w[k])
  }

  /** Words are not counted across a whitespace boundary. */
  lemma {:induction false} WordCountAppend(a: string, b: string)
    requires a == "" || b == "" || IsSpace(a[|a| - 1]) || IsSpace(b[0])
    ensures WordCount(a + b) == WordCount(a) + WordCount(b)
    decreases |b|
  {
    if b == "" {
      assert a + b == a;
    } else {
      var n := |b| - 1;
      var ab := a + b;
      var last := |ab| - 1;
      assert ab[..last] == a + b[..n];
      assert ab[last] == b[n];
      var startsB := !IsSpace(b[n]) && (n == 0 || IsSpace(b[n - 1]));
      assert WordCount(b) == WordCount(b[..n]) + (if startsB then 1 else 0);
      if n > 0 {
        assert ab[last - 1] == b[n - 1];
        assert b[..n][0] == b[0];
      }
      assert WordCount(ab) == WordCount(ab[..last]) + (if startsB then 1 else 0);
      WordCountAppend(a, b[..n]);
    }
  }

  lemma {:induction false} WordCountWord(w: string)
    requires IsWord(w)
    ensures WordCount(w) == 1
  {
    var n := |w| - 1;
    if n > 0 {
      assert IsWord(w[..n]) by {
        assert forall k :: 0 <= k < n ==> w[..n][k] == w[k];
      }
      WordCountWord(w[..n]);
    }
  }

  /** `len(" ".join(ws).split()) == len(ws)` for words. */
  lemma {:induction false} WordCountJoin(ws: seq<string>)
    requires forall w :: w in ws ==> IsWord(w)
    ensures WordCount(Join(ws, " ")) == |ws|
  {
    if |ws| == 1 {
      assert ws[0] in ws;
      WordCountWord(ws[0]);
    } else if |ws| > 1 {
      var rest := Join(ws[1..], " ");
      assert ws[0] in ws;
      assert forall w :: w in ws[1..] ==> w in ws;
      WordCountWord(ws[0]);
      WordCountJoin(ws[1..]);
      assert Join(ws, " ") == ws[0] + (" " + rest);
      WordCountAppend(" ", rest);
      assert WordCount(" ") == 0 by {
        assert " "[..0] == "";
      }
      WordCountAppend(ws[0], " " + rest);
    }
  }

  // ---------------------------------------------------------------------------
  // Decimal rendering of integers (`str(n)`, f-string interpolation)

  function DigitChar(d: nat): char
    requires d < 10
  {
    ('0' as int + d) as char
  }

  function NatToDecimal(n: nat): (r: string)
    ensures |r| >= 1
    ensures forall k :: 0 <= k < |r| ==> IsDigit(r[k])
    ensures n > 0 ==> r[0] != '0'
  {
    if n < 10 then [DigitChar(n)] else NatToDecimal(n / 10) + [DigitChar(n % 10)]
  }

  function IntToDecimal(n: int): string {
    if n < 0 then "-" + NatToDecimal(-n) else NatToDecimal(n)
  }

  /** The value of a string of decimal digits. */
  function DecimalValue(s: string): nat
    requires forall k :: 0 <= k < |s| ==> IsDigit(s[k])
  {
    if |s| == 0 then 0
    else
      assert IsDigit(s[|s| - 1]);
      DecimalValue(s[..|s| - 1]) * 10 + (s[|s| - 1] as int - '0' as int)
  }

  /** Rendering a number in decimal and reading it back gives the number. */
  lemma {:induction false} DecimalRoundTrip(n: nat)
    ensures DecimalValue(NatToDecimal(n)) == n
  {
    if n >= 10 {
      var r := NatToDecimal(n);
      assert r[..|r| - 1] == NatToDecimal(n / 10);
      DecimalRoundTrip(n / 10);
    }
  }
}
