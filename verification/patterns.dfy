/** The three search patterns of the classifier (classify.py:60, :65, :69), as
    hand-written engines that reproduce what Python's backtracking `re` module
    finds at a given start position, and the left-to-right scan that
    `re.findall` and `re.sub` share.

    Phone `(\+?\d{1,3}[-.\s]?)?\(?\d{3}\)?[-.\s]?\d{3}[-.\s]?\d{4}`: every
    optional element after the group is followed by an element that cannot
    match the optional character, so the tail has exactly one way to match;
    the only backtracking is the country-code digit count (3, 2, then 1) and,
    last, leaving the group out.
    Email `[a-zA-Z0-9._%+-]+@[a-zA-Z0-9.-]+\.[a-zA-Z]{2,}` and website
    `(https?://)?([a-zA-Z0-9.-]+\.[a-zA-Z]{2,})`: the greedy domain run gives
    characters back until it stands on the last dot that two letters follow. */
module Patterns {
  import opened Wrappers
  import opened Text

  datatype CharClass = Digits | Letters | LocalPart | DomainPart

  predicate InClass(cls: CharClass, c: char) {
    match cls
    case Digits => IsDigit(c)
    case Letters => IsLetter(c)
    case LocalPart => IsLetter(c) || IsDigit(c) || c == '.' || c == '_' || c == '%' || c == '+' || c == '-'
    case DomainPart => IsLetter(c) || IsDigit(c) || c == '.' || c == '-'
  }

  /** `[-.\s]` */
  predicate IsSeparator(c: char) {
    c == '-' || c == '.' || IsSpace(c)
  }

  predicate AllIn(s: string, lo: nat, hi: nat, cls: CharClass) {
    hi <= |s| && forall k :: lo <= k < hi ==> InClass(cls, s[k])
  }

  lemma AllInSlice(s: string, from: nat, to: nat, lo: nat, hi: nat, cls: CharClass)
    requires from <= lo <= hi <= to <= |s| && AllIn(s, lo, hi, cls)
    ensures AllIn(s[from..to], lo - from, hi - from, cls)
  {
    forall k | lo - from <= k < hi - from ensures InClass(cls, s[from..to][k]) {
      assert s[from..to][k] == s[from + k];
    }
  }

  /** End of the longest run of `cls` characters from `i`: a greedy `[...]+` before it backs off. */
  function RunEnd(s: string, i: nat, cls: CharClass): (e: nat)
    requires i <= |s|
    ensures i <= e <= |s| && AllIn(s, i, e, cls)
    ensures e < |s| ==> !InClass(cls, s[e])
    decreases |s| - i
  {
    if i < |s| && InClass(cls, s[i]) then RunEnd(s, i + 1, cls) else i
  }

  predicate StartsAt(s: string, i: nat, prefix: string) {
    OccursAt(s, prefix, i)
  }

  // ---------------------------------------------------------------------------
  // Shapes: the strings each capture group can hold

  /** `\+?\d{1,3}[-.\s]?`: an optional plus, one to three digits, an optional separator. */
  predicate IsCountryCode(c: string) {
    var body := if |c| > 0 && c[0] == '+' then c[1..] else c;
    var digits := if |body| > 0 && IsSeparator(body[|body| - 1]) then body[..|body| - 1] else body;
    1 <= |digits| <= 3 && AllIn(digits, 0, |digits|, Digits)
  }

  /** `u` is `[a-zA-Z0-9.-]+ \. [a-zA-Z]{2,}` with the dot at `q`. */
  predicate DomainSplitAt(u: string, q: nat) {
    1 <= q && q + 3 <= |u| && u[q] == '.' && AllIn(u, 0, q, DomainPart) && AllIn(u, q + 1, |u|, Letters)
  }

  ghost predicate DomainShape(u: string) {
    exists q: nat :: DomainSplitAt(u, q)
  }

  /** `u` is `[a-zA-Z0-9._%+-]+ @ <domain>` with the at-sign at `k`. */
  ghost predicate EmailSplitAt(u: string, k: nat) {
    1 <= k < |u| && u[k] == '@' && AllIn(u, 0, k, LocalPart) && DomainShape(u[k + 1..])
  }

  ghost predicate EmailShape(u: string) {
    exists k: nat :: EmailSplitAt(u, k)
  }

  // ---------------------------------------------------------------------------
  // Phone engine

  /** `\d{n}` at `j`. */
  predicate DigitsAt(s: string, j: nat, n: nat) {
    AllIn(s, j, j + n, Digits)
  }

  /** `[-.\s]?` at `j`, taken whenever present (what follows it is always a digit). */
  function AfterSeparator(s: string, j: nat): (k: nat)
    requires j <= |s|
    ensures j <= k <= |s|
  {
    if j < |s| && IsSeparator(s[j]) then j + 1 else j
  }

  /** `\(?\d{3}\)?[-.\s]?\d{3}[-.\s]?\d{4}` from `j`; each optional character is
      taken whenever present, as skipping it would leave a digit test facing it. */
  function PhoneTail(s: string, j: nat): (r: Option<nat>)
    requires j <= |s|
    ensures r.Some? ==> j + 10 <= r.value <= |s|
  {
    var a := if j < |s| && s[j] == '(' then j + 1 else j;
    if !DigitsAt(s, a, 3) then None
    else
      var c := if a + 3 < |s| && s[a + 3] == ')' then a + 4 else a + 3;
      var d := AfterSeparator(s, c);
      if !DigitsAt(s, d, 3) then None
      else
        var f := AfterSeparator(s, d + 3);
        if !DigitsAt(s, f, 4) then None else Some(f + 4)
  }

  /** The country-code group with `n`, `n - 1`, ..., 1 digits after the optional
      plus at `i`, stopping at the first count that lets the tail match; the
      capture is the group's text. */
  function PhoneWithCode(s: string, i: nat, p: nat, n: nat): (r: Option<Hit>)
    requires p == i || (p == i + 1 && i < |s| && s[i] == '+')
    requires n <= 3 && DigitsAt(s, p, n)
    ensures r.Some? ==> i < r.value.end <= |s| && IsCountryCode(r.value.capture)
    decreases n
  {
    if n == 0 then None
    else
      var g := AfterSeparator(s, p + n);
      match PhoneTail(s, g)
      case Some(e) =>
        CountryCodeCapture(s, i, p, n);
        Some(Hit(e, s[i..g]))
      case None => PhoneWithCode(s, i, p, n - 1)
  }

  lemma CountryCodeCapture(s: string, i: nat, p: nat, n: nat)
    requires p == i || (p == i + 1 && i < |s| && s[i] == '+')
    requires 1 <= n <= 3 && DigitsAt(s, p, n)
    ensures IsCountryCode(s[i..AfterSeparator(s, p + n)])
  {
    var g := AfterSeparator(s, p + n);
    var c := s[i..g];
    assert IsDigit(s[p]);
    var body := if |c| > 0 && c[0] == '+' then c[1..] else c;
    assert body == s[p..g];
    assert IsDigit(s[p + n - 1]);
    var digits := if |body| > 0 && IsSeparator(body[|body| - 1]) then body[..|body| - 1] else body;
    assert digits == s[p..p + n];
    AllInSlice(s, p, p + n, p, p + n, Digits);
  }

  /** One phone match attempt at `i`; the capture is the country-code group, or
      `""` when the match went without it (what `re.findall` reports for a
      group that did not take part). */
  function PhoneAt(s: string, i: nat): (r: Option<Hit>)
    requires i <= |s|
    ensures r.Some? ==> i < r.value.end <= |s|
    ensures r.Some? ==> r.value.capture == "" || IsCountryCode(r.value.capture)
  {
    var p := if i < |s| && s[i] == '+' then i + 1 else i;
    var run := RunEnd(s, p, Digits) - p;
    var n := if run < 3 then run else 3;
    match PhoneWithCode(s, i, p, n)
    case Some(h) => Some(h)
    case None =>
      match PhoneTail(s, i)
      case Some(e) => Some(Hit(e, ""))
      case None => None
  }

  // ---------------------------------------------------------------------------
  // Email and website engines

  /** A dot at `q` with two letters after it: where `\.[a-zA-Z]{2,}` can start. */
  predicate IsTldDot(s: string, q: nat) {
    q + 2 < |s| && s[q] == '.' && IsLetter(s[q + 1]) && IsLetter(s[q + 2])
  }

  /** The last such dot strictly between `lo` and `hi`. */
  function LastTldDot(s: string, lo: nat, hi: nat): (r: Option<nat>)
    ensures r.Some? ==> lo < r.value < hi && IsTldDot(s, r.value)
    ensures forall q: nat :: lo < q < hi && (r.None? || r.value < q) ==> !IsTldDot(s, q)
    decreases hi
  {
    if hi <= lo + 1 then None
    else if IsTldDot(s, hi - 1) then Some(hi - 1)
    else LastTldDot(s, lo, hi - 1)
  }

  /** `[a-zA-Z0-9.-]+\.[a-zA-Z]{2,}` from `d`; the result is where the match ends. */
  function DomainAt(s: string, d: nat): (r: Option<nat>)
    requires d <= |s|
    ensures r.Some? ==> d < r.value <= |s| && DomainShape(s[d..r.value])
  {
    var m := RunEnd(s, d, DomainPart);
    match LastTldDot(s, d, m)
    case None => None
    case Some(q) =>
      var e := RunEnd(s, q + 1, Letters);
      assert e >= q + 3;
      AllInSlice(s, d, e, d, q, DomainPart);
      AllInSlice(s, d, e, q + 1, e, Letters);
      assert s[d..e][q - d] == '.';
      assert DomainSplitAt(s[d..e], q - d);
      Some(e)
  }

  function EmailAt(s: string, i: nat): (r: Option<Hit>)
    requires i <= |s|
    ensures r.Some? ==> i < r.value.end <= |s| && r.value.capture == s[i..r.value.end]
    ensures r.Some? ==> EmailShape(r.value.capture)
  {
    var k := RunEnd(s, i, LocalPart);
    if k == i || k == |s| || s[k] != '@' then None
    else
      match DomainAt(s, k + 1)
      case None => None
      case Some(e) =>
        var u := s[i..e];
        AllInSlice(s, i, e, i, k, LocalPart);
        assert u[k - i + 1..] == s[k + 1..e];
        assert EmailSplitAt(u, k - i);
        Some(Hit(e, u))
  }

  /** One website match attempt at `i`; the capture is the domain group, without the scheme. */
  function WebsiteAt(s: string, i: nat): (r: Option<Hit>)
    requires i <= |s|
    ensures r.Some? ==> i < r.value.end <= |s| && DomainShape(r.value.capture)
  {
    var https := if StartsAt(s, i, "https://") then DomainAt(s, i + 8) else None;
    if https.Some? then Some(Hit(https.value, s[i + 8..https.value]))
    else
      var http := if StartsAt(s, i, "http://") then DomainAt(s, i + 7) else None;
      if http.Some? then Some(Hit(http.value, s[i + 7..http.value]))
      else
        match DomainAt(s, i)
        case Some(e) => Some(Hit(e, s[i..e]))
        case None => None
  }

  // ---------------------------------------------------------------------------
  // findall / sub

  datatype Pattern = PhonePattern | EmailPattern | WebsitePattern

  /** Where a match ends and what `re.findall` reports for it. */
  datatype Hit = Hit(end: nat, capture: string)

  ghost predicate CaptureOk(p: Pattern, c: string) {
    match p
    case PhonePattern => c == "" || IsCountryCode(c)
    case EmailPattern => EmailShape(c)
    case WebsitePattern => DomainShape(c)
  }

  function MatchAt(p: Pattern, s: string, i: nat): (r: Option<Hit>)
    requires i <= |s|
    ensures r.Some? ==> i < r.value.end <= |s| && CaptureOk(p, r.value.capture)
  {
    match p
    case PhonePattern => PhoneAt(s, i)
    case EmailPattern => EmailAt(s, i)
    case WebsitePattern => WebsiteAt(s, i)
  }

  /** The text cut into what a scan keeps and what it matches. */
  datatype Piece = Kept(c: char) | Matched(text: string, capture: string)

  /** The non-overlapping left-to-right scan shared by `re.findall` and `re.sub`:
      after a match it resumes at the match's end, after a miss one character on. */
  /** The pattern matches at no position from `i` on. */
  predicate NoMatchFrom(p: Pattern, s: string, i: nat)
    requires i <= |s|
    decreases |s| - i
  {
    i == |s| || (MatchAt(p, s, i).None? && NoMatchFrom(p, s, i + 1))
  }

  /** `NoMatchFrom` says exactly that every position from `i` on fails to match. */
  lemma NoMatchFromIff(p: Pattern, s: string, i: nat)
    requires i <= |s|
    ensures NoMatchFrom(p, s, i) <==> forall j :: i <= j < |s| ==> MatchAt(p, s, j).None?
  {
    if NoMatchFrom(p, s, i) {
      NoMatchFromMisses(p, s, i);
    } else if forall j :: i <= j < |s| ==> MatchAt(p, s, j).None? {
      MissesNoMatchFrom(p, s, i);
    }
  }

  lemma {:induction false} NoMatchFromMisses(p: Pattern, s: string, i: nat)
    requires i <= |s| && NoMatchFrom(p, s, i)
    ensures forall j :: i <= j < |s| ==> MatchAt(p, s, j).None?
    decreases |s| - i
  {
    if i < |s| {
      assert MatchAt(p, s, i).None? && NoMatchFrom(p, s, i + 1);
      NoMatchFromMisses(p, s, i + 1);
      forall j | i <= j < |s| ensures MatchAt(p, s, j).None? {
        if j != i {
          assert i + 1 <= j;
        }
      }
    }
  }

  lemma {:induction false} MissesNoMatchFrom(p: Pattern, s: string, i: nat)
    requires i <= |s| && forall j :: i <= j < |s| ==> MatchAt(p, s, j).None?
    ensures NoMatchFrom(p, s, i)
    decreases |s| - i
  {
    if i < |s| {
      MissesNoMatchFrom(p, s, i + 1);
    }
  }

  /** No pattern matches anywhere in `s`. */
  predicate MatchesNowhere(s: string) {
    forall p :: NoMatchFrom(p, s, 0)
  }

  function Scan(p: Pattern, s: string, i: nat): seq<Piece>
    requires i <= |s|
    decreases |s| - i
  {
    if i == |s| then []
    else
      match MatchAt(p, s, i)
      case Some(h) => [Matched(s[i..h.end], h.capture)] + Scan(p, s, h.end)
      case None => [Kept(s[i])] + Scan(p, s, i + 1)
  }

  function PieceText(x: Piece): string {
    match x
    case Kept(c) => [c]
    case Matched(t, _) => t
  }

  function Rejoin(ps: seq<Piece>): string {
    if |ps| == 0 then "" else PieceText(ps[0]) + Rejoin(ps[1..])
  }

  function Captures(ps: seq<Piece>): seq<string> {
    if |ps| == 0 then []
    else (if ps[0].Matched? then [ps[0].capture] else []) + Captures(ps[1..])
  }

  function KeptText(ps: seq<Piece>): string {
    if |ps| == 0 then "" else (if ps[0].Kept? then [ps[0].c] else "") + KeptText(ps[1..])
  }

  /** `re.findall(pattern, s)`: the capture of every match, in order; each
      has the shape of the pattern's reported group. */
  function FindAll(p: Pattern, s: string): (r: seq<string>)
    ensures forall c :: c in r ==> CaptureOk(p, c)
  {
    ScanCapturesOk(p, s, 0);
    Captures(Scan(p, s, 0))
  }

  /** `re.sub(pattern, '', s)`: the text with every match removed. It only
      deletes characters, and a text the pattern matches nowhere is kept. */
  function Sub(p: Pattern, s: string): (r: string)
    ensures IsSubsequence(r, s)
    ensures NoMatchFrom(p, s, 0) ==> r == s
  {
    ScanKeeps(p, s, 0);
    SubKeepsUnmatched(p, s);
    KeptText(Scan(p, s, 0))
  }

  lemma KeptTextCons(x: Piece, rest: seq<Piece>)
    ensures KeptText([x] + rest) == (if x.Kept? then [x.c] else "") + KeptText(rest)
  {
    assert ([x] + rest)[1..] == rest;
  }

  lemma KeepsAfterMatch(s: string, i: nat, e: nat, capture: string, rest: seq<Piece>)
    requires i < e <= |s| && IsSubsequence(KeptText(rest), s[e..])
    ensures IsSubsequence(KeptText([Matched(s[i..e], capture)] + rest), s[i..])
  {
    KeptTextCons(Matched(s[i..e], capture), rest);
    assert KeptText([Matched(s[i..e], capture)] + rest) == KeptText(rest);
    SliceSplit(s, i, e);
    SubsequenceSkip(KeptText(rest), s[i..e], s[e..]);
  }

  lemma KeepsAfterMiss(s: string, i: nat, rest: seq<Piece>)
    requires i < |s| && IsSubsequence(KeptText(rest), s[i + 1..])
    ensures IsSubsequence(KeptText([Kept(s[i])] + rest), s[i..])
  {
    var k := KeptText(rest);
    KeptTextCons(Kept(s[i]), rest);
    assert KeptText([Kept(s[i])] + rest) == [s[i]] + k;
    assert ([s[i]] + k)[1..] == k;
    assert s[i..][1..] == s[i + 1..];
  }

  /** The kept characters of a scan are the scanned text with the matches deleted. */
  lemma {:induction false} ScanKeeps(p: Pattern, s: string, i: nat)
    requires i <= |s|
    ensures IsSubsequence(KeptText(Scan(p, s, i)), s[i..])
    decreases |s| - i
  {
    if i < |s| {
      var m := MatchAt(p, s, i);
      if m.Some? {
        var e := m.value.end;
        var rest := Scan(p, s, e);
        assert Scan(p, s, i) == [Matched(s[i..e], m.value.capture)] + rest;
        ScanKeeps(p, s, e);
        KeepsAfterMatch(s, i, e, m.value.capture, rest);
      } else {
        var rest := Scan(p, s, i + 1);
        assert Scan(p, s, i) == [Kept(s[i])] + rest;
        ScanKeeps(p, s, i + 1);
        KeepsAfterMiss(s, i, rest);
      }
    }
  }

  lemma SubKeepsUnmatched(p: Pattern, s: string)
    ensures NoMatchFrom(p, s, 0) ==> KeptText(Scan(p, s, 0)) == s
  {
    if NoMatchFrom(p, s, 0) {
      NoMatchFromMisses(p, s, 0);
      ScanNoMatch(p, s, 0);
    }
  }

  /** Where the pattern matches nowhere, the scan keeps every character. */
  lemma {:induction false} ScanNoMatch(p: Pattern, s: string, i: nat)
    requires i <= |s|
    requires forall j :: i <= j < |s| ==> MatchAt(p, s, j).None?
    ensures KeptText(Scan(p, s, i)) == s[i..]
    decreases |s| - i
  {
    if i < |s| {
      ScanNoMatch(p, s, i + 1);
      KeptTextCons(Kept(s[i]), Scan(p, s, i + 1));
      SliceCons(s, i);
    }
  }

  lemma PiecesCons(x: Piece, rest: seq<Piece>)
    ensures Rejoin([x] + rest) == PieceText(x) + Rejoin(rest)
    ensures Captures([x] + rest) == (if x.Matched? then [x.capture] else []) + Captures(rest)
  {
    assert ([x] + rest)[1..] == rest;
  }

  /** Putting the kept characters and the matched texts back together in scan
      order gives the text back: the scan loses and invents nothing. */
  lemma {:induction false} ScanRejoins(p: Pattern, s: string, i: nat)
    requires i <= |s|
    ensures Rejoin(Scan(p, s, i)) == s[i..]
    decreases |s| - i
  {
    if i < |s| {
      match MatchAt(p, s, i)
      case Some(h) =>
        ScanRejoins(p, s, h.end);
        PiecesCons(Matched(s[i..h.end], h.capture), Scan(p, s, h.end));
        SliceSplit(s, i, h.end);
      case None =>
        ScanRejoins(p, s, i + 1);
        PiecesCons(Kept(s[i]), Scan(p, s, i + 1));
        SliceCons(s, i);
    }
  }

  lemma {:induction false} ScanCapturesOk(p: Pattern, s: string, i: nat)
    requires i <= |s|
    ensures forall c :: c in Captures(Scan(p, s, i)) ==> CaptureOk(p, c)
    decreases |s| - i
  {
    if i < |s| {
      match MatchAt(p, s, i)
      case Some(h) =>
        ScanCapturesOk(p, s, h.end);
        PiecesCons(Matched(s[i..h.end], h.capture), Scan(p, s, h.end));
      case None =>
        ScanCapturesOk(p, s, i + 1);
        PiecesCons(Kept(s[i]), Scan(p, s, i + 1));
    }
  }
}
