/** `validate_phone`, `validate_email` and `validate_website` (classify.py:159-198):
    the search patterns anchored with `^...$` and applied to the stripped input.
    An anchored match succeeds exactly when the whole string belongs to the
    pattern's language, so each validator is a decision procedure for that
    language, and the lemmas below tie the procedure to the language. */
module Validators {
  import opened Wrappers
  import opened Text
  import opened Patterns

  // ---------------------------------------------------------------------------
  // Phone

  /** Some country-code digit count `n`, `n - 1`, ..., 1 lets the tail end exactly at the end. */
  function CodeThenTailWhole(t: string, p: nat, n: nat): bool
    requires p + n <= |t|
    decreases n
  {
    n > 0 && (PhoneTail(t, AfterSeparator(t, p + n)) == Some(|t|) || CodeThenTailWhole(t, p, n - 1))
  }

  function PhoneWhole(t: string): bool {
    var p := if |t| > 0 && t[0] == '+' then 1 else 0;
    var run := RunEnd(t, p, Digits) - p;
    CodeThenTailWhole(t, p, if run < 3 then run else 3) || PhoneTail(t, 0) == Some(|t|)
  }

  /** `validate_phone`: the anchored phone pattern on the stripped input. */
  function ValidatePhone(s: string): bool {
    PhoneWhole(Strip(s))
  }

  /** Number of ASCII digits in `s[lo..hi]`. */
  function CountDigits(s: string, lo: nat, hi: nat): nat
    requires lo <= hi <= |s|
    decreases hi - lo
  {
    if lo == hi then 0 else CountDigits(s, lo, hi - 1) + (if IsDigit(s[hi - 1]) then 1 else 0)
  }

  lemma {:induction false} CountDigitsSplit(s: string, lo: nat, mid: nat, hi: nat)
    requires lo <= mid <= hi <= |s|
    ensures CountDigits(s, lo, hi) == CountDigits(s, lo, mid) + CountDigits(s, mid, hi)
    decreases hi - mid
  {
    if hi > mid {
      CountDigitsSplit(s, lo, mid, hi - 1);
    }
  }

  lemma {:induction false} CountAllDigits(s: string, lo: nat, hi: nat)
    requires lo <= hi && AllIn(s, lo, hi, Digits)
    ensures CountDigits(s, lo, hi) == hi - lo
    decreases hi - lo
  {
    if hi > lo {
      CountAllDigits(s, lo, hi - 1);
    }
  }

  /** A stretch of at most one character that is not a digit holds no digit. */
  lemma CountNoDigit(s: string, lo: nat, hi: nat)
    requires lo <= hi <= |s| && hi <= lo + 1
    requires hi == lo + 1 ==> !IsDigit(s[lo])
    ensures CountDigits(s, lo, hi) == 0
  {
  }

  /** Digit count of the tail, stage by stage: three digits, at most one
      non-digit, three digits, at most one non-digit, four digits. */
  lemma TailPieces(s: string, j: nat, a: nat, c: nat, d: nat, f: nat)
    requires j <= a <= j + 1 && a + 3 <= c <= a + 4 && c <= d <= c + 1 && d + 3 <= f <= d + 4 && f + 4 <= |s|
    requires a == j + 1 ==> !IsDigit(s[j])
    requires c == a + 4 ==> !IsDigit(s[a + 3])
    requires d == c + 1 ==> !IsDigit(s[c])
    requires f == d + 4 ==> !IsDigit(s[d + 3])
    requires DigitsAt(s, a, 3) && DigitsAt(s, d, 3) && DigitsAt(s, f, 4)
    ensures CountDigits(s, j, f + 4) == 10
  {
    CountDigitsSplit(s, j, a, f + 4);
    CountNoDigit(s, j, a);
    CountDigitsSplit(s, a, a + 3, f + 4);
    CountAllDigits(s, a, a + 3);
    CountDigitsSplit(s, a + 3, c, f + 4);
    CountNoDigit(s, a + 3, c);
    CountDigitsSplit(s, c, d, f + 4);
    CountNoDigit(s, c, d);
    CountDigitsSplit(s, d, d + 3, f + 4);
    CountAllDigits(s, d, d + 3);
    CountDigitsSplit(s, d + 3, f, f + 4);
    CountNoDigit(s, d + 3, f);
    CountAllDigits(s, f, f + 4);
  }

  /** The tail of the phone pattern always holds exactly ten digits. */
  lemma PhoneTailDigits(s: string, j: nat)
    requires j <= |s| && PhoneTail(s, j).Some?
    ensures CountDigits(s, j, PhoneTail(s, j).value) == 10
  {
    var a := if j < |s| && s[j] == '(' then j + 1 else j;
    var c := if a + 3 < |s| && s[a + 3] == ')' then a + 4 else a + 3;
    var d := AfterSeparator(s, c);
    var f := AfterSeparator(s, d + 3);
    assert PhoneTail(s, j) == Some(f + 4);
    TailPieces(s, j, a, c, d, f);
  }

  lemma {:induction false} CodeThenTailDigits(t: string, p: nat, n: nat)
    requires p <= 1 && p + n <= |t| && (p == 1 ==> t[0] == '+')
    requires DigitsAt(t, p, n) && CodeThenTailWhole(t, p, n)
    ensures 11 <= CountDigits(t, 0, |t|) <= 10 + n
    decreases n
  {
    var g := AfterSeparator(t, p + n);
    if PhoneTail(t, g) == Some(|t|) {
      CountDigitsSplit(t, 0, p, |t|);
      CountDigitsSplit(t, p, p + n, |t|);
      CountDigitsSplit(t, p + n, g, |t|);
      CountNoDigit(t, 0, p);
      CountAllDigits(t, p, p + n);
      CountNoDigit(t, p + n, g);
      PhoneTailDigits(t, g);
    } else {
      CodeThenTailDigits(t, p, n - 1);
    }
  }

  /** An accepted phone number carries ten to thirteen digits: ten in the
      number proper and up to three in the country code. */
  lemma ValidPhoneDigitCount(s: string)
    requires ValidatePhone(s)
    ensures var t := Strip(s); 10 <= CountDigits(t, 0, |t|) <= 13
  {
    var t := Strip(s);
    var p := if |t| > 0 && t[0] == '+' then 1 else 0;
    var run := RunEnd(t, p, Digits) - p;
    var n := if run < 3 then run else 3;
    if CodeThenTailWhole(t, p, n) {
      CodeThenTailDigits(t, p, n);
    } else {
      PhoneTailDigits(t, 0);
    }
  }

  /** Ten bare digits are accepted. */
  lemma TenDigitsAccepted(t: string)
    requires |t| == 10 && AllIn(t, 0, 10, Digits)
    ensures ValidatePhone(t)
  {
    assert IsDigit(t[0]) && IsDigit(t[9]);
    StripUnpadded(t);
    assert DigitsAt(t, 0, 3) && DigitsAt(t, 3, 3) && DigitsAt(t, 6, 4);
    assert PhoneTail(t, 0) == Some(10);
  }

  /** The North-American layout `(ddd) ddd-dddd` is accepted. */
  lemma ParenthesisedAreaCodeAccepted(area: string, exchange: string, line: string)
    requires |area| == 3 && AllIn(area, 0, 3, Digits)
    requires |exchange| == 3 && AllIn(exchange, 0, 3, Digits)
    requires |line| == 4 && AllIn(line, 0, 4, Digits)
    ensures ValidatePhone("(" + area + ") " + exchange + "-" + line)
  {
    var t := "(" + area + ") " + exchange + "-" + line;
    assert |t| == 14;
    assert DigitsAt(t, 1, 3) by {
      forall k | 1 <= k < 4 ensures InClass(Digits, t[k]) { assert t[k] == area[k - 1]; }
    }
    assert DigitsAt(t, 6, 3) by {
      forall k | 6 <= k < 9 ensures InClass(Digits, t[k]) { assert t[k] == exchange[k - 6]; }
    }
    assert DigitsAt(t, 10, 4) by {
      forall k | 10 <= k < 14 ensures InClass(Digits, t[k]) { assert t[k] == line[k - 10]; }
    }
    assert t[0] == '(' && t[4] == ')' && t[5] == ' ' && t[9] == '-';
    assert IsDigit(t[13]);
    StripUnpadded(t);
    assert PhoneTail(t, 0) == Some(14);
    assert RunEnd(t, 0, Digits) == 0;
  }

  /** What the classifier stores as a phone (a country-code capture) is never accepted as a phone number. */
  lemma CountryCodeIsNotAPhone(c: string)
    requires IsCountryCode(c)
    ensures !ValidatePhone(c)
  {
    var body := if |c| > 0 && c[0] == '+' then c[1..] else c;
    assert |body| >= |c| - 1;
    if ValidatePhone(c) {
      ValidPhoneDigitCount(c);
      CountAtMostLength(Strip(c), 0, |Strip(c)|);
    }
  }

  lemma {:induction false} CountAtMostLength(s: string, lo: nat, hi: nat)
    requires lo <= hi <= |s|
    ensures CountDigits(s, lo, hi) <= hi - lo
    decreases hi - lo
  {
    if hi > lo {
      CountAtMostLength(s, lo, hi - 1);
    }
  }

  // ---------------------------------------------------------------------------
  // Email

  /** Anchored domain test: all domain characters, and the last dot with two
      letters after it is followed by letters only. */
  function DomainWhole(u: string): bool {
    var q := LastTldDot(u, 0, |u|);
    AllIn(u, 0, |u|, DomainPart) && q.Some? && AllIn(u, q.value + 1, |u|, Letters)
  }

  lemma DomainWholeIff(u: string)
    ensures DomainWhole(u) <==> DomainShape(u)
  {
    var q := LastTldDot(u, 0, |u|);
    if DomainWhole(u) {
      assert DomainSplitAt(u, q.value);
    }
    if DomainShape(u) {
      var q0: nat :| DomainSplitAt(u, q0);
      assert IsTldDot(u, q0);
      assert q.Some? && q0 <= q.value;
      if q0 < q.value {
        assert IsLetter(u[q.value]);
      }
      assert AllIn(u, 0, |u|, DomainPart) by {
        forall k | 0 <= k < |u| ensures InClass(DomainPart, u[k]) {
          if k > q0 { assert InClass(Letters, u[k]); }
        }
      }
    }
  }

  function EmailWhole(t: string): bool {
    var k := RunEnd(t, 0, LocalPart);
    0 < k < |t| && t[k] == '@' && DomainWhole(t[k + 1..])
  }

  lemma EmailWholeIff(t: string)
    ensures EmailWhole(t) <==> EmailShape(t)
  {
    var k := RunEnd(t, 0, LocalPart);
    if EmailWhole(t) {
      DomainWholeIff(t[k + 1..]);
      assert EmailSplitAt(t, k);
    }
    if EmailShape(t) {
      var k0: nat :| EmailSplitAt(t, k0);
      assert k == k0;
      DomainWholeIff(t[k + 1..]);
    }
  }

  /** `validate_email`: the stripped input is `local@domain.tld` as the pattern spells it out. */
  function ValidateEmail(s: string): (r: bool)
    ensures r <==> EmailShape(Strip(s))
  {
    EmailWholeIff(Strip(s));
    EmailWhole(Strip(s))
  }

  /** The text ends in a dot followed only by letters, at least two of them. */
  ghost predicate EndsInTldAt(t: string, q: nat) {
    q + 3 <= |t| && t[q] == '.' && AllIn(t, q + 1, |t|, Letters)
  }

  lemma DomainCharsOnly(u: string)
    requires DomainShape(u)
    ensures AllIn(u, 0, |u|, DomainPart)
  {
    var q: nat :| DomainSplitAt(u, q);
    forall k | 0 <= k < |u| ensures InClass(DomainPart, u[k]) {
      if k > q { assert InClass(Letters, u[k]); }
    }
  }

  /** An address split at `k` holds exactly one '@'. */
  lemma OneAt(t: string, k: nat)
    requires EmailSplitAt(t, k)
    ensures multiset(t)['@'] == 1
  {
    var d := t[k + 1..];
    DomainCharsOnly(d);
    assert t == t[..k] + [t[k]] + d;
    assert '@' !in t[..k] by {
      forall j | 0 <= j < k ensures t[..k][j] != '@' { assert InClass(LocalPart, t[j]); }
    }
    assert '@' !in d by {
      forall j | 0 <= j < |d| ensures d[j] != '@' { assert InClass(DomainPart, d[j]); }
    }
    assert multiset(t) == multiset(t[..k]) + multiset{'@'} + multiset(d);
  }

  /** An address split at `k` ends in a dot followed by two or more letters. */
  lemma EndsInTld(t: string, k: nat) returns (q: nat)
    requires EmailSplitAt(t, k)
    ensures EndsInTldAt(t, q)
  {
    var d := t[k + 1..];
    var q0: nat :| DomainSplitAt(d, q0);
    q := k + 1 + q0;
    forall j | q + 1 <= j < |t| ensures InClass(Letters, t[j]) {
      assert t[j] == d[j - k - 1];
    }
  }

  /** An accepted email has exactly one at-sign and ends in a dot and two or more letters. */
  lemma ValidEmailFacts(s: string)
    requires ValidateEmail(s)
    ensures var t := Strip(s); multiset(t)['@'] == 1 && exists q: nat :: EndsInTldAt(t, q)
  {
    var t := Strip(s);
    var k: nat :| EmailSplitAt(t, k);
    OneAt(t, k);
    var q := EndsInTld(t, k);
  }

  /** Every address `re.findall` extracts with the search pattern passes the validator. */
  lemma ExtractedEmailValidates(e: string)
    requires EmailShape(e)
    ensures ValidateEmail(e)
  {
    var k: nat :| EmailSplitAt(e, k);
    var d := e[k + 1..];
    var q: nat :| DomainSplitAt(d, q);
    assert InClass(LocalPart, e[0]);
    assert e[|e| - 1] == d[|d| - 1];
    assert InClass(Letters, d[|d| - 1]);
    StripUnpadded(e);
  }

  // ---------------------------------------------------------------------------
  // Website

  const Schemes: seq<string> := ["http://", "https://"]

  /** `(https?://)?<domain>` as a language: a bare domain, or a domain behind one of the two schemes. */
  ghost predicate WebsiteShape(t: string) {
    || DomainShape(t)
    || exists j :: 0 <= j < |Schemes| && StartsAt(t, 0, Schemes[j]) && DomainShape(t[|Schemes[j]|..])
  }

  function WebsiteWhole(t: string): bool {
    || (StartsAt(t, 0, "https://") && DomainWhole(t[8..]))
    || (StartsAt(t, 0, "http://") && DomainWhole(t[7..]))
    || DomainWhole(t)
  }

  lemma WebsiteWholeIff(t: string)
    ensures WebsiteWhole(t) <==> WebsiteShape(t)
  {
    DomainWholeIff(t);
    if StartsAt(t, 0, "https://") { DomainWholeIff(t[8..]); }
    if StartsAt(t, 0, "http://") { DomainWholeIff(t[7..]); }
    assert Schemes[0] == "http://" && Schemes[1] == "https://";
  }

  /** `validate_website`: the stripped input is a domain, optionally behind `http://` or `https://`. */
  function ValidateWebsite(s: string): (r: bool)
    ensures r <==> WebsiteShape(Strip(s))
  {
    WebsiteWholeIff(Strip(s));
    WebsiteWhole(Strip(s))
  }

  predicate HasScheme(w: string) {
    StartsAt(w, 0, "http://") || StartsAt(w, 0, "https://")
  }

  /** Every website `re.findall` extracts (the domain group) passes the validator
      and carries no scheme, whether or not the text had one. */
  lemma ExtractedWebsiteValidates(w: string)
    requires DomainShape(w)
    ensures ValidateWebsite(w) && !HasScheme(w)
  {
    var q: nat :| DomainSplitAt(w, q);
    DomainCharsOnly(w);
    assert InClass(DomainPart, w[0]);
    assert InClass(Letters, w[|w| - 1]);
    StripUnpadded(w);
    if |w| >= 7 {
      assert InClass(DomainPart, w[4]);
      assert InClass(DomainPart, w[5]);
      assert w[0..7][4] == w[4] && w[0..7][5] == w[5];
    }
  }
}
