/** `classify_text` (classify.py:15-156): the phone numbers, email addresses
    and websites are pulled out of the OCR text with the three search
    patterns, removed from it, and the remaining lines are sorted into name,
    designation, company and address by keyword heuristics. */
module Classify {
  import opened Text
  import opened Patterns
  import opened Validators
  import opened Records

  // ---------------------------------------------------------------------------
  // Vocabularies

  /** Job-title words; "coordinator" is listed twice in the source, which changes nothing. */
  const DesignationKeywords: seq<string> := [
    "manager", "director", "president", "ceo", "cto", "cfo", "vp", "vice president",
    "senior", "junior", "lead", "head", "chief", "coordinator", "specialist",
    "analyst", "engineer", "developer", "designer", "consultant", "advisor",
    "executive", "officer", "associate", "assistant", "supervisor", "coordinator"]

  const CompanyKeywords: seq<string> := [
    "inc", "llc", "ltd", "corp", "corporation", "company", "co", "enterprises",
    "group", "associates", "partners", "solutions", "systems", "technologies",
    "international", "global", "worldwide", "services", "consulting"]

  const AddressIndicators: seq<string> := [
    "street", "avenue", "road", "drive", "lane", "boulevard", "suite", "floor", "building"]

  /** Street abbreviations, looked for only on lines that hold a digit. */
  const AddressAbbreviations: seq<string> := ["st", "ave", "rd", "dr", "blvd", "ln", "ct", "pl"]

  /** `any(k in s for k in keywords)`: some keyword is a substring of `s`
      (anywhere, not only as a whole word). */
  function AnyKeyword(s: string, keywords: seq<string>): (r: bool)
    ensures r <==> exists w :: w in keywords && Occurs(s, w)
  {
    if |keywords| == 0 then false
    else
      assert forall w :: w in keywords <==> w == keywords[0] || w in keywords[1..];
      Contains(s, keywords[0]) || AnyKeyword(s, keywords[1..])
  }

  /** `any(ch.isdigit() for ch in s)`. */
  function HasDigit(s: string): (r: bool)
    ensures r <==> exists c :: c in s && IsDigit(c)
  {
    if |s| == 0 then false
    else
      assert forall c :: c in s <==> c == s[0] || c in s[1..];
      IsDigit(s[0]) || HasDigit(s[1..])
  }

  /** `re.search(r'\d{5}(-\d{4})?', s)` from position `i` on: the optional
      suffix never decides whether a search succeeds, so five digits in a row suffice. */
  function FiveDigitsFrom(s: string, i: nat): (r: bool)
    ensures r <==> exists k: nat :: i <= k && k + 5 <= |s| && DigitsAt(s, k, 5)
    decreases |s| - i
  {
    if i + 5 > |s| then false
    else DigitsAt(s, i, 5) || FiveDigitsFrom(s, i + 1)
  }

  predicate HasPostalCode(s: string) {
    FiveDigitsFrom(s, 0)
  }

  lemma PostalCodeHasDigit(s: string)
    ensures HasPostalCode(s) ==> HasDigit(s)
  {
    if HasPostalCode(s) {
      var k: nat :| k + 5 <= |s| && DigitsAt(s, k, 5);
      assert InClass(Digits, s[k]);
      assert s[k] in s;
    }
  }

  // ---------------------------------------------------------------------------
  // One line

  /** The list a line after the first is appended to. */
  datatype Bucket = DesignationLine | CompanyLine | AddressLine

  /** The `if`/`elif` chain of the loop over the remaining lines. */
  function ClassifyLine(line: string): (b: Bucket)
    ensures b == DesignationLine <==> AnyKeyword(Lower(line), DesignationKeywords)
    ensures b == CompanyLine <==>
              !AnyKeyword(Lower(line), DesignationKeywords)
              && (AnyKeyword(Lower(line), CompanyKeywords)
                  || (!AnyKeyword(Lower(line), AddressIndicators) && !HasDigit(line) && WordCount(line) <= 3))
  {
    var low := Lower(line);
    PostalCodeHasDigit(line);
    if AnyKeyword(low, DesignationKeywords) then DesignationLine
    else if AnyKeyword(low, CompanyKeywords) then CompanyLine
    else if AnyKeyword(low, AddressIndicators) then AddressLine
    else if HasPostalCode(line) then AddressLine
    else if HasDigit(line) && AnyKeyword(low, AddressAbbreviations) then AddressLine
    else if WordCount(line) <= 3 && !HasDigit(line) then CompanyLine
    else AddressLine
  }

  /** A line with a digit and no designation or company keyword always ends
      up in the address, whether or not it has a postal code or a street
      abbreviation: those two tests never change the outcome. */
  lemma DigitLineIsAddress(line: string)
    requires HasDigit(line)
    requires !AnyKeyword(Lower(line), DesignationKeywords) && !AnyKeyword(Lower(line), CompanyKeywords)
    ensures ClassifyLine(line) == AddressLine
  {
  }

  /** Any designation keyword inside the lower-cased line decides it, whatever else the line holds. */
  lemma DesignationKeywordInside(line: string, w: string)
    requires w in DesignationKeywords && Occurs(Lower(line), w)
    ensures ClassifyLine(line) == DesignationLine
  {
  }

  /** "associates" contains "associate", so the company keyword "associates"
      never applies: such a line is taken for a designation. */
  lemma AssociatesIsDesignation(line: string)
    requires Occurs(Lower(line), "associates")
    ensures ClassifyLine(line) == DesignationLine
  {
    var low := Lower(line);
    var k: nat :| OccursAt(low, "associates", k);
    assert low[k..k + 9] == low[k..k + 10][..9];
    assert OccursAt(low, "associate", k);
    assert DesignationKeywords[23] == "associate";
    DesignationKeywordInside(line, "associate");
  }

  /** Keywords match inside words: any line that starts with "Victoria" holds
      "cto" and is taken for a designation, "Victoria Street" included. */
  lemma VictoriaIsDesignation(rest: string)
    ensures ClassifyLine("Victoria" + rest) == DesignationLine
  {
    var line := "Victoria" + rest;
    var low := Lower(line);
    assert line[2] == 'c' && line[3] == 't' && line[4] == 'o';
    assert low[2..5] == "cto";
    assert OccursAt(low, "cto", 2);
    assert DesignationKeywords[4] == "cto";
    DesignationKeywordInside(line, "cto");
  }

  // ---------------------------------------------------------------------------
  // Lines and buckets

  /** `[l.strip() for l in s.split('\n') if l.strip()]`. */
  function CleanLines(s: string): (r: seq<string>)
    ensures forall y :: y in r ==> y != "" && IsStripped(y) && '\n' !in y
  {
    var pieces := SplitOn(s, "\n");
    forall k | 0 <= k < |pieces| ensures '\n' !in pieces[k] {
      NoOccurrenceCharFree(pieces[k], '\n');
    }
    NonBlankStrippedAvoids(pieces, '\n');
    NonBlankStripped(pieces)
  }

  /** Lines joined with "\n" and cleaned come back as their non-blank
      members, stripped, in order. */
  lemma CleanLinesOfJoin(ys: seq<string>)
    requires forall y :: y in ys ==> '\n' !in y
    ensures CleanLines(Join(ys, "\n")) == NonBlankStripped(ys)
  {
    if ys == [] {
      CharFreeSplitsCleanly("", '\n');
      SplitJoinRoundTrip([""], "\n");
      assert NonBlankStripped([""]) == [];
    } else {
      forall y | y in ys ensures SplitsCleanly(y, "\n") {
        CharFreeSplitsCleanly(y, '\n');
      }
      SplitJoinRoundTrip(ys, "\n");
    }
  }

  /** Lines that are already clean survive a join and a clean unchanged. */
  lemma CleanLinesRoundTrip(ys: seq<string>)
    requires forall y :: y in ys ==> y != "" && IsStripped(y) && '\n' !in y
    ensures CleanLines(Join(ys, "\n")) == ys
  {
    CleanLinesOfJoin(ys);
    AllStrippedOf(ys);
    NonBlankStrippedKeeps(ys);
  }

  /** The bucket of every line. */
  function Kinds(lines: seq<string>): (ks: seq<Bucket>)
    ensures |ks| == |lines|
    ensures forall k :: 0 <= k < |lines| ==> ks[k] == ClassifyLine(lines[k])
  {
    seq(|lines|, k requires 0 <= k < |lines| => ClassifyLine(lines[k]))
  }

  /** The lines whose kind is `b`, in order. */
  function Select(lines: seq<string>, kinds: seq<Bucket>, b: Bucket): (r: seq<string>)
    requires |kinds| == |lines|
    ensures |r| <= |lines|
  {
    if |lines| == 0 then []
    else
      var n := |lines| - 1;
      Select(lines[..n], kinds[..n], b) + Keep(lines[n], kinds[n], b)
  }

  /** Reference definition: the lines that go to bucket `b`, in order. */
  function Bucketed(lines: seq<string>, b: Bucket): (r: seq<string>)
    ensures |r| <= |lines|
  {
    Select(lines, Kinds(lines), b)
  }

  /** `[line]` when the kind is the target, else nothing. */
  function Keep(line: string, kind: Bucket, target: Bucket): seq<string> {
    if kind == target then [line] else []
  }

  lemma SelectPrefix(lines: seq<string>, kinds: seq<Bucket>, i: nat, b: Bucket)
    requires |kinds| == |lines| && i < |lines|
    ensures Select(lines[..i + 1], kinds[..i + 1], b) == Select(lines[..i], kinds[..i], b) + Keep(lines[i], kinds[i], b)
  {
    var p := lines[..i + 1];
    var q := kinds[..i + 1];
    assert p[..i] == lines[..i] && q[..i] == kinds[..i];
  }

  lemma {:induction false} SelectSound(lines: seq<string>, kinds: seq<Bucket>, b: Bucket)
    requires |kinds| == |lines|
    ensures forall y :: y in Select(lines, kinds, b) ==> exists k :: 0 <= k < |lines| && lines[k] == y && kinds[k] == b
  {
    if |lines| > 0 {
      var n := |lines| - 1;
      SelectSound(lines[..n], kinds[..n], b);
      forall y | y in Select(lines[..n], kinds[..n], b)
        ensures exists k :: 0 <= k < |lines| && lines[k] == y && kinds[k] == b
      {
        var k :| 0 <= k < n && lines[..n][k] == y && kinds[..n][k] == b;
        assert lines[k] == y && kinds[k] == b;
      }
    }
  }

  /** A bucket holds only lines of the text, each classified into it. */
  lemma BucketedSound(lines: seq<string>, b: Bucket)
    ensures forall y :: y in Bucketed(lines, b) ==> y in lines && ClassifyLine(y) == b
  {
    SelectSound(lines, Kinds(lines), b);
  }

  /** The loop over the lines after the first: each line is appended to the
      list of its kind. The kinds are read from `Kinds`, which applies the
      (side-effect free) line test to every line. */
  method SortLines(lines: seq<string>) returns (designations: seq<string>, companies: seq<string>, addresses: seq<string>)
    ensures designations == Bucketed(lines, DesignationLine)
    ensures companies == Bucketed(lines, CompanyLine)
    ensures addresses == Bucketed(lines, AddressLine)
  {
    var kinds := Kinds(lines);
    designations, companies, addresses := [], [], [];
    var i := 0;
    while i < |lines|
      invariant 0 <= i <= |lines|
      invariant designations == Select(lines[..i], kinds[..i], DesignationLine)
      invariant companies == Select(lines[..i], kinds[..i], CompanyLine)
      invariant addresses == Select(lines[..i], kinds[..i], AddressLine)
    {
      var line := lines[i];
      var b := kinds[i];
      SelectPrefix(lines, kinds, i, DesignationLine);
      SelectPrefix(lines, kinds, i, CompanyLine);
      SelectPrefix(lines, kinds, i, AddressLine);
      designations := designations + Keep(line, b, DesignationLine);
      companies := companies + Keep(line, b, CompanyLine);
      addresses := addresses + Keep(line, b, AddressLine);
      i := i + 1;
    }
    TakeAll(lines);
    TakeAll(kinds);
  }

  /** The positions whose kind is `b`, in increasing order. */
  function Positions(kinds: seq<Bucket>, b: Bucket): (ps: seq<nat>)
    ensures forall m :: 0 <= m < |ps| ==> ps[m] < |kinds| && kinds[ps[m]] == b
    ensures forall m, n :: 0 <= m < n < |ps| ==> ps[m] < ps[n]
    ensures forall k :: 0 <= k < |kinds| && kinds[k] == b ==> k in ps
  {
    if |kinds| == 0 then []
    else
      var n := |kinds| - 1;
      var front := Positions(kinds[..n], b);
      assert forall m :: 0 <= m < |front| ==> kinds[..n][front[m]] == kinds[front[m]];
      front + (if kinds[n] == b then [n] else [])
  }

  /** Appending a line and its position keeps entries and positions in step. */
  lemma IndexedSnoc(lines: seq<string>, n: nat, front: seq<string>, ps: seq<nat>, keep: seq<string>, extra: seq<nat>)
    requires n < |lines| && |front| == |ps|
    requires forall m :: 0 <= m < |ps| ==> ps[m] < n && front[m] == lines[..n][ps[m]]
    requires (keep == [] && extra == []) || (keep == [lines[n]] && extra == [n])
    ensures |front + keep| == |ps + extra|
    ensures forall m :: 0 <= m < |ps + extra| ==> (front + keep)[m] == lines[(ps + extra)[m]]
  {
  }

  lemma {:induction false} SelectAt(lines: seq<string>, kinds: seq<Bucket>, b: Bucket)
    requires |kinds| == |lines|
    ensures |Select(lines, kinds, b)| == |Positions(kinds, b)|
    ensures forall m :: 0 <= m < |Positions(kinds, b)| ==> Select(lines, kinds, b)[m] == lines[Positions(kinds, b)[m]]
  {
    if |lines| > 0 {
      var n := |lines| - 1;
      SelectAt(lines[..n], kinds[..n], b);
      var front := Select(lines[..n], kinds[..n], b);
      var ps := Positions(kinds[..n], b);
      var keep := Keep(lines[n], kinds[n], b);
      var extra: seq<nat> := if kinds[n] == b then [n] else [];
      assert Select(lines, kinds, b) == front + keep;
      assert Positions(kinds, b) == ps + extra;
      IndexedSnoc(lines, n, front, ps, keep, extra);
    }
  }

  /** A bucket lists the lines of its kind in text order: its `m`-th entry is
      the line at the `m`-th position of that kind, and the positions are
      exactly those of the lines of that kind, increasing. */
  lemma BucketedInOrder(lines: seq<string>, b: Bucket)
    ensures var ps := Positions(Kinds(lines), b); var r := Bucketed(lines, b);
      && |r| == |ps|
      && (forall m :: 0 <= m < |r| ==> r[m] == lines[ps[m]] && ClassifyLine(lines[ps[m]]) == b)
      && (forall m, n :: 0 <= m < n < |ps| ==> ps[m] < ps[n])
      && (forall k :: 0 <= k < |lines| && ClassifyLine(lines[k]) == b ==> k in ps)
  {
    SelectAt(lines, Kinds(lines), b);
  }

  lemma {:induction false} SelectSizes(lines: seq<string>, kinds: seq<Bucket>)
    requires |kinds| == |lines|
    ensures |Select(lines, kinds, DesignationLine)| + |Select(lines, kinds, CompanyLine)| + |Select(lines, kinds, AddressLine)| == |lines|
  {
    if |lines| > 0 {
      var n := |lines| - 1;
      SelectSizes(lines[..n], kinds[..n]);
    }
  }

  /** Every line lands in exactly one bucket. */
  lemma BucketSizes(lines: seq<string>)
    ensures |Bucketed(lines, DesignationLine)| + |Bucketed(lines, CompanyLine)| + |Bucketed(lines, AddressLine)| == |lines|
  {
    SelectSizes(lines, Kinds(lines));
  }

  lemma {:induction false} SelectCover(lines: seq<string>, kinds: seq<Bucket>)
    requires |kinds| == |lines|
    ensures forall k :: 0 <= k < |lines| ==> lines[k] in Select(lines, kinds, kinds[k])
  {
    if |lines| > 0 {
      var n := |lines| - 1;
      SelectCover(lines[..n], kinds[..n]);
      forall k | 0 <= k < |lines| ensures lines[k] in Select(lines, kinds, kinds[k]) {
        if k < n {
          assert lines[..n][k] == lines[k] && kinds[..n][k] == kinds[k];
        }
      }
    }
  }

  /** Each line is in the bucket it is classified into. */
  lemma BucketsCover(lines: seq<string>)
    ensures forall y :: y in lines ==> y in Bucketed(lines, ClassifyLine(y))
  {
    SelectCover(lines, Kinds(lines));
  }

  lemma {:induction false} SelectFirst(lines: seq<string>, kinds: seq<Bucket>, b: Bucket)
    requires |kinds| == |lines| && Select(lines, kinds, b) != []
    ensures exists k :: 0 <= k < |lines| && lines[k] == Select(lines, kinds, b)[0] && kinds[k] == b
                        && forall j :: 0 <= j < k ==> kinds[j] != b
  {
    var n := |lines| - 1;
    var init := lines[..n];
    var kinit := kinds[..n];
    var front := Select(init, kinit, b);
    assert Select(lines, kinds, b) == front + Keep(lines[n], kinds[n], b);
    if front != [] {
      SelectFirst(init, kinit, b);
      var k :| 0 <= k < n && init[k] == front[0] && kinit[k] == b
               && forall j :: 0 <= j < k ==> kinit[j] != b;
      assert Select(lines, kinds, b)[0] == front[0];
      assert lines[k] == init[k] && kinds[k] == kinit[k];
      forall j | 0 <= j < k ensures kinds[j] != b {
        assert kinds[j] == kinit[j];
      }
    } else {
      SelectCover(init, kinit);
      assert kinds[n] == b && Select(lines, kinds, b)[0] == lines[n];
      forall j | 0 <= j < n ensures kinds[j] != b {
        assert kinds[j] == kinit[j];
      }
    }
  }

  /** The first line of a bucket is the earliest line classified into it. */
  lemma BucketedFirst(lines: seq<string>, b: Bucket)
    requires Bucketed(lines, b) != []
    ensures exists k :: 0 <= k < |lines| && lines[k] == Bucketed(lines, b)[0]
                        && forall j :: 0 <= j < k ==> ClassifyLine(lines[j]) != b
  {
    SelectFirst(lines, Kinds(lines), b);
  }

  /** `xs[0] if xs else ''`. */
  function FirstOr(xs: seq<string>): string {
    if |xs| == 0 then "" else xs[0]
  }

  // ---------------------------------------------------------------------------
  // The whole text

  /** The text with every phone match, then every email match, then every
      website match removed: the text with characters deleted, and the text
      itself when none of the three patterns matches anywhere in it. */
  function Residual(text: string): (r: string)
    ensures IsSubsequence(r, text)
    ensures MatchesNowhere(text) ==> r == text
  {
    var a := Sub(PhonePattern, text);
    var b := Sub(EmailPattern, a);
    SubsequenceTrans(b, a, text);
    SubsequenceTrans(Sub(WebsitePattern, b), b, text);
    Sub(WebsitePattern, b)
  }

  /** The cleaned lines after the first one, the lines the heuristics sort. */
  function OtherLines(text: string): seq<string> {
    var lines := CleanLines(Residual(text));
    if |lines| == 0 then [] else lines[1..]
  }

  /** What the phone search reports, blank captures dropped. */
  function Phones(text: string): seq<string> {
    NonBlank(FindAll(PhonePattern, text))
  }

  /** The phone pattern has one group, so `re.findall` reports the country
      code: every phone entry is a one-to-three-digit code, never a number
      that `validate_phone` accepts. */
  lemma PhonesAreCountryCodes(text: string)
    ensures forall p :: p in Phones(text) ==> IsCountryCode(p) && !ValidatePhone(p)
  {
    forall p | p in Phones(text) ensures IsCountryCode(p) && !ValidatePhone(p) {
      assert p in FindAll(PhonePattern, text) && !IsBlank(p);
      CountryCodeIsNotAPhone(p);
    }
  }

  lemma EmailsValidate(text: string)
    ensures forall e :: e in FindAll(EmailPattern, text) ==> ValidateEmail(e)
  {
    forall e | e in FindAll(EmailPattern, text) ensures ValidateEmail(e) {
      ExtractedEmailValidates(e);
    }
  }

  lemma WebsitesValidate(text: string)
    ensures forall w :: w in FindAll(WebsitePattern, text) ==> ValidateWebsite(w) && !HasScheme(w)
  {
    forall w | w in FindAll(WebsitePattern, text) ensures ValidateWebsite(w) && !HasScheme(w) {
      ExtractedWebsiteValidates(w);
    }
  }

  /** `classify_text`. A blank text gives the empty card; otherwise the
      searches run on the whole text and the heuristics on what is left. */
  function ClassifyText(text: string): (c: Card)
    ensures IsBlank(text) ==> c == EmptyCard
    ensures forall p :: p in c.phone ==> IsCountryCode(p) && !ValidatePhone(p)
    ensures forall e :: e in c.email ==> ValidateEmail(e)
    ensures forall w :: w in c.website ==> ValidateWebsite(w) && !HasScheme(w)
    ensures c.name != "" ==> IsStripped(c.name) && '\n' !in c.name
    ensures c.designation != "" ==> ClassifyLine(c.designation) == DesignationLine
    ensures c.company != "" ==> ClassifyLine(c.company) == CompanyLine
  {
    if IsBlank(text) then EmptyCard
    else
      PhonesAreCountryCodes(text);
      EmailsValidate(text);
      WebsitesValidate(text);
      var lines := CleanLines(Residual(text));
      var rest := OtherLines(text);
      var designations := Bucketed(rest, DesignationLine);
      var companies := Bucketed(rest, CompanyLine);
      BucketedSound(rest, DesignationLine);
      BucketedSound(rest, CompanyLine);
      assert designations != [] ==> designations[0] in designations;
      assert companies != [] ==> companies[0] in companies;
      Card(FirstOr(lines), FirstOr(designations), FirstOr(companies),
           Phones(text), FindAll(EmailPattern, text), FindAll(WebsitePattern, text),
           Join(Bucketed(rest, AddressLine), ListSep))
  }

  /** The designation and the company are the earliest lines of their kind
      among the lines after the name. */
  lemma FirstOfKindWins(text: string)
    requires !IsBlank(text)
    ensures var c := ClassifyText(text); var rest := OtherLines(text);
      (c.designation == "" <==> forall y :: y in rest ==> ClassifyLine(y) != DesignationLine)
      && (c.designation != "" ==> exists k :: (0 <= k < |rest| && rest[k] == c.designation
            && forall j :: 0 <= j < k ==> ClassifyLine(rest[j]) != DesignationLine))
      && (c.company == "" <==> forall y :: y in rest ==> ClassifyLine(y) != CompanyLine)
      && (c.company != "" ==> exists k :: (0 <= k < |rest| && rest[k] == c.company
            && forall j :: 0 <= j < k ==> ClassifyLine(rest[j]) != CompanyLine))
  {
    var rest := OtherLines(text);
    BucketsCover(rest);
    BucketedSound(rest, DesignationLine);
    BucketedSound(rest, CompanyLine);
    CleanLinesTail(text);
    var ds := Bucketed(rest, DesignationLine);
    var cs := Bucketed(rest, CompanyLine);
    if ds != [] {
      BucketedFirst(rest, DesignationLine);
      assert ds[0] in ds;
    }
    if cs != [] {
      BucketedFirst(rest, CompanyLine);
      assert cs[0] in cs;
    }
  }

  lemma CleanLinesTail(text: string)
    ensures forall y :: y in OtherLines(text) ==> y != ""
  {
    var lines := CleanLines(Residual(text));
    if |lines| > 0 {
      assert forall y :: y in lines[1..] ==> y in lines;
    }
  }

  /** The name is the first cleaned line of what the searches left, whatever
      it says; the heuristics sort the lines after it. */
  lemma NameIsFirstLine(text: string)
    requires !IsBlank(text)
    ensures var lines := CleanLines(Residual(text));
      && (lines != [] ==> ClassifyText(text).name == lines[0] && OtherLines(text) == lines[1..])
      && (lines == [] ==> ClassifyText(text).name == "" && OtherLines(text) == [])
  {
  }

  /** The address is the address lines, in text order (`BucketedInOrder`),
      joined with ", ". */
  lemma AddressValue(text: string)
    requires !IsBlank(text)
    ensures ClassifyText(text).address == Join(Bucketed(OtherLines(text), AddressLine), ", ")
  {
  }

  /** A card whose text is clean lines in which no pattern matches anywhere:
      the name is its first line, the other lines are sorted, and the
      address is the address lines among them joined with ", ". */
  lemma PlainLinesCard(ys: seq<string>)
    requires ys != []
    requires forall y :: y in ys ==> y != "" && IsStripped(y) && '\n' !in y
    requires MatchesNowhere(Join(ys, "\n"))
    ensures ClassifyText(Join(ys, "\n")).name == ys[0]
    ensures OtherLines(Join(ys, "\n")) == ys[1..]
    ensures ClassifyText(Join(ys, "\n")).address == Join(Bucketed(ys[1..], AddressLine), ", ")
  {
    var text := Join(ys, "\n");
    assert ys[0] in ys;
    JoinHead(ys, "\n");
    assert !IsBlank(text);
    assert Residual(text) == text;
    CleanLinesRoundTrip(ys);
    NameIsFirstLine(text);
    AddressValue(text);
  }

  /** The address is empty exactly when no line went to the address. */
  lemma AddressJoinsAddressLines(text: string)
    requires !IsBlank(text)
    ensures ClassifyText(text).address == "" <==> forall y :: y in OtherLines(text) ==> ClassifyLine(y) != AddressLine
  {
    var rest := OtherLines(text);
    var a := Bucketed(rest, AddressLine);
    CleanLinesTail(text);
    BucketsCover(rest);
    BucketedSound(rest, AddressLine);
    JoinEmptyIff(a, ListSep);
    if a != [] {
      assert a[0] in a;
    }
  }
}
