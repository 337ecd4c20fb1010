/** `check_duplicates` (database.py:121-215): which stored contacts share a
    name, a phone token or an email token with a candidate card, after
    trimming and lower-casing. The stored contacts are passed in, in the order
    the store lists them; `None` stands for a store that could not be read. */
module Duplicates {
  import opened Wrappers
  import opened Text
  import opened Records

  /** The three kinds of match, in the order they are reported. */
  datatype Field = NameField | PhoneField | EmailField

  function Rank(f: Field): nat {
    match f
    case NameField => 0
    case PhoneField => 1
    case EmailField => 2
  }

  /** A stored contact that matched, with the kinds it matched on. */
  datatype DuplicateEntry = DuplicateEntry(contact: Contact, matchFields: seq<Field>)

  datatype Report = Report(hasDuplicates: bool, duplicates: seq<DuplicateEntry>, duplicateFields: set<Field>)

  const NoDuplicates: Report := Report(false, [], {})

  // ---------------------------------------------------------------------------
  // Keys

  /** `name.strip().lower()`. */
  function NameKey(name: string): string {
    Lower(Strip(name))
  }

  /** The candidate's keys: `[x.strip().lower() for x in xs if x.strip()]`. */
  function CandidateKeys(xs: seq<string>): seq<string> {
    LowerAll(NonBlankStripped(xs))
  }

  /** A stored column's keys: its comma tokens, trimmed and lower-cased. */
  function StoredKeys(s: string): seq<string> {
    LowerAll(Tokens(s))
  }

  /** Some key occurs in both lists. */
  function SharesKey(a: seq<string>, b: seq<string>): (r: bool)
    ensures r <==> exists t :: t in a && t in b
  {
    if |a| == 0 then false
    else if a[0] in b then true
    else
      assert forall t :: t in a ==> t == a[0] || t in a[1..];
      SharesKey(a[1..], b)
  }

  predicate NameMatches(c: Card, row: Row) {
    NameKey(c.name) != "" && NameKey(c.name) == NameKey(row.name)
  }

  /** The kinds whose flag is set, each once, in report order. */
  function FieldList(name: bool, phone: bool, email: bool): (r: seq<Field>)
    ensures NameField in r <==> name
    ensures PhoneField in r <==> phone
    ensures EmailField in r <==> email
    ensures forall i, j :: 0 <= i < j < |r| ==> Rank(r[i]) < Rank(r[j])
  {
    (if name then [NameField] else [])
    + (if phone then [PhoneField] else [])
    + (if email then [EmailField] else [])
  }

  /** `match_fields` for one stored row. */
  function Matches(c: Card, row: Row): (r: seq<Field>)
    ensures NameField in r <==> NameMatches(c, row)
    ensures PhoneField in r <==> exists t :: t in CandidateKeys(c.phone) && t in StoredKeys(row.phone)
    ensures EmailField in r <==> exists t :: t in CandidateKeys(c.email) && t in StoredKeys(row.email)
    ensures forall i, j :: 0 <= i < j < |r| ==> Rank(r[i]) < Rank(r[j])
  {
    FieldList(NameMatches(c, row),
              SharesKey(CandidateKeys(c.phone), StoredKeys(row.phone)),
              SharesKey(CandidateKeys(c.email), StoredKeys(row.email)))
  }

  /** The entry one stored contact contributes: itself with its match fields, or nothing. */
  function Entry(c: Card, x: Contact): seq<DuplicateEntry> {
    var m := Matches(c, x.row);
    if m != [] then [DuplicateEntry(x, m)] else []
  }

  /** Reference definition: the matching contacts with their match fields, in store order. */
  function Flagged(c: Card, xs: seq<Contact>): (r: seq<DuplicateEntry>)
    ensures |r| <= |xs|
    ensures forall e :: e in r ==> e.contact in xs && e.matchFields == Matches(c, e.contact.row) && e.matchFields != []
  {
    if |xs| == 0 then []
    else
      var init := xs[..|xs| - 1];
      assert forall x :: x in init ==> x in xs;
      Flagged(c, init) + Entry(c, xs[|xs| - 1])
  }

  lemma FlaggedLast(c: Card, xs: seq<Contact>)
    requires |xs| > 0
    ensures Flagged(c, xs) == Flagged(c, xs[..|xs| - 1]) + Entry(c, xs[|xs| - 1])
  {
  }

  lemma FlaggedPrefix(c: Card, xs: seq<Contact>, i: nat)
    requires i < |xs|
    ensures Flagged(c, xs[..i + 1]) == Flagged(c, xs[..i]) + Entry(c, xs[i])
  {
    var p := xs[..i + 1];
    assert p[..|p| - 1] == xs[..i];
    assert p[|p| - 1] == xs[i];
    FlaggedLast(c, p);
  }

  /** The kinds that occur in any entry. */
  function FieldsOf(ds: seq<DuplicateEntry>): set<Field> {
    set e, f | e in ds && f in e.matchFields :: f
  }

  lemma FieldsOfAppend(ds: seq<DuplicateEntry>, es: seq<DuplicateEntry>)
    ensures FieldsOf(ds + es) == FieldsOf(ds) + FieldsOf(es)
  {
    forall f | f in FieldsOf(ds + es) ensures f in FieldsOf(ds) + FieldsOf(es) {
      var e :| e in ds + es && f in e.matchFields;
      if e in ds {
        assert f in FieldsOf(ds);
      } else {
        assert f in FieldsOf(es);
      }
    }
    forall f | f in FieldsOf(ds) + FieldsOf(es) ensures f in FieldsOf(ds + es) {
      if f in FieldsOf(ds) {
        var e :| e in ds && f in e.matchFields;
        assert e in ds + es;
      } else {
        var e :| e in es && f in e.matchFields;
        assert e in ds + es;
      }
    }
  }

  /** `check_duplicates`. */
  method CheckDuplicates(c: Card, store: Option<seq<Contact>>) returns (report: Report)
    ensures store.None? || store == Some([]) ==> report == NoDuplicates
    ensures store.Some? ==> report.duplicates == Flagged(c, store.value)
    ensures report.hasDuplicates <==> report.duplicates != []
    ensures forall f :: f in report.duplicateFields <==> exists e :: e in report.duplicates && f in e.matchFields
  {
    if store.None? || |store.value| == 0 {
      return NoDuplicates;
    }
    var xs := store.value;
    var dups: seq<DuplicateEntry> := [];
    var fields: set<Field> := {};
    var i := 0;
    while i < |xs|
      invariant 0 <= i <= |xs|
      invariant dups == Flagged(c, xs[..i])
      invariant fields == FieldsOf(dups)
    {
      FlaggedPrefix(c, xs, i);
      var step := Entry(c, xs[i]);
      FieldsOfAppend(dups, step);
      dups := dups + step;
      fields := fields + FieldsOf(step);
      i := i + 1;
    }
    assert xs[..i] == xs;
    report := Report(|dups| > 0, dups, fields);
  }

  // ---------------------------------------------------------------------------
  // Properties

  /** Every contact whose match fields are non-empty is reported, and with its match fields. */
  lemma {:induction false} FlaggedComplete(c: Card, xs: seq<Contact>, k: nat)
    requires k < |xs| && Matches(c, xs[k].row) != []
    ensures DuplicateEntry(xs[k], Matches(c, xs[k].row)) in Flagged(c, xs)
  {
    if k < |xs| - 1 {
      assert xs[..|xs| - 1][k] == xs[k];
      FlaggedComplete(c, xs[..|xs| - 1], k);
    }
  }

  /** The report over a concatenated store is the two reports in sequence:
      entries keep the store order and each contact contributes once. */
  lemma {:induction false} FlaggedAppend(c: Card, xs: seq<Contact>, ys: seq<Contact>)
    ensures Flagged(c, xs + ys) == Flagged(c, xs) + Flagged(c, ys)
    decreases |ys|
  {
    if |ys| == 0 {
      assert xs + ys == xs;
    } else {
      var zs := xs + ys;
      var yi := ys[..|ys| - 1];
      var last := ys[|ys| - 1];
      assert zs[..|zs| - 1] == xs + yi;
      assert zs[|zs| - 1] == last;
      FlaggedLast(c, zs);
      FlaggedLast(c, ys);
      FlaggedAppend(c, xs, yi);
      SeqAssoc(Flagged(c, xs), Flagged(c, yi), Entry(c, last));
    }
  }

  /** A stored copy of the card is reported on its name when the name is not blank. */
  lemma StoredCopyMatchesName(c: Card)
    requires !IsBlank(c.name)
    ensures NameField in Matches(c, StoreRow(c))
  {
  }

  /** A stored copy of the card is reported on phone (and on email) when the
      card has a non-blank phone (email) and none of them holds a comma. */
  lemma StoredCopyMatchesLists(c: Card)
    requires AllCommaFree(c.phone) && AllCommaFree(c.email)
    ensures CandidateKeys(c.phone) != [] ==> PhoneField in Matches(c, StoreRow(c))
    ensures CandidateKeys(c.email) != [] ==> EmailField in Matches(c, StoreRow(c))
  {
    FlattenedTokens(c.phone);
    FlattenedTokens(c.email);
    if CandidateKeys(c.phone) != [] {
      assert CandidateKeys(c.phone)[0] in StoredKeys(StoreRow(c).phone);
    }
    if CandidateKeys(c.email) != [] {
      assert CandidateKeys(c.email)[0] in StoredKeys(StoreRow(c).email);
    }
  }

  /** Matching is by whole tokens: with one phone on each side, they match
      exactly when they are equal after lower-casing, so "555-1234" does not
      match a stored "555-12345". */
  lemma WholeTokenPhoneMatch(c: Card, row: Row)
    requires |c.phone| == 1 && c.phone[0] != "" && IsStripped(c.phone[0])
    requires row.phone != "" && IsStripped(row.phone) && ',' !in row.phone
    ensures PhoneField in Matches(c, row) <==> Lower(c.phone[0]) == Lower(row.phone)
  {
    var p := c.phone[0];
    var t := row.phone;
    assert Flatten([t]) == t;
    assert AllCommaFree([t]);
    FlattenedTokens([t]);
    assert AllStripped([t]) && AllStripped([p]);
    NonBlankStrippedKeeps([t]);
    NonBlankStrippedKeeps([p]);
    assert c.phone == [p];
    assert StoredKeys(t) == [Lower(t)];
    assert CandidateKeys(c.phone) == [Lower(p)];
  }

  /** A candidate with no name, phone or email is never a duplicate. */
  lemma EmptyCardMatchesNothing(row: Row)
    ensures Matches(EmptyCard, row) == []
  {
    assert Strip("") == "";
  }
}
