/** The contact record in its three forms: the card dictionary that the
    classifier produces (lists for phone, email and website), the row of the
    `contacts` table (those lists flattened with ", "), and the dictionary a
    fetch by id rebuilds from a row (database.py:217-237, 408-441, 481-522). */
module Records {
  import opened Wrappers
  import opened Text

  /** The separator `store_in_db` and `update_contact` flatten lists with. */
  const ListSep: string := ", "

  /** The dictionary `classify_text` returns and `store_in_db` receives. */
  datatype Card = Card(
    name: string,
    designation: string,
    company: string,
    phone: seq<string>,
    email: seq<string>,
    website: seq<string>,
    address: string)

  const EmptyCard: Card := Card("", "", "", [], [], [], "")

  /** The seven text columns of a `contacts` row; `id` and `created_at` are kept beside it. */
  datatype Row = Row(
    name: string,
    designation: string,
    company: string,
    phone: string,
    email: string,
    website: string,
    address: string)

  /** A stored contact: its primary key and its row. */
  datatype Contact = Contact(id: int, row: Row)

  // ---------------------------------------------------------------------------
  // Flatten on store, split on fetch

  /** `', '.join(xs)`: empty only for no entries or one empty entry, and
      every entry survives in it. */
  function Flatten(xs: seq<string>): (r: string)
    ensures r == "" <==> xs == [] || xs == [""]
    ensures forall k :: 0 <= k < |xs| ==> |xs[k]| <= |r|
    ensures forall k :: 0 <= k < |xs| ==> Occurs(r, xs[k])
  {
    JoinLengths(xs, ListSep);
    JoinHoldsEntries(xs, ListSep);
    Join(xs, ListSep)
  }

  lemma {:induction false} JoinLengths(xs: seq<string>, sep: string)
    ensures |xs| >= 2 ==> |Join(xs, sep)| >= |sep|
    ensures forall k :: 0 <= k < |xs| ==> |xs[k]| <= |Join(xs, sep)|
  {
    if |xs| >= 2 {
      JoinLengths(xs[1..], sep);
      assert forall k :: 1 <= k < |xs| ==> xs[k] == xs[1..][k - 1];
    }
  }

  /** `s.split(', ') if s else []`, the conversion a fetch by id applies. */
  function Unflatten(s: string): (r: seq<string>)
    ensures r == [] <==> s == ""
    ensures Flatten(r) == s
    ensures forall x :: x in r ==> !Occurs(x, ListSep)
  {
    if s == "" then [] else SplitOn(s, ListSep)
  }

  /** A list survives being stored and fetched back exactly when it is not the
      single empty string and none of its entries contains ", ". */
  predicate ListRoundTrips(xs: seq<string>) {
    xs != [""] && forall k :: 0 <= k < |xs| ==> !Contains(xs[k], ListSep)
  }

  lemma {:induction false} UnflattenFlatten(xs: seq<string>)
    ensures Unflatten(Flatten(xs)) == xs <==> ListRoundTrips(xs)
  {
    if xs == [] || xs == [""] {
    } else if forall k :: 0 <= k < |xs| ==> !Contains(xs[k], ListSep) {
      forall x | x in xs ensures SplitsCleanly(x, ListSep) {
        CommaSpaceFreeSplitsCleanly(x);
      }
      SplitJoinRoundTrip(xs, ListSep);
      assert Flatten(xs) != "" by {
        if |xs| == 1 {
          assert Flatten(xs) == xs[0];
        } else {
          assert |Flatten(xs)| >= |ListSep|;
        }
      }
    } else {
      var k :| 0 <= k < |xs| && Contains(xs[k], ListSep);
      assert xs[k] in xs;
      assert xs[k] !in Unflatten(Flatten(xs));
    }
  }

  /** The row `store_in_db` appends for a card. */
  function StoreRow(c: Card): (r: Row)
    ensures r.name == c.name && r.designation == c.designation
    ensures r.company == c.company && r.address == c.address
    ensures ListRoundTrips(c.phone) ==> Unflatten(r.phone) == c.phone
    ensures ListRoundTrips(c.email) ==> Unflatten(r.email) == c.email
    ensures ListRoundTrips(c.website) ==> Unflatten(r.website) == c.website
  {
    UnflattenFlatten(c.phone);
    UnflattenFlatten(c.email);
    UnflattenFlatten(c.website);
    Row(c.name, c.designation, c.company, Flatten(c.phone), Flatten(c.email), Flatten(c.website), c.address)
  }

  /** The dictionary a fetch by id rebuilds from a row. */
  function FetchCard(r: Row): (c: Card)
    ensures c.name == r.name && c.designation == r.designation
    ensures c.company == r.company && c.address == r.address
    ensures StoreRow(c) == r
  {
    Card(r.name, r.designation, r.company, Unflatten(r.phone), Unflatten(r.email), Unflatten(r.website), r.address)
  }

  predicate CardRoundTrips(c: Card) {
    ListRoundTrips(c.phone) && ListRoundTrips(c.email) && ListRoundTrips(c.website)
  }

  /** Storing a card and fetching it back gives the card, exactly when each of
      its three lists round-trips. */
  lemma StoreFetchRoundTrip(c: Card)
    ensures FetchCard(StoreRow(c)) == c <==> CardRoundTrips(c)
  {
    UnflattenFlatten(c.phone);
    UnflattenFlatten(c.email);
    UnflattenFlatten(c.website);
  }

  // ---------------------------------------------------------------------------
  // update_contact's parameter preparation

  /** A dictionary value: a plain string or a list of strings. */
  datatype FieldValue = Text(s: string) | Items(xs: seq<string>)

  /** The `data` dictionary of `update_contact`; `None` is a missing key. */
  datatype UpdateRequest = UpdateRequest(
    name: Option<string>,
    designation: Option<string>,
    company: Option<string>,
    phone: Option<FieldValue>,
    email: Option<FieldValue>,
    website: Option<FieldValue>,
    address: Option<string>)

  /** What a multi-valued column holds after `update_contact` wrote `v` into
      it: "" for a missing key, the string itself, or a column that a fetch
      splits back into the list whenever the list round-trips. */
  predicate WritesField(v: Option<FieldValue>, col: string) {
    match v
    case None => col == ""
    case Some(Text(s)) => col == s
    case Some(Items(xs)) => ListRoundTrips(xs) ==> Unflatten(col) == xs
  }

  /** A list value is joined with ", ", a string passes through, a missing key is "". */
  function UpdateField(v: Option<FieldValue>): (r: string)
    ensures WritesField(v, r)
  {
    match v
    case None => ""
    case Some(Items(xs)) =>
      UnflattenFlatten(xs);
      Flatten(xs)
    case Some(Text(s)) => s
  }

  /** The bound parameters `update_contact` writes over the row. */
  function UpdateRow(u: UpdateRequest): (r: Row)
    ensures r.name == u.name.GetOr("") && r.address == u.address.GetOr("")
    ensures r.designation == u.designation.GetOr("") && r.company == u.company.GetOr("")
    ensures WritesField(u.phone, r.phone) && WritesField(u.email, r.email) && WritesField(u.website, r.website)
  {
    Row(u.name.GetOr(""), u.designation.GetOr(""), u.company.GetOr(""),
        UpdateField(u.phone), UpdateField(u.email), UpdateField(u.website), u.address.GetOr(""))
  }

  /** A card passed to `update_contact` as a dictionary. */
  function CardRequest(c: Card): UpdateRequest {
    UpdateRequest(Some(c.name), Some(c.designation), Some(c.company),
                  Some(Items(c.phone)), Some(Items(c.email)), Some(Items(c.website)), Some(c.address))
  }

  /** A row passed to `update_contact` as a dictionary of strings. */
  function RowRequest(r: Row): UpdateRequest {
    UpdateRequest(Some(r.name), Some(r.designation), Some(r.company),
                  Some(Text(r.phone)), Some(Text(r.email)), Some(Text(r.website)), Some(r.address))
  }

  /** Updating with a card writes the same row as storing it. */
  lemma UpdateAgreesWithStore(c: Card)
    ensures UpdateRow(CardRequest(c)) == StoreRow(c)
  {
  }

  /** Updating with an all-string dictionary writes it unchanged. */
  lemma UpdateWithStringsIsIdentity(r: Row)
    ensures UpdateRow(RowRequest(r)) == r
  {
  }

  /** An empty dictionary blanks every column. */
  lemma UpdateWithNothingBlanks()
    ensures UpdateRow(UpdateRequest(None, None, None, None, None, None, None)) == Row("", "", "", "", "", "", "")
  {
  }

  // ---------------------------------------------------------------------------
  // Comma tokens of a stored multi-value column

  /** `[t.strip() for t in s.split(',') if t.strip()]`. */
  function Tokens(s: string): (r: seq<string>)
    ensures forall t :: t in r ==> t != "" && IsStripped(t) && ',' !in t
  {
    var pieces := SplitOn(s, ",");
    forall k | 0 <= k < |pieces| ensures ',' !in pieces[k] {
      NoOccurrenceCharFree(pieces[k], ',');
    }
    NonBlankStrippedAvoids(pieces, ',');
    NonBlankStripped(pieces)
  }

  /** No entry holds a comma (recursive, so that it unfolds only where asked). */
  predicate AllCommaFree(ys: seq<string>) {
    |ys| == 0 || (',' !in ys[0] && AllCommaFree(ys[1..]))
  }

  /** The tokens of a flattened list are its non-blank entries, stripped, in
      order, as long as no entry holds a comma (`pad` is the blank that
      follows each comma of the separator). */
  lemma {:induction false} TokensOfPaddedJoin(pad: string, ys: seq<string>)
    requires IsBlank(pad) && ',' !in pad && AllCommaFree(ys)
    ensures Tokens(pad + Flatten(ys)) == NonBlankStripped(ys)
    decreases |ys|
  {
    if |ys| == 0 {
      assert pad + Flatten(ys) == pad;
      CommaFreeSplitsCleanly(pad);
      SplitJoinRoundTrip([pad], ",");
      assert NonBlankStripped([pad]) == [];
    } else if |ys| == 1 {
      var s := pad + ys[0];
      assert pad + Flatten(ys) == s;
      assert ',' !in s;
      CommaFreeSplitsCleanly(s);
      SplitJoinRoundTrip([s], ",");
      StripBlankPrefix(pad, ys[0]);
      assert NonBlankStripped([s]) == NonBlankStripped(ys);
    } else {
      var x := pad + ys[0];
      var rest := Flatten(ys[1..]);
      assert pad + Flatten(ys) == x + "," + (" " + rest);
      assert ',' !in x;
      CommaFreeSplitsCleanly(x);
      SplitCons(x, " " + rest, ",");
      var tail := SplitOn(" " + rest, ",");
      TokensOfPaddedJoin(" ", ys[1..]);
      assert NonBlankStripped(tail) == NonBlankStripped(ys[1..]);
      StripBlankPrefix(pad, ys[0]);
      var head := if Strip(x) != "" then [Strip(x)] else [];
      assert NonBlankStripped([x] + tail) == head + NonBlankStripped(tail) by {
        assert ([x] + tail)[0] == x;
        assert ([x] + tail)[1..] == tail;
      }
      assert NonBlankStripped(ys) == head + NonBlankStripped(ys[1..]);
    }
  }

  lemma FlattenedTokens(ys: seq<string>)
    requires AllCommaFree(ys)
    ensures Tokens(Flatten(ys)) == NonBlankStripped(ys)
  {
    assert "" + Flatten(ys) == Flatten(ys);
    TokensOfPaddedJoin("", ys);
  }
}
