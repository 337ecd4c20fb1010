/** `merge_contacts` (database.py:524-602) with the store operations it relies
    on: fetching by id (database.py:408-441), `update_contact`
    (database.py:481-522) and `delete_contact` (database.py:443-460). The
    field rules work on the flattened column strings, the form the merge code
    reads them in. Whether the update or the delete fails is a parameter. */
module Merge {
  import opened Wrappers
  import opened Text
  import opened Records

  // ---------------------------------------------------------------------------
  // Field rules

  /** `a if len(a) >= len(b) else b` on the stripped values. */
  function Longer(a: string, b: string): (r: string)
    ensures r == Strip(a) || r == Strip(b)
    ensures |r| >= |Strip(a)| && |r| >= |Strip(b)|
    ensures |Strip(a)| >= |Strip(b)| ==> r == Strip(a)
  {
    var x := Strip(a);
    var y := Strip(b);
    if |x| >= |y| then x else y
  }

  /** `list(set(xs))`. Python leaves the order open; this picks first occurrences. */
  function Dedup(xs: seq<string>): (r: seq<string>)
    ensures forall x :: x in r <==> x in xs
    ensures forall i, j :: 0 <= i < j < |r| ==> r[i] != r[j]
    ensures |r| <= |xs|
  {
    if |xs| == 0 then []
    else
      var d := Dedup(xs[..|xs| - 1]);
      var x := xs[|xs| - 1];
      assert forall y :: y in xs <==> y in xs[..|xs| - 1] || y == x by {
        assert xs == xs[..|xs| - 1] + [x];
      }
      if x in d then d else d + [x]
  }

  /** `m` is the stripped longer one of `a` and `b`, the first on a tie. */
  predicate KeepsLonger(m: string, a: string, b: string) {
    && (m == Strip(a) || m == Strip(b))
    && |m| >= |Strip(a)| && |m| >= |Strip(b)|
    && (|Strip(a)| >= |Strip(b)| ==> m == Strip(a))
  }

  /** `u` is its tokens joined with ", ", and those are the tokens of `a` or `b`, each once. */
  ghost predicate IsTokenUnion(u: string, a: string, b: string) {
    && u == Flatten(Tokens(u))
    && (forall t :: t in Tokens(u) <==> t in Tokens(a) || t in Tokens(b))
    && (forall i, j :: 0 <= i < j < |Tokens(u)| ==> Tokens(u)[i] != Tokens(u)[j])
  }

  /** The comma tokens of both sides, each once, joined with ", ". */
  function UnionTokens(a: string, b: string): (u: string)
    ensures IsTokenUnion(u, a, b)
  {
    var ys := Dedup(Tokens(a) + Tokens(b));
    assert forall t :: t in ys ==> t in Tokens(a) || t in Tokens(b);
    AllCommaFreeOf(ys);
    AllStrippedOf(ys);
    FlattenedTokens(ys);
    NonBlankStrippedKeeps(ys);
    Flatten(ys)
  }

  /** The merged row: the longer text for the four single-valued columns, the
      token union for the three multi-valued ones. */
  function MergeRows(r1: Row, r2: Row): (m: Row)
    ensures KeepsLonger(m.name, r1.name, r2.name) && KeepsLonger(m.designation, r1.designation, r2.designation)
    ensures KeepsLonger(m.company, r1.company, r2.company) && KeepsLonger(m.address, r1.address, r2.address)
    ensures IsTokenUnion(m.phone, r1.phone, r2.phone) && IsTokenUnion(m.email, r1.email, r2.email)
    ensures IsTokenUnion(m.website, r1.website, r2.website)
  {
    Row(Longer(r1.name, r2.name), Longer(r1.designation, r2.designation), Longer(r1.company, r2.company),
        UnionTokens(r1.phone, r2.phone), UnionTokens(r1.email, r2.email), UnionTokens(r1.website, r2.website),
        Longer(r1.address, r2.address))
  }

  lemma {:induction false} AllCommaFreeOf(ys: seq<string>)
    requires forall t :: t in ys ==> ',' !in t
    ensures AllCommaFree(ys)
  {
    if |ys| > 0 {
      assert ys[0] in ys;
      assert forall t :: t in ys[1..] ==> t in ys;
      AllCommaFreeOf(ys[1..]);
    }
  }

  /** Merging is symmetric on the token sets. */
  lemma UnionTokensSymmetric(a: string, b: string)
    ensures forall t :: t in Tokens(UnionTokens(a, b)) <==> t in Tokens(UnionTokens(b, a))
  {
    assert IsTokenUnion(UnionTokens(a, b), a, b);
    assert IsTokenUnion(UnionTokens(b, a), b, a);
  }

  /** The longer value wins whichever side it is on; on a tie the first side's is kept. */
  lemma LongerPrefersFirstOnTie(a: string, b: string)
    requires |Strip(a)| == |Strip(b)|
    ensures Longer(a, b) == Strip(a) && Longer(b, a) == Strip(b)
  {
  }

  /** Merging a row with a blank one loses no token and keeps the row's own stripped texts. */
  lemma MergeWithBlank(r: Row)
    ensures var m := MergeRows(r, Row("", "", "", "", "", "", ""));
      m.name == Strip(r.name) && m.company == Strip(r.company)
      && m.designation == Strip(r.designation) && m.address == Strip(r.address)
      && (forall t :: t in Tokens(m.phone) <==> t in Tokens(r.phone))
      && (forall t :: t in Tokens(m.email) <==> t in Tokens(r.email))
      && (forall t :: t in Tokens(m.website) <==> t in Tokens(r.website))
  {
    assert Strip("") == "";
    assert Tokens("") == [] by {
      CommaFreeSplitsCleanly("");
      SplitJoinRoundTrip([""], ",");
    }
  }

  // ---------------------------------------------------------------------------
  // The store and the merge

  /** The first contact with this id: a fetch by id. */
  function Lookup(store: seq<Contact>, id: int): (r: Option<Contact>)
    ensures r.Some? ==> r.value in store && r.value.id == id
    ensures r.None? ==> forall x :: x in store ==> x.id != id
  {
    if |store| == 0 then None
    else if store[0].id == id then Some(store[0])
    else
      assert forall x :: x in store ==> x == store[0] || x in store[1..];
      Lookup(store[1..], id)
  }

  /** `UPDATE ... WHERE id = :id`: every contact with this id gets the new row. */
  function UpdateStore(store: seq<Contact>, id: int, row: Row): (r: seq<Contact>)
    ensures |r| == |store|
    ensures forall k :: 0 <= k < |store| ==> r[k].id == store[k].id
    ensures forall k :: 0 <= k < |store| ==> r[k].row == (if store[k].id == id then row else store[k].row)
  {
    if |store| == 0 then []
    else
      var x := store[0];
      [if x.id == id then Contact(id, row) else x] + UpdateStore(store[1..], id, row)
  }

  /** `DELETE ... WHERE id = :id`. */
  function DeleteStore(store: seq<Contact>, id: int): (r: seq<Contact>)
    ensures forall x :: x in r <==> x in store && x.id != id
  {
    if |store| == 0 then []
    else
      var rest := DeleteStore(store[1..], id);
      assert forall x :: x in store <==> x == store[0] || x in store[1..];
      if store[0].id == id then rest else [store[0]] + rest
  }

  /** Whether the update and the delete fail (an exception, a lost connection,
      or no affected row). */
  datatype Faults = Faults(updateFails: bool, deleteFails: bool)

  datatype MergeOutcome = MergeOutcome(ok: bool, store: seq<Contact>)

  /** `merge_contacts(keep, remove)`: both are fetched, the merged row is
      written over `keep` (as an all-string dictionary, which `update_contact`
      passes through), then `remove` is deleted. */
  function MergeContacts(store: seq<Contact>, keep: int, remove: int, faults: Faults): (o: MergeOutcome)
    ensures Lookup(store, keep).None? || Lookup(store, remove).None? ==> !o.ok && o.store == store
    ensures Lookup(store, keep).Some? && Lookup(store, remove).Some? && faults.updateFails
            ==> !o.ok && o.store == store
    ensures o.ok <==> Lookup(store, keep).Some? && Lookup(store, remove).Some? && !faults.updateFails && !faults.deleteFails
  {
    match (Lookup(store, keep), Lookup(store, remove))
    case (Some(c1), Some(c2)) =>
      var merged := UpdateRow(RowRequest(MergeRows(c1.row, c2.row)));
      if faults.updateFails then MergeOutcome(false, store)
      else
        var updated := UpdateStore(store, keep, merged);
        if faults.deleteFails then MergeOutcome(false, updated)
        else MergeOutcome(true, DeleteStore(updated, remove))
    case _ => MergeOutcome(false, store)
  }

  /** A failed delete leaves the merged row written over the kept contact. */
  lemma DeleteFailureKeepsUpdate(store: seq<Contact>, keep: int, remove: int)
    requires Lookup(store, keep).Some? && Lookup(store, remove).Some?
    ensures var o := MergeContacts(store, keep, remove, Faults(false, true));
      !o.ok && o.store == UpdateStore(store, keep, MergeRows(Lookup(store, keep).value.row, Lookup(store, remove).value.row))
  {
    UpdateWithStringsIsIdentity(MergeRows(Lookup(store, keep).value.row, Lookup(store, remove).value.row));
  }

  /** Updating an id that is present writes the row under it and touches no other id. */
  lemma UpdateStoreFacts(store: seq<Contact>, id: int, row: Row)
    requires Lookup(store, id).Some?
    ensures Contact(id, row) in UpdateStore(store, id, row)
    ensures forall x :: x in UpdateStore(store, id, row) && x.id != id ==> x in store
    ensures forall x :: x in store && x.id != id ==> x in UpdateStore(store, id, row)
  {
    var updated := UpdateStore(store, id, row);
    var k :| 0 <= k < |store| && store[k] == Lookup(store, id).value;
    assert updated[k] == Contact(id, row);
    forall x | x in updated && x.id != id ensures x in store {
      var i :| 0 <= i < |updated| && updated[i] == x;
      assert store[i] == x;
    }
    forall x | x in store && x.id != id ensures x in updated {
      var i :| 0 <= i < |store| && store[i] == x;
      assert updated[i] == x;
    }
  }

  /** Without faults the merge writes the merged row over `keep`, then deletes `remove`. */
  lemma MergeWrites(store: seq<Contact>, keep: int, remove: int)
    requires Lookup(store, keep).Some? && Lookup(store, remove).Some?
    ensures MergeContacts(store, keep, remove, Faults(false, false))
         == MergeOutcome(true, DeleteStore(UpdateStore(store, keep,
              MergeRows(Lookup(store, keep).value.row, Lookup(store, remove).value.row)), remove))
  {
    UpdateWithStringsIsIdentity(MergeRows(Lookup(store, keep).value.row, Lookup(store, remove).value.row));
  }

  /** After a successful merge of two different contacts, the removed id is
      gone and the kept id holds the merged row. */
  lemma MergeSuccess(store: seq<Contact>, keep: int, remove: int)
    requires keep != remove
    requires Lookup(store, keep).Some? && Lookup(store, remove).Some?
    ensures var o := MergeContacts(store, keep, remove, Faults(false, false));
      o.ok
      && Lookup(o.store, remove).None?
      && Contact(keep, MergeRows(Lookup(store, keep).value.row, Lookup(store, remove).value.row)) in o.store
  {
    MergeWrites(store, keep, remove);
    WriteThenDelete(store, keep, remove, MergeRows(Lookup(store, keep).value.row, Lookup(store, remove).value.row));
  }

  /** Writing a row over a present id and then deleting another id keeps the
      written contact and leaves no contact under the deleted id. */
  lemma WriteThenDelete(store: seq<Contact>, keep: int, remove: int, row: Row)
    requires keep != remove && Lookup(store, keep).Some?
    ensures var s := DeleteStore(UpdateStore(store, keep, row), remove);
      Lookup(s, remove).None? && Contact(keep, row) in s
  {
    UpdateStoreFacts(store, keep, row);
  }

  /** A successful merge changes no contact other than the two it names. */
  lemma MergeKeepsOthers(store: seq<Contact>, keep: int, remove: int)
    requires Lookup(store, keep).Some? && Lookup(store, remove).Some?
    ensures var o := MergeContacts(store, keep, remove, Faults(false, false));
      && (forall x :: x in o.store && x.id != keep ==> x in store)
      && (forall x :: x in store && x.id != keep && x.id != remove ==> x in o.store)
  {
    var merged := MergeRows(Lookup(store, keep).value.row, Lookup(store, remove).value.row);
    MergeWrites(store, keep, remove);
    UpdateStoreFacts(store, keep, merged);
  }

  /** Merging a contact into itself succeeds and deletes it: the update is
      written and then the same id is deleted. */
  lemma MergeWithSelfDeletes(store: seq<Contact>, id: int)
    requires Lookup(store, id).Some?
    ensures var o := MergeContacts(store, id, id, Faults(false, false));
      o.ok && Lookup(o.store, id).None?
  {
  }
}
