/**
  The investors table and its reconciliation with the K-1 documents (`match_files_and_keys` of
  k1_processor.py): a left join of investor rows onto documents by matching key that fills
  `matched_k1_filename`, the documents no investor claims, and the `email_status` write-back.
*/
module Reconciliation {
  import opened Wrappers
  import opened Text
  import opened Discovery

  /** A spreadsheet cell of the `active` and `do_not_send_override` columns as pandas reads it. */
  datatype Cell = Empty | Flag(b: bool) | Number(x: real) | Words(s: string)

  /** `False if pd.isna(value) or value == "nan" else bool(value)`. */
  predicate Truthy(c: Cell) {
    match c
    case Empty => false
    case Flag(b) => b
    case Number(x) => x != 0.0
    case Words(s) => s != "nan" && s != ""
  }

  const SLOT_COUNT := 4

  /** `email_address_i` and `email_type_i` after `str()`: an empty cell reads "nan". */
  datatype EmailSlot = EmailSlot(address: string, kind: string)

  type Slots = s: seq<EmailSlot> | |s| == SLOT_COUNT
    witness [EmailSlot("nan", "nan"), EmailSlot("nan", "nan"), EmailSlot("nan", "nan"), EmailSlot("nan", "nan")]

  /** The columns of `investors.xlsx` the run reads or writes; `None` is an empty cell. Other
      columns (names, city, state) ride along unchanged and are not modelled. */
  datatype InvestorRow = InvestorRow(
    matchingKey: string,
    slots: Slots,
    active: Cell,
    doNotSendOverride: Cell,
    emailStatus: Option<string>,
    emailBatchTimestamp: Option<string>,
    matchedK1Filename: Option<string>)

  const FILE_FOUND := "file_found"

  // ---------------------------------------------------------------- the left join

  predicate KeyMatches(row: InvestorRow, doc: K1Record) {
    doc.matchingKey == Some(row.matchingKey)
  }

  /** The documents whose key equals the row's, in document order. */
  function MatchesFor(row: InvestorRow, docs: seq<K1Record>): (m: seq<K1Record>)
    ensures |m| <= |docs|
    ensures forall d :: d in m ==> d in docs && KeyMatches(row, d)
  {
    if docs == [] then []
    else
      var last := docs[|docs| - 1];
      MatchesFor(row, docs[..|docs| - 1]) + (if KeyMatches(row, last) then [last] else [])
  }

  lemma {:induction false} MatchesForMembership(row: InvestorRow, docs: seq<K1Record>, d: K1Record)
    ensures d in MatchesFor(row, docs) <==> d in docs && KeyMatches(row, d)
  {
    if docs != [] {
      MatchesForMembership(row, docs[..|docs| - 1], d);
      assert docs == docs[..|docs| - 1] + [docs[|docs| - 1]];
    }
  }

  /** The merged rows of one investor: one per matching document carrying its path, or the row
      itself with no filename when no document matches. */
  function JoinRow(row: InvestorRow, docs: seq<K1Record>): seq<InvestorRow> {
    var m := MatchesFor(row, docs);
    if |m| == 0 then [row.(matchedK1Filename := None)]
    else seq(|m|, i requires 0 <= i < |m| => row.(matchedK1Filename := Some(m[i].path)))
  }

  /** `pd.merge(investors_df, k1_df, on="k1_matching_key", how="left")` with
      `matched_k1_filename` taken from `path`. */
  function LeftJoin(table: seq<InvestorRow>, docs: seq<K1Record>): seq<InvestorRow> {
    if table == [] then []
    else LeftJoin(table[..|table| - 1], docs) + JoinRow(table[|table| - 1], docs)
  }

  /** What a joined row of investor `row` can be: the row carrying the path of a document with
      its key, or the row no document matches, carrying no filename. */
  predicate JoinedFromRow(row: InvestorRow, docs: seq<K1Record>, r: InvestorRow) {
    || (exists d :: d in docs && KeyMatches(row, d) && r == row.(matchedK1Filename := Some(d.path)))
    || ((forall d :: d in docs ==> !KeyMatches(row, d)) && r == row.(matchedK1Filename := None))
  }

  /** The same for the investor at index `i` of the table. */
  predicate JoinedFrom(table: seq<InvestorRow>, docs: seq<K1Record>, r: InvestorRow, i: int) {
    0 <= i < |table| && JoinedFromRow(table[i], docs, r)
  }

  /** No matching document, no match. */
  lemma {:induction false} NoMatchesEmpty(row: InvestorRow, docs: seq<K1Record>)
    ensures (forall d :: d in docs ==> !KeyMatches(row, d)) ==> MatchesFor(row, docs) == []
  {
    if docs != [] {
      NoMatchesEmpty(row, docs[..|docs| - 1]);
      if forall d :: d in docs ==> !KeyMatches(row, d) {
        assert docs[|docs| - 1] in docs;
        assert forall d :: d in docs[..|docs| - 1] ==> d in docs;
      }
    }
  }

  lemma JoinRowMembership(row: InvestorRow, docs: seq<K1Record>, r: InvestorRow)
    ensures r in JoinRow(row, docs) <==> JoinedFromRow(row, docs, r)
  {
    var m := MatchesFor(row, docs);
    var rows := JoinRow(row, docs);
    forall d | d in docs && KeyMatches(row, d) ensures d in m {
      MatchesForMembership(row, docs, d);
    }
    NoMatchesEmpty(row, docs);
    if |m| > 0 {
      MatchesForMembership(row, docs, m[0]);
      assert m[0] in m;
      if r in rows {
        var i :| 0 <= i < |m| && rows[i] == r;
        assert m[i] in m;
        MatchesForMembership(row, docs, m[i]);
        assert r == row.(matchedK1Filename := Some(m[i].path));
      }
      if exists d :: d in docs && KeyMatches(row, d) && r == row.(matchedK1Filename := Some(d.path)) {
        var d :| d in docs && KeyMatches(row, d) && r == row.(matchedK1Filename := Some(d.path));
        var i :| 0 <= i < |m| && m[i] == d;
        assert rows[i] == r;
      }
    }
  }

  /** The join's rows are exactly the investor rows with their matches: nothing is invented and
      no investor is dropped. */
  lemma {:induction false} LeftJoinMembership(table: seq<InvestorRow>, docs: seq<K1Record>, r: InvestorRow)
    ensures r in LeftJoin(table, docs) <==> exists i :: JoinedFrom(table, docs, r, i)
  {
    if table != [] {
      var init := table[..|table| - 1];
      var last := table[|table| - 1];
      LeftJoinMembership(init, docs, r);
      JoinRowMembership(last, docs, r);
      JoinedFromSnoc(table, init, docs, r);
    }
  }

  /** An investor of the table is one of its first rows or its last. */
  lemma JoinedFromSnoc(table: seq<InvestorRow>, init: seq<InvestorRow>, docs: seq<K1Record>, r: InvestorRow)
    requires table != [] && init == table[..|table| - 1]
    ensures (exists i :: JoinedFrom(table, docs, r, i))
        <==> (exists i :: JoinedFrom(init, docs, r, i)) || JoinedFromRow(table[|table| - 1], docs, r)
  {
    if exists i :: JoinedFrom(table, docs, r, i) {
      var i :| JoinedFrom(table, docs, r, i);
      if i < |init| {
        assert init[i] == table[i];
        assert JoinedFrom(init, docs, r, i);
      }
    }
    if exists i :: JoinedFrom(init, docs, r, i) {
      var i :| JoinedFrom(init, docs, r, i);
      assert init[i] == table[i];
      assert JoinedFrom(table, docs, r, i);
    }
    if JoinedFromRow(table[|table| - 1], docs, r) {
      assert JoinedFrom(table, docs, r, |table| - 1);
    }
  }

  /** Every investor row survives the join: with each matching document's path, or once with
      no filename. */
  lemma EveryInvestorKept(table: seq<InvestorRow>, docs: seq<K1Record>, i: int)
    requires 0 <= i < |table|
    ensures forall d :: d in docs && KeyMatches(table[i], d)
              ==> table[i].(matchedK1Filename := Some(d.path)) in LeftJoin(table, docs)
    ensures (forall d :: d in docs ==> !KeyMatches(table[i], d))
              ==> table[i].(matchedK1Filename := None) in LeftJoin(table, docs)
  {
    forall d | d in docs && KeyMatches(table[i], d)
      ensures table[i].(matchedK1Filename := Some(d.path)) in LeftJoin(table, docs)
    {
      LeftJoinMembership(table, docs, table[i].(matchedK1Filename := Some(d.path)));
      assert JoinedFrom(table, docs, table[i].(matchedK1Filename := Some(d.path)), i);
    }
    if forall d :: d in docs ==> !KeyMatches(table[i], d) {
      LeftJoinMembership(table, docs, table[i].(matchedK1Filename := None));
      assert JoinedFrom(table, docs, table[i].(matchedK1Filename := None), i);
    }
  }

  /** The number of joined rows each investor contributes: its matches, at least one. */
  lemma {:induction false} LeftJoinLength(table: seq<InvestorRow>, docs: seq<K1Record>)
    ensures |LeftJoin(table, docs)| == Contributions(table, docs)
    ensures |LeftJoin(table, docs)| >= |table|
  {
    if table != [] {
      LeftJoinLength(table[..|table| - 1], docs);
    }
  }

  function Contributions(table: seq<InvestorRow>, docs: seq<K1Record>): nat {
    if table == [] then 0
    else
      var m := |MatchesFor(table[|table| - 1], docs)|;
      Contributions(table[..|table| - 1], docs) + (if m == 0 then 1 else m)
  }

  // ---------------------------------------------------------------- status write-back

  /** Line 194: "file_found" for a matched row whose status is empty; any other status stays.
      Afterwards only an unmatched row can lack a status. */
  function WithStatus(row: InvestorRow): (r: InvestorRow)
    ensures row.emailStatus.Some? ==> r == row
    ensures r.emailStatus.Some? <==> row.emailStatus.Some? || row.matchedK1Filename.Some?
    ensures r.emailStatus == Some(FILE_FOUND) <==> row.emailStatus == Some(FILE_FOUND) || (row.matchedK1Filename.Some? && row.emailStatus.None?)
    ensures r == row.(emailStatus := r.emailStatus)
  {
    if row.matchedK1Filename.Some? && row.emailStatus.None? then row.(emailStatus := Some(FILE_FOUND)) else row
  }

  function WriteBackStatus(rows: seq<InvestorRow>): (result: seq<InvestorRow>)
    ensures |result| == |rows|
  {
    seq(|rows|, i requires 0 <= i < |rows| => WithStatus(rows[i]))
  }

  /** A status already written (for example "sent") is never overwritten, and "file_found" is
      written exactly where a match meets an empty status. */
  lemma WriteBackStatusSpec(rows: seq<InvestorRow>)
    ensures forall i :: 0 <= i < |rows| && rows[i].emailStatus.Some? ==> WriteBackStatus(rows)[i] == rows[i]
    ensures forall i :: 0 <= i < |rows| ==>
      var was := rows[i].emailStatus;
      (WriteBackStatus(rows)[i].emailStatus == Some(FILE_FOUND) <==> was == Some(FILE_FOUND) || (rows[i].matchedK1Filename.Some? && was.None?))
    ensures forall i :: 0 <= i < |rows| ==> WriteBackStatus(rows)[i].emailStatus.Some? == (rows[i].emailStatus.Some? || rows[i].matchedK1Filename.Some?)
  {
  }

  lemma WriteBackStatusIdempotent(rows: seq<InvestorRow>)
    ensures WriteBackStatus(WriteBackStatus(rows)) == WriteBackStatus(rows)
  {
  }

  /** The table `match_files_and_keys` writes back to `investors.xlsx`. */
  function Reconcile(table: seq<InvestorRow>, docs: seq<K1Record>): seq<InvestorRow> {
    WriteBackStatus(LeftJoin(table, docs))
  }

  // ---------------------------------------------------------------- unmatched documents

  predicate Claimed(table: seq<InvestorRow>, d: K1Record) {
    exists i :: 0 <= i < |table| && KeyMatches(table[i], d)
  }

  /** `k1_df[~k1_df["k1_matching_key"].isin(merged_df["k1_matching_key"])]`, in document order. */
  function Unmatched(docs: seq<K1Record>, table: seq<InvestorRow>): (u: seq<K1Record>)
    ensures |u| <= |docs|
    ensures forall d :: d in u ==> d in docs && !Claimed(table, d)
  {
    if docs == [] then []
    else
      var last := docs[|docs| - 1];
      Unmatched(docs[..|docs| - 1], table) + (if Claimed(table, last) then [] else [last])
  }

  lemma {:induction false} UnmatchedMembership(docs: seq<K1Record>, table: seq<InvestorRow>, d: K1Record)
    ensures d in Unmatched(docs, table) <==> d in docs && !Claimed(table, d)
  {
    if docs != [] {
      UnmatchedMembership(docs[..|docs| - 1], table, d);
      assert docs == docs[..|docs| - 1] + [docs[|docs| - 1]];
    }
  }

  /** With unique paths, a document is reported unmatched exactly when no joined row carries
      its path. */
  lemma UnmatchedAgreesWithJoin(docs: seq<K1Record>, table: seq<InvestorRow>, d: K1Record)
    requires PathsUnique(docs) && d in docs
    ensures d in Unmatched(docs, table)
        <==> forall r :: r in LeftJoin(table, docs) ==> r.matchedK1Filename != Some(d.path)
  {
    UnmatchedMembership(docs, table, d);
    if Claimed(table, d) {
      var i :| 0 <= i < |table| && KeyMatches(table[i], d);
      EveryInvestorKept(table, docs, i);
      assert table[i].(matchedK1Filename := Some(d.path)).matchedK1Filename == Some(d.path);
    } else {
      forall r | r in LeftJoin(table, docs) ensures r.matchedK1Filename != Some(d.path) {
        LeftJoinMembership(table, docs, r);
        var i :| JoinedFrom(table, docs, r, i);
        if exists e :: e in docs && KeyMatches(table[i], e) && r == table[i].(matchedK1Filename := Some(e.path)) {
          var e :| e in docs && KeyMatches(table[i], e) && r == table[i].(matchedK1Filename := Some(e.path));
          SamePathSameDoc(docs, d, e);
        }
      }
    }
  }

  lemma SamePathSameDoc(docs: seq<K1Record>, d: K1Record, e: K1Record)
    requires PathsUnique(docs) && d in docs && e in docs
    ensures d.path == e.path ==> d == e
  {
    var i :| 0 <= i < |docs| && docs[i] == d;
    var j :| 0 <= j < |docs| && docs[j] == e;
    if i < j {
      assert docs[i].path != docs[j].path;
    } else if j < i {
      assert docs[j].path != docs[i].path;
    }
  }

  // ---------------------------------------------------------------- re-running

  /** Document keys are distinct, so no row matches two documents. */
  predicate KeysUnique(docs: seq<K1Record>) {
    forall i, j :: 0 <= i < j < |docs| ==> docs[i].matchingKey != docs[j].matchingKey
  }

  /** The row after a join that finds at most one match. */
  function SingleMatch(row: InvestorRow, docs: seq<K1Record>): InvestorRow {
    var m := MatchesFor(row, docs);
    row.(matchedK1Filename := if |m| == 0 then None else Some(m[0].path))
  }

  lemma {:induction false} AtMostOneMatch(row: InvestorRow, docs: seq<K1Record>)
    requires KeysUnique(docs)
    ensures |MatchesFor(row, docs)| <= 1
  {
    if docs != [] {
      var init := docs[..|docs| - 1];
      var last := docs[|docs| - 1];
      assert KeysUnique(init);
      AtMostOneMatch(row, init);
      if KeyMatches(row, last) {
        forall d | d in init ensures !KeyMatches(row, d) {
          var j :| 0 <= j < |init| && init[j] == d;
          assert docs[j] == d;
        }
        NoMatchesEmpty(row, init);
      }
    }
  }

  /** A row with at most one match joins to the single row `SingleMatch` gives. */
  lemma JoinRowSingle(row: InvestorRow, docs: seq<K1Record>)
    requires |MatchesFor(row, docs)| <= 1
    ensures JoinRow(row, docs) == [SingleMatch(row, docs)]
  {
  }

  /** Each row's single match, in table order. */
  function SingleMatches(table: seq<InvestorRow>, docs: seq<K1Record>): seq<InvestorRow> {
    seq(|table|, i requires 0 <= i < |table| => SingleMatch(table[i], docs))
  }

  lemma SingleMatchesSnoc(table: seq<InvestorRow>, docs: seq<K1Record>)
    requires table != []
    ensures SingleMatches(table, docs)
         == SingleMatches(table[..|table| - 1], docs) + [SingleMatch(table[|table| - 1], docs)]
  {
  }

  lemma {:induction false} LeftJoinUniqueKeys(table: seq<InvestorRow>, docs: seq<K1Record>)
    requires KeysUnique(docs)
    ensures LeftJoin(table, docs) == SingleMatches(table, docs)
  {
    if table != [] {
      var init := table[..|table| - 1];
      var last := table[|table| - 1];
      LeftJoinUniqueKeys(init, docs);
      AtMostOneMatch(last, docs);
      JoinRowSingle(last, docs);
      SingleMatchesSnoc(table, docs);
      assert LeftJoin(table, docs) == LeftJoin(init, docs) + [SingleMatch(last, docs)];
    }
  }

  /** With distinct document keys, reconciling twice gives what reconciling once gives. */
  lemma ReconcileIdempotent(table: seq<InvestorRow>, docs: seq<K1Record>)
    requires KeysUnique(docs)
    ensures Reconcile(Reconcile(table, docs), docs) == Reconcile(table, docs)
  {
    var once := Reconcile(table, docs);
    LeftJoinUniqueKeys(table, docs);
    LeftJoinUniqueKeys(once, docs);
    forall i | 0 <= i < |once| ensures SingleMatch(once[i], docs) == once[i] {
      assert once[i].matchingKey == table[i].matchingKey;
      assert MatchesFor(once[i], docs) == MatchesFor(table[i], docs) by {
        MatchesForSameKey(once[i], table[i], docs);
      }
    }
  }

  lemma {:induction false} MatchesForSameKey(a: InvestorRow, b: InvestorRow, docs: seq<K1Record>)
    requires a.matchingKey == b.matchingKey
    ensures MatchesFor(a, docs) == MatchesFor(b, docs)
  {
    if docs != [] {
      MatchesForSameKey(a, b, docs[..|docs| - 1]);
    }
  }

  /** Without distinct keys the written-back table grows on every run: an investor matching two
      documents becomes two rows, and each of those becomes two again on the next run. */
  lemma DuplicateMatchesMultiply(row: InvestorRow, d1: K1Record, d2: K1Record)
    requires KeyMatches(row, d1) && KeyMatches(row, d2)
    ensures |Reconcile([row], [d1, d2])| == 2
    ensures |Reconcile(Reconcile([row], [d1, d2]), [d1, d2])| == 4
  {
    var docs := [d1, d2];
    var m := MatchesFor(row, docs);
    assert docs[..1] == [d1] && [d1][..0] == [];
    assert MatchesFor(row, []) == [];
    assert MatchesFor(row, [d1]) == [d1];
    assert m == MatchesFor(row, [d1]) + [d2];
    var joined := LeftJoin([row], docs);
    assert [row][..0] == [];
    assert LeftJoin([], docs) == [];
    assert joined == LeftJoin([], docs) + JoinRow(row, docs);
    assert |joined| == 2;
    var once := Reconcile([row], docs);
    assert |once| == 2;
    assert once[0].matchingKey == row.matchingKey && once[1].matchingKey == row.matchingKey;
    MatchesForSameKey(once[0], row, docs);
    MatchesForSameKey(once[1], row, docs);
    ContributionsPair(once, docs);
    LeftJoinLength(once, docs);
  }

  lemma ContributionsPair(table: seq<InvestorRow>, docs: seq<K1Record>)
    requires |table| == 2 && |MatchesFor(table[0], docs)| == 2 && |MatchesFor(table[1], docs)| == 2
    ensures Contributions(table, docs) == 4
  {
    var first := table[..1];
    assert first[..0] == [] && first[0] == table[0];
    assert Contributions(first[..0], docs) == 0;
    assert Contributions(first, docs) == 2;
    assert table[..|table| - 1] == first && table[|table| - 1] == table[1];
  }
}
