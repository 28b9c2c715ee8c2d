/** One run of the scraper on its ledger: scan the ids already recorded,
    then append a row for every fetched record whose id is not among them. */
module Sync {
  import opened Wrappers
  import opened Json
  import opened Records
  import Decimal

  /** The ledger file: absent before the first run, otherwise its header and
      its rows in file order. */
  datatype Ledger = Absent | Present(header: seq<string>, rows: seq<Row>)

  /** What a run leaves behind: the ledger after it and the number of rows it appended. */
  datatype Outcome = Outcome(ledger: Ledger, newCount: nat)

  function Rows(l: Ledger): seq<Row> {
    if l.Present? then l.rows else []
  }

  /** A ledger this script could have written: absent, or headed by the
      columns it writes. Only for such a ledger does reading a row back by
      its header give the map that was written. */
  predicate ValidLedger(l: Ledger) {
    l.Absent? || l.header == Fieldnames
  }

  /** `row.get("id")` is truthy: the row has a non-empty id. */
  predicate HasId(row: Row) {
    "id" in row && row["id"] != ""
  }

  /** Some row of `rows` carries the non-empty id `k`. */
  predicate Recorded(rows: seq<Row>, k: string) {
    exists i :: 0 <= i < |rows| && HasId(rows[i]) && rows[i]["id"] == k
  }

  /** The ids collected by scanning `rows` in order; rows whose id is missing
      or empty are passed over. */
  function IdsOf(rows: seq<Row>): (ids: set<string>)
    ensures forall k :: k in ids <==> Recorded(rows, k)
    decreases |rows|
  {
    if |rows| == 0 then {}
    else
      var last := rows[|rows| - 1];
      var before := rows[..|rows| - 1];
      var ids := IdsOf(before) + (if HasId(last) then {last["id"]} else {});
      assert forall k :: Recorded(before, k) ==> Recorded(rows, k) by {
        forall k | Recorded(before, k) ensures Recorded(rows, k) {
          var i :| 0 <= i < |before| && HasId(before[i]) && before[i]["id"] == k;
          assert rows[i] == before[i];
        }
      }
      assert forall k :: Recorded(rows, k) ==> k in ids by {
        forall k | Recorded(rows, k) ensures k in ids {
          var i :| 0 <= i < |rows| && HasId(rows[i]) && rows[i]["id"] == k;
          if i < |before| {
            assert before[i] == rows[i];
          }
        }
      }
      ids
  }

  /** `load_existing_ids`: no ids when the ledger is absent, otherwise exactly
      the non-empty ids its rows carry. */
  function LoadExistingIds(l: Ledger): (ids: set<string>)
    ensures l.Absent? ==> ids == {}
    ensures forall k :: k in ids <==> Recorded(Rows(l), k)
    ensures "" !in ids
  {
    match l
    case Absent => {}
    case Present(_, rows) => IdsOf(rows)
  }

  /** The records a run appends, in input order: those whose key is not known. */
  function Fresh(cs: seq<Company>, existing: set<string>): (found: seq<Company>)
    ensures |found| <= |cs|
    ensures forall i :: 0 <= i < |found| ==> IdKey(found[i]) !in existing
    decreases |cs|
  {
    if |cs| == 0 then []
    else
      var rest := Fresh(cs[1..], existing);
      if IdKey(cs[0]) in existing then rest else [cs[0]] + rest
  }

  /** A record is appended exactly when it was fetched and its key is not known. */
  lemma {:induction false} FreshMembers(cs: seq<Company>, existing: set<string>)
    ensures forall c :: c in Fresh(cs, existing) <==> c in cs && IdKey(c) !in existing
    decreases |cs|
  {
    if |cs| > 0 {
      FreshMembers(cs[1..], existing);
      assert forall c :: c in cs <==> c == cs[0] || c in cs[1..];
    }
  }

  /** The rows written for a sequence of records, one each, in order. */
  function RowsOf(cs: seq<Company>): (rows: seq<Row>)
    ensures |rows| == |cs|
    ensures forall i :: 0 <= i < |cs| ==> rows[i] == RowOf(cs[i])
  {
    seq(|cs|, i requires 0 <= i < |cs| => RowOf(cs[i]))
  }

  lemma RowsOfConcat(a: seq<Company>, b: seq<Company>)
    ensures RowsOf(a + b) == RowsOf(a) + RowsOf(b)
  {
    var l, r := RowsOf(a + b), RowsOf(a) + RowsOf(b);
    assert |l| == |r|;
    forall i | 0 <= i < |l| ensures l[i] == r[i] {
      if i < |a| {
        assert (a + b)[i] == a[i];
      } else {
        assert (a + b)[i] == b[i - |a|];
      }
    }
  }

  /** Selection, one record at a time. */
  lemma FreshStep(cs: seq<Company>, existing: set<string>)
    requires |cs| > 0
    ensures Fresh(cs, existing)
            == if IdKey(cs[0]) in existing then Fresh(cs[1..], existing)
               else [cs[0]] + Fresh(cs[1..], existing)
  {
  }

  lemma WriteOneRow(written: seq<Row>, c: Company, rest: seq<Company>)
    ensures written + RowsOf([c] + rest) == (written + [RowOf(c)]) + RowsOf(rest)
  {
    RowsOfConcat([c], rest);
    assert RowsOf([c]) == [RowOf(c)];
  }

  /** The body of the loop in `append_new_companies`, record by record: skip
      a record whose key is known, otherwise write its row and count it.
      The known keys are not extended as rows are written. */
  function WriteLoop(cs: seq<Company>, existing: set<string>, written: seq<Row>, count: nat)
    : (r: (seq<Row>, nat))
    ensures r.0 == written + RowsOf(Fresh(cs, existing))
    ensures r.1 == count + |Fresh(cs, existing)|
    decreases |cs|
  {
    if |cs| == 0 then (written, count)
    else
      var c := cs[0];
      FreshStep(cs, existing);
      if IdKey(c) in existing then
        WriteLoop(cs[1..], existing, written, count)
      else
        WriteOneRow(written, c, Fresh(cs[1..], existing));
        WriteLoop(cs[1..], existing, written + [RowOf(c)], count + 1)
  }

  /** `append_new_companies`: writes the header only when the ledger did not
      exist, then appends the rows of the fresh records and reports how many. */
  function AppendNewCompanies(l: Ledger, cs: seq<Company>, existing: set<string>): (out: Outcome)
    ensures out.ledger.Present?
    ensures l.Absent? ==> out.ledger.header == Fieldnames
    ensures l.Present? ==> out.ledger.header == l.header
    ensures Rows(l) <= out.ledger.rows
    ensures |out.ledger.rows| == |Rows(l)| + out.newCount
    ensures out.ledger.rows[|Rows(l)|..] == RowsOf(Fresh(cs, existing))
  {
    var header := if l.Absent? then Fieldnames else l.header;
    var r := WriteLoop(cs, existing, [], 0);
    Outcome(Present(header, Rows(l) + r.0), r.1)
  }

  /** `main`: scan the ledger, then append what it does not hold yet. */
  function Run(l: Ledger, cs: seq<Company>): (out: Outcome)
    ensures l.Absent? ==> out == Outcome(Present(Fieldnames, RowsOf(cs)), |cs|)
  {
    var out := AppendNewCompanies(l, cs, LoadExistingIds(l));
    if l.Absent? then
      FreshOfNothingKnown(cs);
      out
    else out
  }

  /** A run writes the header of a new ledger and keeps the header of an
      existing one, so it leaves a ledger it could have written itself. */
  lemma RunKeepsLedgerValid(l: Ledger, cs: seq<Company>)
    requires ValidLedger(l)
    ensures ValidLedger(Run(l, cs).ledger) && Run(l, cs).ledger.Present?
  {
    assert Run(l, cs).ledger == AppendNewCompanies(l, cs, LoadExistingIds(l)).ledger;
  }

  /** `main` around its fetch: `None` stands for a fetch that raised, which
      ends the process before the ledger is read or opened. */
  function RunAfterFetch(l: Ledger, fetched: Option<seq<Company>>): (after: Ledger)
    ensures fetched.None? ==> after == l
    ensures fetched.Some? ==> Rows(l) <= Rows(after) && after.Present?
  {
    match fetched
    case None => l
    case Some(cs) => Run(l, cs).ledger
  }

  /** With no keys known, every record is fresh. */
  lemma {:induction false} FreshOfNothingKnown(cs: seq<Company>)
    ensures Fresh(cs, {}) == cs
    decreases |cs|
  {
    if |cs| > 0 {
      FreshOfNothingKnown(cs[1..]);
      assert [cs[0]] + cs[1..] == cs;
    }
  }

  // ---------------------------------------------------------------------
  // What a run appends: skipping, order and duplicates

  /** Number of records whose key is `k`. */
  function KeyCount(cs: seq<Company>, k: string): nat
    decreases |cs|
  {
    if |cs| == 0 then 0
    else (if IdKey(cs[0]) == k then 1 else 0) + KeyCount(cs[1..], k)
  }

  /** Number of rows whose id cell is `k`. */
  function IdCount(rows: seq<Row>, k: string): nat
    decreases |rows|
  {
    if |rows| == 0 then 0
    else (if "id" in rows[0] && rows[0]["id"] == k then 1 else 0) + IdCount(rows[1..], k)
  }

  /** Selecting fresh records commutes with concatenation, so the fresh
      records keep the order they were fetched in. */
  lemma {:induction false} FreshConcat(a: seq<Company>, b: seq<Company>, existing: set<string>)
    ensures Fresh(a + b, existing) == Fresh(a, existing) + Fresh(b, existing)
    decreases |a|
  {
    if |a| > 0 {
      assert (a + b)[0] == a[0];
      assert (a + b)[1..] == a[1..] + b;
      FreshStep(a + b, existing);
      FreshStep(a, existing);
      FreshConcat(a[1..], b, existing);
      if IdKey(a[0]) !in existing {
        var x, y := Fresh(a[1..], existing), Fresh(b, existing);
        assert [a[0]] + (x + y) == ([a[0]] + x) + y;
      }
    } else {
      assert a + b == b;
    }
  }

  /** Per key, a run keeps no record whose key is known and every record
      whose key is not known, however many share it. */
  lemma {:induction false} FreshKeyCount(cs: seq<Company>, existing: set<string>, k: string)
    ensures KeyCount(Fresh(cs, existing), k) == if k in existing then 0 else KeyCount(cs, k)
    decreases |cs|
  {
    if |cs| > 0 {
      FreshKeyCount(cs[1..], existing, k);
      if IdKey(cs[0]) !in existing {
        assert ([cs[0]] + Fresh(cs[1..], existing))[1..] == Fresh(cs[1..], existing);
      }
    }
  }

  /** The written rows carry the records' keys as their ids, one row per record. */
  lemma {:induction false} RowsIdCount(cs: seq<Company>, k: string)
    ensures IdCount(RowsOf(cs), k) == KeyCount(cs, k)
    decreases |cs|
  {
    if |cs| > 0 {
      RowsIdCount(cs[1..], k);
      assert RowsOf(cs)[1..] == RowsOf(cs[1..]);
    }
  }

  /** The appended rows with id `k`: none when `k` is known, otherwise one for
      every fetched record with that key, duplicates in the batch included. */
  lemma AppendedIdCount(l: Ledger, cs: seq<Company>, existing: set<string>, k: string)
    ensures IdCount(AppendNewCompanies(l, cs, existing).ledger.rows[|Rows(l)|..], k)
            == if k in existing then 0 else KeyCount(cs, k)
  {
    RowsIdCount(Fresh(cs, existing), k);
    FreshKeyCount(cs, existing, k);
  }

  /** Two fetched records sharing a new key are both appended. */
  lemma DuplicatesInOneBatchAreBothAppended(l: Ledger, a: Company, b: Company)
    requires IdKey(a) == IdKey(b)
    requires !Recorded(Rows(l), IdKey(a))
    ensures Run(l, [a, b]).newCount == 2
    ensures Run(l, [a, b]).ledger.rows == Rows(l) + [RowOf(a), RowOf(b)]
  {
    var e := LoadExistingIds(l);
    FreshPair(a, b, e);
    RowsOfPair(a, b);
    RunRows(l, [a, b]);
    RunCount(l, [a, b]);
  }

  lemma FreshPair(a: Company, b: Company, existing: set<string>)
    requires IdKey(a) !in existing && IdKey(b) !in existing
    ensures Fresh([a, b], existing) == [a, b]
  {
    FreshStep([b], existing);
    FreshStep([a, b], existing);
    assert [a, b][1..] == [b];
  }

  lemma RowsOfPair(a: Company, b: Company)
    ensures RowsOf([a, b]) == [RowOf(a), RowOf(b)]
  {
  }

  /** A run reports the number of records the scan did not find. */
  lemma RunCount(l: Ledger, cs: seq<Company>)
    ensures Run(l, cs).newCount == |Fresh(cs, LoadExistingIds(l))|
  {
    assert Run(l, cs) == AppendNewCompanies(l, cs, LoadExistingIds(l));
  }

  /** A record with numeric id `n` is skipped exactly when the ledger already
      holds the row id spelled as `str(n)`. */
  lemma NumericIdMatchesStringId(l: Ledger, c: Company, n: int)
    requires c.id == Some(Int(n))
    ensures Run(l, [c]).newCount == 0 <==> Recorded(Rows(l), Decimal.DecimalString(n))
  {
    assert IdKey(c) == Decimal.DecimalString(n);
    assert Fresh([c], LoadExistingIds(l)) == (if IdKey(c) in LoadExistingIds(l) then [] else [c]) + Fresh([], LoadExistingIds(l));
  }

  lemma NumericIdExample(c: Company)
    requires c.id == Some(Int(42))
    ensures Run(Present(Fieldnames, [map["id" := "42"]]), [c]).newCount == 0
  {
    PyStrExamples();
    var rows: seq<Row> := [map["id" := "42"]];
    assert HasId(rows[0]) && rows[0]["id"] == "42";
    NumericIdMatchesStringId(Present(Fieldnames, rows), c, 42);
  }

  // ---------------------------------------------------------------------
  // Running twice

  /** A run leaves the prior rows followed by the rows of the fresh records. */
  lemma RunRows(l: Ledger, cs: seq<Company>)
    ensures Run(l, cs).ledger.rows == Rows(l) + RowsOf(Fresh(cs, LoadExistingIds(l)))
  {
    var out := AppendNewCompanies(l, cs, LoadExistingIds(l));
    assert Run(l, cs) == out;
    var rows, n := out.ledger.rows, |Rows(l)|;
    assert rows == rows[..n] + rows[n..];
  }

  lemma RecordedInConcat(a: seq<Row>, b: seq<Row>, k: string)
    requires Recorded(a, k) || Recorded(b, k)
    ensures Recorded(a + b, k)
  {
    if Recorded(a, k) {
      var i :| 0 <= i < |a| && HasId(a[i]) && a[i]["id"] == k;
      assert (a + b)[i] == a[i];
    } else {
      var i :| 0 <= i < |b| && HasId(b[i]) && b[i]["id"] == k;
      assert (a + b)[|a| + i] == b[i];
    }
  }

  lemma RecordedAmongRowsOf(cs: seq<Company>, c: Company)
    requires c in cs && IdKey(c) != ""
    ensures Recorded(RowsOf(cs), IdKey(c))
  {
    var j :| 0 <= j < |cs| && cs[j] == c;
    assert RowsOf(cs)[j] == RowOf(c);
  }

  /** After a run, the ledger records every non-empty key that was fetched. */
  lemma RunRecordsEveryKey(l: Ledger, cs: seq<Company>, c: Company)
    requires ValidLedger(l)
    requires c in cs && IdKey(c) != ""
    ensures IdKey(c) in LoadExistingIds(Run(l, cs).ledger)
  {
    var e := LoadExistingIds(l);
    var added := Fresh(cs, e);
    RunRows(l, cs);
    if IdKey(c) !in e {
      FreshMembers(cs, e);
      RecordedAmongRowsOf(added, c);
    }
    RecordedInConcat(Rows(l), RowsOf(added), IdKey(c));
  }

  /** A batch whose keys are all known yields no fresh record. */
  lemma {:induction false} FreshWhenAllKnown(cs: seq<Company>, existing: set<string>)
    requires forall c :: c in cs ==> IdKey(c) in existing
    ensures Fresh(cs, existing) == []
    decreases |cs|
  {
    if |cs| > 0 {
      assert cs[0] in cs;
      FreshWhenAllKnown(cs[1..], existing);
    }
  }

  /** When the known keys are exactly the non-empty ones, the fresh records
      are the ones with an empty key. */
  lemma {:induction false} FreshWhenOnlyEmptyUnknown(cs: seq<Company>, existing: set<string>)
    requires forall c :: c in cs ==> (IdKey(c) in existing <==> IdKey(c) != "")
    ensures forall c :: c in Fresh(cs, existing) <==> c in cs && IdKey(c) == ""
    ensures |Fresh(cs, existing)| == KeyCount(cs, "")
    decreases |cs|
  {
    FreshMembers(cs, existing);
    if |cs| > 0 {
      FreshWhenOnlyEmptyUnknown(cs[1..], existing);
    }
  }

  /** Running the same batch again appends one row per record whose key is
      empty: such ids are dropped by the scan, so they are never seen as known. */
  lemma SecondRunAppendsOnlyEmptyKeys(l: Ledger, cs: seq<Company>)
    requires ValidLedger(l)
    ensures Run(Run(l, cs).ledger, cs).newCount == KeyCount(cs, "")
    ensures var l1 := Run(l, cs).ledger;
      var again := Fresh(cs, LoadExistingIds(l1));
      && Run(l1, cs).ledger.rows == l1.rows + RowsOf(again)
      && (forall c :: c in again <==> c in cs && IdKey(c) == "")
  {
    var l1 := Run(l, cs).ledger;
    var e1 := LoadExistingIds(l1);
    forall c | c in cs ensures IdKey(c) in e1 <==> IdKey(c) != "" {
      if IdKey(c) != "" {
        RunRecordsEveryKey(l, cs, c);
      }
    }
    FreshWhenOnlyEmptyUnknown(cs, e1);
    RunRows(l1, cs);
  }

  /** Idempotence: when every fetched key is non-empty, a second run with the
      same batch appends nothing and leaves the ledger as it was. */
  lemma RunIdempotent(l: Ledger, cs: seq<Company>)
    requires ValidLedger(l)
    requires forall c :: c in cs ==> IdKey(c) != ""
    ensures Run(Run(l, cs).ledger, cs) == Outcome(Run(l, cs).ledger, 0)
  {
    var l1 := Run(l, cs).ledger;
    var e1 := LoadExistingIds(l1);
    forall c | c in cs ensures IdKey(c) in e1 {
      RunRecordsEveryKey(l, cs, c);
    }
    FreshWhenAllKnown(cs, e1);
    var out := AppendNewCompanies(l1, cs, e1);
    assert Run(l1, cs) == out;
    assert out.ledger.rows == Rows(l1) && out.newCount == 0;
  }

  // ---------------------------------------------------------------------
  // Unique ids across the ledger

  /** No two rows carry the same non-empty id. */
  predicate UniqueIds(rows: seq<Row>) {
    forall i, j :: 0 <= i < j < |rows| && HasId(rows[i]) && HasId(rows[j]) ==> rows[i]["id"] != rows[j]["id"]
  }

  /** No two records in a batch share a non-empty key. */
  predicate DistinctKeys(cs: seq<Company>) {
    forall i, j :: 0 <= i < j < |cs| && IdKey(cs[i]) != "" ==> IdKey(cs[i]) != IdKey(cs[j])
  }

  /** Records of a batch share a key only when the key is empty, which the
      scan never reports, or already known, so that the run skips them all. */
  predicate RepeatsAreHarmless(cs: seq<Company>, existing: set<string>) {
    forall i, j :: 0 <= i < j < |cs| && IdKey(cs[i]) == IdKey(cs[j]) ==> IdKey(cs[i]) == "" || IdKey(cs[i]) in existing
  }

  lemma HarmlessTail(cs: seq<Company>, existing: set<string>)
    requires |cs| > 0 && RepeatsAreHarmless(cs, existing)
    ensures RepeatsAreHarmless(cs[1..], existing)
  {
    var rest := cs[1..];
    forall i, j | 0 <= i < j < |rest| && IdKey(rest[i]) == IdKey(rest[j])
      ensures IdKey(rest[i]) == "" || IdKey(rest[i]) in existing
    {
      assert rest[i] == cs[i + 1] && rest[j] == cs[j + 1];
    }
  }

  lemma {:induction false} FreshKeepsKeysDistinct(cs: seq<Company>, existing: set<string>)
    requires RepeatsAreHarmless(cs, existing)
    ensures DistinctKeys(Fresh(cs, existing))
    decreases |cs|
  {
    if |cs| > 0 {
      var rest := cs[1..];
      HarmlessTail(cs, existing);
      FreshKeepsKeysDistinct(rest, existing);
      FreshMembers(rest, existing);
      FreshStep(cs, existing);
      var fr := Fresh(rest, existing);
      if IdKey(cs[0]) !in existing {
        var f := [cs[0]] + fr;
        forall i, j | 0 <= i < j < |f| && IdKey(f[i]) != ""
          ensures IdKey(f[i]) != IdKey(f[j])
        {
          if i == 0 {
            assert f[j] in fr;
            var m :| 0 <= m < |rest| && rest[m] == f[j];
            assert cs[m + 1] == f[j];
          } else {
            assert f[i] == fr[i - 1] && f[j] == fr[j - 1];
          }
        }
      }
    }
  }

  /** Appending rows for records with distinct keys, none of them known,
      keeps the ids unique when the known keys cover the rows already there. */
  lemma UniqueIdsAfterAppend(prior: seq<Row>, added: seq<Company>, existing: set<string>)
    requires UniqueIds(prior)
    requires forall k :: Recorded(prior, k) ==> k in existing
    requires forall c :: c in added ==> IdKey(c) !in existing
    requires DistinctKeys(added)
    ensures UniqueIds(prior + RowsOf(added))
  {
    var rows := prior + RowsOf(added);
    var n := |prior|;
    forall i, j | 0 <= i < j < |rows| && HasId(rows[i]) && HasId(rows[j])
      ensures rows[i]["id"] != rows[j]["id"]
    {
      if j >= n {
        assert rows[j] == RowOf(added[j - n]);
        assert added[j - n] in added;
        if i < n {
          assert rows[i] == prior[i];
          assert Recorded(prior, rows[i]["id"]);
        } else {
          assert rows[i] == RowOf(added[i - n]);
        }
      }
    }
  }

  /** A run keeps the ledger's ids unique, provided the batch repeats no
      key that is new and non-empty. (A batch with a repeated new key breaks
      uniqueness: see DuplicatesInOneBatchAreBothAppended.) */
  lemma RunKeepsIdsUnique(l: Ledger, cs: seq<Company>)
    requires ValidLedger(l)
    requires UniqueIds(Rows(l))
    requires RepeatsAreHarmless(cs, LoadExistingIds(l))
    ensures UniqueIds(Run(l, cs).ledger.rows)
  {
    var e := LoadExistingIds(l);
    var added := Fresh(cs, e);
    FreshKeepsKeysDistinct(cs, e);
    FreshMembers(cs, e);
    var rows := AppendNewCompanies(l, cs, e).ledger.rows;
    assert Run(l, cs).ledger.rows == rows;
    var n := |Rows(l)|;
    assert rows == rows[..n] + rows[n..];
    UniqueIdsAfterAppend(Rows(l), added, e);
  }

  // ---------------------------------------------------------------------
  // Many runs

  /** The ledger after one run per batch, in order. */
  function RunAll(l: Ledger, batches: seq<seq<Company>>): Ledger
    decreases |batches|
  {
    if |batches| == 0 then l else RunAll(Run(l, batches[0]).ledger, batches[1..])
  }

  /** Across any number of runs the ledger only grows at its end, and its
      header is the one written by the first run, never a second one. */
  lemma {:induction false} RunsAreAppendOnly(l: Ledger, batches: seq<seq<Company>>)
    ensures Rows(l) <= Rows(RunAll(l, batches))
    ensures l.Present? ==> RunAll(l, batches) == Present(l.header, Rows(RunAll(l, batches)))
    ensures l.Absent? && |batches| > 0 ==> RunAll(l, batches).Present? && RunAll(l, batches).header == Fieldnames
    ensures ValidLedger(l) ==> ValidLedger(RunAll(l, batches))
    decreases |batches|
  {
    if |batches| > 0 {
      var l1 := Run(l, batches[0]).ledger;
      if ValidLedger(l) {
        RunKeepsLedgerValid(l, batches[0]);
      }
      RunsAreAppendOnly(l1, batches[1..]);
    }
  }
}
