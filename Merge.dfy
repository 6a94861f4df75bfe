/**
 * Reconciling the stored catalogue with the rows of a scan: an outer join
 * on (Subject, Path), each cell taken from the stored row when it has one
 * and from the new row otherwise (`fillna`), then `drop_duplicates` on the
 * key keeping the first row.
 */
module Merge {
  import opened Wrappers
  import opened Table

  /** `existing.fillna(incoming)` on one cell. */
  function Coalesce<T>(existing: Option<T>, incoming: Option<T>): Option<T> {
    if existing.Some? then existing else incoming
  }

  /** The row the join makes from a stored row and a new row with the same key. */
  function Combine(e: Row, n: Row): (r: Row)
    requires KeyOf(e) == KeyOf(n)
    ensures KeyOf(r) == KeyOf(e)
  {
    Row(e.subject, e.path,
        Coalesce(e.sender, n.sender),
        Coalesce(e.recipients, n.recipients),
        Coalesce(e.archive, n.archive),
        Coalesce(e.date, n.date))
  }

  /** The rows of a table with key k, in order. */
  function WithKey(rows: seq<Row>, k: Key): (r: seq<Row>)
    ensures forall x | x in r :: KeyOf(x) == k
  {
    if rows == [] then []
    else (if KeyOf(rows[0]) == k then [rows[0]] else []) + WithKey(rows[1..], k)
  }

  /** Joining one stored row with each of the new rows that share its key. */
  function CombineAll(e: Row, ns: seq<Row>): (r: seq<Row>)
    requires forall n | n in ns :: KeyOf(n) == KeyOf(e)
    ensures |r| == |ns|
    ensures forall x | x in r :: KeyOf(x) == KeyOf(e)
  {
    if ns == [] then [] else [Combine(e, ns[0])] + CombineAll(e, ns[1..])
  }

  /** The i-th joined row pairs the stored row with the i-th new row, as the join does. */
  lemma {:induction false} CombineAllPairs(e: Row, ns: seq<Row>)
    requires forall n | n in ns :: KeyOf(n) == KeyOf(e)
    ensures forall i | 0 <= i < |ns| :: CombineAll(e, ns)[i] == Combine(e, ns[i])
  {
    if ns != [] {
      CombineAllPairs(e, ns[1..]);
    }
  }

  /**
   * The left part of the outer join: every stored row, joined with each new
   * row that has its key, or on its own when there is none.
   */
  function JoinExisting(existing: seq<Row>, incoming: seq<Row>): seq<Row> {
    if existing == [] then []
    else
      var e := existing[0];
      var ns := WithKey(incoming, KeyOf(e));
      (if ns == [] then [e] else CombineAll(e, ns)) + JoinExisting(existing[1..], incoming)
  }

  /** The right-only part of the outer join: new rows whose key is not stored. */
  function IncomingOnly(existing: seq<Row>, incoming: seq<Row>): seq<Row> {
    if incoming == [] then []
    else
      (if KeyOf(incoming[0]) in Keys(existing) then [] else [incoming[0]])
      + IncomingOnly(existing, incoming[1..])
  }

  /** `pd.merge(existing, new, on=["Subject", "Path"], how="outer")` followed by the four `fillna` steps. */
  function OuterMerge(existing: seq<Row>, incoming: seq<Row>): (r: seq<Row>)
    ensures Keys(r) == Keys(existing) + Keys(incoming)
  {
    JoinExistingFirst(existing, incoming);
    IncomingOnlyFirst(existing, incoming);
    KeysConcat(JoinExisting(existing, incoming), IncomingOnly(existing, incoming));
    JoinExisting(existing, incoming) + IncomingOnly(existing, incoming)
  }

  /** `drop_duplicates(subset=["Subject", "Path"], keep="first")`, skipping the keys in seen. */
  function DedupFrom(rows: seq<Row>, seen: set<Key>): seq<Row> {
    if rows == [] then []
    else if KeyOf(rows[0]) in seen then DedupFrom(rows[1..], seen)
    else [rows[0]] + DedupFrom(rows[1..], seen + {KeyOf(rows[0])})
  }

  /** `drop_duplicates` on the key: one row per key of the table. */
  function DropDuplicates(rows: seq<Row>): (r: seq<Row>)
    ensures UniqueKeys(r) && Keys(r) == Keys(rows) && |r| == |Keys(rows)|
  {
    DedupFromKeepsFirst(rows, {});
    UniqueKeysCount(DedupFrom(rows, {}));
    DedupFrom(rows, {})
  }

  /** The catalogue written back: the merged table without repeated keys. */
  function Reconcile(existing: seq<Row>, incoming: seq<Row>): (r: seq<Row>)
    ensures UniqueKeys(r)
    ensures Keys(r) == Keys(existing) + Keys(incoming)
    ensures |r| == |Keys(existing) + Keys(incoming)|
  {
    DropDuplicates(OuterMerge(existing, incoming))
  }

  /** What a stored row becomes: its own cells, gaps filled from the first new row with its key. */
  function Merged(e: Row, incoming: seq<Row>): (r: Row)
    ensures KeyOf(r) == KeyOf(e)
  {
    if KeyOf(e) in Keys(incoming) then Combine(e, FirstWithKey(incoming, KeyOf(e))) else e
  }

  /**
   * The row the catalogue should hold for key k: the first stored row with
   * that key, gaps filled from the scan; or, for a key not stored, the first
   * scanned row with it.
   */
  function Expected(existing: seq<Row>, incoming: seq<Row>, k: Key): (r: Row)
    requires k in Keys(existing) + Keys(incoming)
    ensures KeyOf(r) == k
  {
    if k in Keys(existing) then Merged(FirstWithKey(existing, k), incoming)
    else FirstWithKey(incoming, k)
  }

  // ---------------------------------------------------------------------
  // The parts of the join

  lemma {:induction false} WithKeyFirst(rows: seq<Row>, k: Key)
    ensures WithKey(rows, k) == [] <==> k !in Keys(rows)
    ensures k in Keys(rows) ==> WithKey(rows, k)[0] == FirstWithKey(rows, k)
  {
    if rows != [] {
      KeysCons(rows);
      WithKeyFirst(rows[1..], k);
    }
  }

  lemma {:induction false} CombineAllKeys(e: Row, ns: seq<Row>)
    requires ns != [] && forall n | n in ns :: KeyOf(n) == KeyOf(e)
    ensures Keys(CombineAll(e, ns)) == {KeyOf(e)}
    ensures KeyOf(e) in Keys(CombineAll(e, ns))
    ensures FirstWithKey(CombineAll(e, ns), KeyOf(e)) == Combine(e, ns[0])
  {
    var r := CombineAll(e, ns);
    assert r[0] in r;
  }

  /** The left part of the join has the stored keys, and its first row per key is the merged stored row. */
  lemma {:induction false} JoinExistingFirst(existing: seq<Row>, incoming: seq<Row>)
    ensures Keys(JoinExisting(existing, incoming)) == Keys(existing)
    ensures forall k | k in Keys(existing) ::
      FirstWithKey(JoinExisting(existing, incoming), k) == Merged(FirstWithKey(existing, k), incoming)
  {
    if existing != [] {
      var e := existing[0];
      var ns := WithKey(incoming, KeyOf(e));
      var head := if ns == [] then [e] else CombineAll(e, ns);
      var rest := JoinExisting(existing[1..], incoming);
      assert JoinExisting(existing, incoming) == head + rest;
      KeysCons(existing);
      JoinExistingFirst(existing[1..], incoming);
      WithKeyFirst(incoming, KeyOf(e));
      assert Keys(head) == {KeyOf(e)} && FirstWithKey(head, KeyOf(e)) == Merged(e, incoming) by {
        if ns == [] {
          KeysCons(head);
        } else {
          CombineAllKeys(e, ns);
        }
      }
      KeysConcat(head, rest);
      forall k | k in Keys(existing)
        ensures FirstWithKey(head + rest, k) == Merged(FirstWithKey(existing, k), incoming)
      {
        FirstWithKeyConcat(head, rest, k);
      }
    }
  }

  /** The right part of the join has the new keys that are not stored, each with its first scanned row. */
  lemma {:induction false} IncomingOnlyFirst(existing: seq<Row>, incoming: seq<Row>)
    ensures Keys(IncomingOnly(existing, incoming)) == Keys(incoming) - Keys(existing)
    ensures forall k | k in Keys(incoming) - Keys(existing) ::
      FirstWithKey(IncomingOnly(existing, incoming), k) == FirstWithKey(incoming, k)
  {
    if incoming != [] {
      var n := incoming[0];
      var head := if KeyOf(n) in Keys(existing) then [] else [n];
      var rest := IncomingOnly(existing, incoming[1..]);
      assert IncomingOnly(existing, incoming) == head + rest;
      KeysCons(incoming);
      IncomingOnlyFirst(existing, incoming[1..]);
      assert Keys(head) == (if KeyOf(n) in Keys(existing) then {} else {KeyOf(n)}) by {
        if head != [] {
          KeysCons(head);
        }
      }
      KeysConcat(head, rest);
      forall k | k in Keys(incoming) - Keys(existing)
        ensures FirstWithKey(head + rest, k) == FirstWithKey(incoming, k)
      {
        FirstWithKeyConcat(head, rest, k);
        if head != [] {
          KeysCons(head);
        }
      }
    }
  }

  /** The outer join has the union of the keys, and its first row per key is the expected row. */
  lemma OuterMergeFirst(existing: seq<Row>, incoming: seq<Row>)
    ensures Keys(OuterMerge(existing, incoming)) == Keys(existing) + Keys(incoming)
    ensures forall k | k in Keys(existing) + Keys(incoming) ::
      FirstWithKey(OuterMerge(existing, incoming), k) == Expected(existing, incoming, k)
  {
    var left := JoinExisting(existing, incoming);
    var right := IncomingOnly(existing, incoming);
    JoinExistingFirst(existing, incoming);
    IncomingOnlyFirst(existing, incoming);
    KeysConcat(left, right);
    forall k | k in Keys(existing) + Keys(incoming)
      ensures FirstWithKey(left + right, k) == Expected(existing, incoming, k)
    {
      FirstWithKeyConcat(left, right, k);
    }
  }

  // ---------------------------------------------------------------------
  // Removing duplicate keys

  /** Deduplication keeps, once each, the first row of every key not yet seen. */
  lemma {:induction false} DedupFromKeepsFirst(rows: seq<Row>, seen: set<Key>)
    ensures Keys(DedupFrom(rows, seen)) == Keys(rows) - seen
    ensures UniqueKeys(DedupFrom(rows, seen))
    ensures forall i | 0 <= i < |DedupFrom(rows, seen)| ::
      KeyOf(DedupFrom(rows, seen)[i]) in Keys(rows) &&
      DedupFrom(rows, seen)[i] == FirstWithKey(rows, KeyOf(DedupFrom(rows, seen)[i]))
  {
    var r := DedupFrom(rows, seen);
    if rows != [] {
      var h := rows[0];
      KeysCons(rows);
      if KeyOf(h) in seen {
        DedupFromKeepsFirst(rows[1..], seen);
        forall i | 0 <= i < |r| ensures r[i] == FirstWithKey(rows, KeyOf(r[i])) {
          assert r[i] in r;
        }
      } else {
        var tail := DedupFrom(rows[1..], seen + {KeyOf(h)});
        DedupFromKeepsFirst(rows[1..], seen + {KeyOf(h)});
        assert r == [h] + tail;
        KeysCons(r);
        assert r[1..] == tail;
        forall i, j | 0 <= i < j < |r| ensures KeyOf(r[i]) != KeyOf(r[j]) {
          assert r[j] == tail[j - 1] && r[j] in tail;
        }
        forall i | 0 <= i < |r| ensures KeyOf(r[i]) in Keys(rows) && r[i] == FirstWithKey(rows, KeyOf(r[i])) {
          if i > 0 {
            assert r[i] == tail[i - 1] && r[i] in tail;
          }
        }
      }
    }
  }

  /** The rows of a table without repeated keys survive deduplication unchanged. */
  lemma {:induction false} DedupFromUnique(rows: seq<Row>, seen: set<Key>)
    requires UniqueKeys(rows) && seen !! Keys(rows)
    ensures DedupFrom(rows, seen) == rows
  {
    if rows != [] {
      KeysCons(rows);
      var h := rows[0];
      assert KeyOf(h) !in Keys(rows[1..]) by {
        forall x | x in rows[1..] ensures KeyOf(x) != KeyOf(h) {
          var j :| 0 <= j < |rows[1..]| && rows[1..][j] == x;
          assert rows[j + 1] == x;
        }
      }
      DedupFromUnique(rows[1..], seen + {KeyOf(h)});
    }
  }

  /** `drop_duplicates` leaves one row per key: the first one. */
  lemma DropDuplicatesKeepsFirst(rows: seq<Row>)
    ensures UniqueKeys(DropDuplicates(rows))
    ensures Keys(DropDuplicates(rows)) == Keys(rows)
    ensures |DropDuplicates(rows)| == |Keys(rows)|
    ensures forall i | 0 <= i < |DropDuplicates(rows)| ::
      KeyOf(DropDuplicates(rows)[i]) in Keys(rows) &&
      DropDuplicates(rows)[i] == FirstWithKey(rows, KeyOf(DropDuplicates(rows)[i]))
  {
    DedupFromKeepsFirst(rows, {});
    UniqueKeysCount(DropDuplicates(rows));
  }

  // ---------------------------------------------------------------------
  // What the reconciled catalogue holds

  /**
   * The written catalogue has one row per key of the stored table or the
   * scan, and each row is the expected one for its key.
   */
  lemma ReconcileHoldsExpected(existing: seq<Row>, incoming: seq<Row>)
    ensures UniqueKeys(Reconcile(existing, incoming))
    ensures Keys(Reconcile(existing, incoming)) == Keys(existing) + Keys(incoming)
    ensures |Reconcile(existing, incoming)| == |Keys(existing) + Keys(incoming)|
    ensures forall i | 0 <= i < |Reconcile(existing, incoming)| ::
      KeyOf(Reconcile(existing, incoming)[i]) in Keys(existing) + Keys(incoming) &&
      Reconcile(existing, incoming)[i] == Expected(existing, incoming, KeyOf(Reconcile(existing, incoming)[i]))
  {
    OuterMergeFirst(existing, incoming);
    DropDuplicatesKeepsFirst(OuterMerge(existing, incoming));
  }

  /**
   * For a stored key, every non-empty stored cell wins, and an empty one is
   * filled from the first scanned row with that key (or stays empty).
   */
  lemma StoredCellsWin(existing: seq<Row>, incoming: seq<Row>, r: Row)
    requires r in Reconcile(existing, incoming) && KeyOf(r) in Keys(existing)
    ensures var e := FirstWithKey(existing, KeyOf(r));
      var n := if KeyOf(r) in Keys(incoming) then Some(FirstWithKey(incoming, KeyOf(r))) else None;
      r.subject == e.subject && r.path == e.path &&
      (e.sender.Some? ==> r.sender == e.sender) &&
      (e.sender.None? ==> r.sender == (if n.Some? then n.value.sender else None)) &&
      (e.recipients.Some? ==> r.recipients == e.recipients) &&
      (e.recipients.None? ==> r.recipients == (if n.Some? then n.value.recipients else None)) &&
      (e.archive.Some? ==> r.archive == e.archive) &&
      (e.archive.None? ==> r.archive == (if n.Some? then n.value.archive else None)) &&
      (e.date.Some? ==> r.date == e.date) &&
      (e.date.None? ==> r.date == (if n.Some? then n.value.date else None))
  {
    ReconcileHoldsExpected(existing, incoming);
    var out := Reconcile(existing, incoming);
    var i :| 0 <= i < |out| && out[i] == r;
  }

  /** A key the catalogue did not hold enters with the first scanned row that has it. */
  lemma NewKeyTakesScannedRow(existing: seq<Row>, incoming: seq<Row>, r: Row)
    requires r in Reconcile(existing, incoming) && KeyOf(r) !in Keys(existing)
    ensures KeyOf(r) in Keys(incoming) && r == FirstWithKey(incoming, KeyOf(r))
  {
    ReconcileHoldsExpected(existing, incoming);
    var out := Reconcile(existing, incoming);
    var i :| 0 <= i < |out| && out[i] == r;
  }

  /** An empty scan leaves a catalogue without repeated keys with the same rows, as many of them. */
  lemma {:induction false} ReconcileWithEmptyScan(existing: seq<Row>)
    requires UniqueKeys(existing)
    ensures |Reconcile(existing, [])| == |existing|
    ensures forall x :: x in Reconcile(existing, []) <==> x in existing
  {
    assert JoinExisting(existing, []) == existing by {
      JoinExistingNoMatches(existing);
    }
    assert OuterMerge(existing, []) == existing;
    DedupFromUnique(existing, {});
  }

  lemma {:induction false} JoinExistingNoMatches(existing: seq<Row>)
    ensures JoinExisting(existing, []) == existing
  {
    if existing != [] {
      JoinExistingNoMatches(existing[1..]);
    }
  }

  /** A scan with one row of a new key adds exactly that row and keeps every stored one. */
  lemma {:induction false} ReconcileAddsNewRow(existing: seq<Row>, r: Row)
    requires UniqueKeys(existing) && KeyOf(r) !in Keys(existing)
    ensures |Reconcile(existing, [r])| == |existing| + 1
    ensures forall x :: x in Reconcile(existing, [r]) <==> x in existing || x == r
  {
    JoinExistingMissesKey(existing, r);
    assert IncomingOnly(existing, [r]) == [r];
    var all := existing + [r];
    assert UniqueKeys(all) by {
      forall i | 0 <= i < |existing| ensures KeyOf(all[i]) != KeyOf(r) {
        assert all[i] in existing;
      }
    }
    KeysConcat(existing, [r]);
    DedupFromUnique(all, {});
    assert Reconcile(existing, [r]) == all;
  }

  lemma {:induction false} JoinExistingMissesKey(existing: seq<Row>, r: Row)
    requires KeyOf(r) !in Keys(existing)
    ensures JoinExisting(existing, [r]) == existing
  {
    if existing != [] {
      KeysCons(existing);
      assert WithKey([r], KeyOf(existing[0])) == [];
      JoinExistingMissesKey(existing[1..], r);
    }
  }

  /**
   * Starting from no catalogue, the result holds the rows of the scan without
   * repeated keys, each once; their order is not claimed, since pandas sorts
   * the keys of an outer join.
   */
  lemma {:induction false} ReconcileWithoutCatalogue(incoming: seq<Row>)
    ensures multiset(Reconcile([], incoming)) == multiset(DropDuplicates(incoming))
  {
    assert IncomingOnly([], incoming) == incoming by {
      IncomingOnlyOfNothing(incoming);
    }
    assert OuterMerge([], incoming) == incoming;
  }

  lemma {:induction false} IncomingOnlyOfNothing(incoming: seq<Row>)
    ensures IncomingOnly([], incoming) == incoming
  {
    if incoming != [] {
      IncomingOnlyOfNothing(incoming[1..]);
    }
  }

  lemma CoalesceTwice<T>(a: Option<T>, b: Option<T>)
    ensures Coalesce(Coalesce(a, b), b) == Coalesce(a, b)
  {
  }

  /** The expected row of a key is already merged with the scan. */
  lemma ExpectedIsMerged(existing: seq<Row>, incoming: seq<Row>, k: Key)
    requires k in Keys(existing) + Keys(incoming)
    ensures Merged(Expected(existing, incoming, k), incoming) == Expected(existing, incoming, k)
  {
    var y := Expected(existing, incoming, k);
    if k in Keys(incoming) {
      var n := FirstWithKey(incoming, k);
      if k in Keys(existing) {
        CoalesceTwice(FirstWithKey(existing, k).sender, n.sender);
      }
    }
  }

  /** Two tables without repeated keys, the second made of first rows of the first, hold the same rows. */
  lemma SameRows(a: seq<Row>, b: seq<Row>)
    requires UniqueKeys(a) && UniqueKeys(b) && Keys(a) == Keys(b)
    requires forall i | 0 <= i < |b| :: KeyOf(b[i]) in Keys(a) && b[i] == FirstWithKey(a, KeyOf(b[i]))
    ensures |b| == |a|
    ensures forall x :: x in b <==> x in a
  {
    UniqueKeysCount(a);
    UniqueKeysCount(b);
    forall x | x in a ensures x in b {
      var j :| 0 <= j < |a| && a[j] == x;
      assert KeyOf(x) in Keys(b);
      var y :| y in b && KeyOf(y) == KeyOf(x);
      var i :| 0 <= i < |b| && b[i] == y;
      UniqueRowIsFirst(a, j);
    }
    forall x | x in b ensures x in a {
      var i :| 0 <= i < |b| && b[i] == x;
    }
  }

  /**
   * Reconciling the same scan a second time changes no row: the result holds
   * the same rows, as many of them, as the first result.
   */
  lemma ReconcileIsStable(existing: seq<Row>, incoming: seq<Row>)
    ensures var once := Reconcile(existing, incoming);
      var twice := Reconcile(once, incoming);
      |twice| == |once| && forall x :: x in twice <==> x in once
  {
    var once := Reconcile(existing, incoming);
    var twice := Reconcile(once, incoming);
    ReconcileHoldsExpected(existing, incoming);
    ReconcileHoldsExpected(once, incoming);
    forall i | 0 <= i < |twice| ensures KeyOf(twice[i]) in Keys(once) && twice[i] == FirstWithKey(once, KeyOf(twice[i])) {
      var k := KeyOf(twice[i]);
      var y := FirstWithKey(once, k);
      var j :| 0 <= j < |once| && once[j] == y;
      ExpectedIsMerged(existing, incoming, k);
    }
    SameRows(once, twice);
  }
}
