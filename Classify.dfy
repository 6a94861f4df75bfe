/**
 * One run of the classification script: load the catalogue (an empty one when
 * there is no workbook yet), scan the mail folder, reconcile the new rows with
 * the catalogue, and save the result with a backup of the previous workbook.
 */
module Classify {
  import opened Wrappers
  import opened Table
  import opened Scan
  import opened Merge
  import opened Store

  /** Lines 28-31: the stored catalogue, or an empty table when the workbook does not exist. */
  function Catalogue(files: map<string, Content>, path: string): (rows: seq<Row>)
    ensures path !in files ==> rows == []
  {
    if path in files then files[path] else []
  }

  /**
   * The table the run saves, or the failure that ends it before anything is
   * saved: the run fails exactly when the reader fails fatally on some
   * candidate file, and a saved table has no repeated keys and keeps every
   * stored key.
   */
  function Run(existing: seq<Row>, walk: seq<Dir>, read: Reader, clock: Clock): (r: Result<seq<Row>, Abort>)
    ensures r.Failure? <==> AnyFatal(read, Candidates(existing, walk))
    ensures r.Success? ==> UniqueKeys(r.value) && Keys(existing) <= Keys(r.value)
  {
    ScanAbortsOnFirstFatal(existing, read, walk);
    match ScanWalk(existing, read, walk, Start)
    case Failure(a) => Failure(a)
    case Success(st) => Success(Reconcile(existing, RowsOf(read, clock, st.tried)))
  }

  /**
   * The whole script on the store. A failure of the reader that the scan does
   * not tolerate ends the run before the save, and the store is left as it was.
   */
  method Classify(store: FileStore, path: string, walk: seq<Dir>, read: Reader, clock: Clock)
    returns (outcome: Result<seq<Row>, Abort>)
    modifies store
    ensures outcome == Run(Catalogue(old(store.files), path), walk, read, clock)
    ensures outcome.Failure? ==> store.files == old(store.files)
    ensures outcome.Success? ==> store.files == SaveState(old(store.files), path, outcome.value, 3)
  {
    var existing := if store.Exists(path) then store.files[path] else [];
    var scan, fileList := RunScan(existing, walk, read, clock);
    if scan.Failure? {
      return Failure(scan.error);
    }
    var table := Reconcile(existing, fileList);
    store.SaveWithBackup(path, table);
    outcome := Success(table);
  }

  /**
   * A run that completes saves a table without repeated (Subject, Path) pairs
   * whose keys are those of the catalogue and those of the messages read, one
   * row per key.
   */
  lemma RunKeepsEveryKey(existing: seq<Row>, walk: seq<Dir>, read: Reader, clock: Clock)
    requires Run(existing, walk, read, clock).Success?
    ensures var table := Run(existing, walk, read, clock).value;
      var rows := RowsOf(read, clock, Candidates(existing, walk));
      UniqueKeys(table)
      && Keys(table) == Keys(existing) + Keys(rows)
      && |table| == |Keys(existing) + Keys(rows)|
  {
    ScanResult(existing, read, clock, walk);
    var rows := RowsOf(read, clock, Candidates(existing, walk));
    ReconcileHoldsExpected(existing, rows);
  }

  /**
   * Without a workbook, the run saves the new rows with repeated keys dropped
   * (lines 28-31), each once and in no claimed order.
   */
  lemma RunWithoutWorkbook(files: map<string, Content>, path: string, walk: seq<Dir>, read: Reader, clock: Clock)
    requires path !in files
    ensures var r := Run(Catalogue(files, path), walk, read, clock);
      r.Success? ==> multiset(r.value) == multiset(DropDuplicates(RowsOf(read, clock, Candidates([], walk))))
  {
    if ScanWalk([], read, walk, Start).Success? {
      ScanResult([], read, clock, walk);
      ReconcileWithoutCatalogue(RowsOf(read, clock, Candidates([], walk)));
    }
  }
}
