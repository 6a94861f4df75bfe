/**
 * The scan of the mail folder: for every file `os.walk` yields, the filters
 * (extension, path length, already catalogued), the call to the message
 * reader with its tolerated failures, and one new row per message read,
 * with the progress and pause checkpoints.
 */
module Scan {
  import opened Wrappers
  import opened Table
  import opened Subject
  import Store

  /** The failures of the message reader: the four the scan skips, and any other. */
  datatype ReadError =
    | InvalidFileFormat
    | AttributeError
    | NotImplemented
    | UnrecognizedMsgType
    | OtherError(name: string)

  /** The failures the scan reports and skips; any other ends the run. */
  predicate Tolerated(e: ReadError) {
    !e.OtherError?
  }

  /** The fields the scan takes from a parsed message. */
  datatype Message = Message(subject: Option<string>, sender: Option<string>, to: Option<string>)

  /** `extract_msg.Message` on a full path: the parsed message or the failure it raised. */
  type Reader = string -> Result<Message, ReadError>

  /** `pd.Timestamp.now()` when the n-th new row (counting from 0) is made. */
  type Clock = nat -> Stamp

  /** One entry of the walk: a directory and the names of the files in it. */
  datatype Dir = Dir(subdir: string, files: seq<string>)

  /** A file of the walk: its directory and its name. */
  datatype FileRef = FileRef(subdir: string, name: string)

  /** What the scan writes on the console; only the checkpoints matter to the model. */
  datatype Notice =
    | LongPathSkipped(path: string)
    | ReadSkipped(path: string, error: ReadError)
    | Progress(count: nat)
    | Pause(count: nat)

  /**
   * The scan's state: the counter `processed_emails`, the files handed to the
   * reader so far, and the console. The new rows (`file_list`) are a
   * function of the files tried: see RowsOf.
   */
  datatype ScanState = ScanState(count: nat, tried: seq<FileRef>, notices: seq<Notice>)

  /** The run ends with the reader's failure on this path. */
  datatype Abort = Abort(path: string, error: ReadError)

  const MaxPathLength := 260
  const ReportEvery := 1000
  const PauseEvery := 10000

  const Start := ScanState(0, [], [])

  /** A bare drive such as "C:", which `os.path.join` does not follow with a separator. */
  predicate IsBareDrive(subdir: string) {
    |subdir| == 2 && subdir[1] == ':' && subdir[0] !in Store.Separators
  }

  /**
   * `os.path.join(subdir, name)` with Windows rules, for a plain file name:
   * a backslash goes between the two unless the directory is empty, already
   * ends with a separator, or is a bare drive such as "C:".
   */
  function Join(subdir: string, name: string): (path: string)
    ensures |subdir| + |name| <= |path| <= |subdir| + |name| + 1
  {
    if subdir == [] || subdir[|subdir| - 1] in Store.Separators || IsBareDrive(subdir)
    then subdir + name
    else subdir + "\\" + name
  }

  /**
   * The joined path starts with the directory and ends with the name, and a
   * backslash is put between them exactly when the directory is not empty,
   * does not end with a separator and is not a bare drive.
   */
  lemma JoinKeepsBoth(subdir: string, name: string)
    ensures var path := Join(subdir, name);
      && path[..|subdir|] == subdir && path[|path| - |name|..] == name
      && (|path| == |subdir| + |name| + 1 <==>
            !(subdir == [] || subdir[|subdir| - 1] in Store.Separators || IsBareDrive(subdir)))
      && (|path| == |subdir| + |name| + 1 ==> path[|subdir|] == '\\')
  {
  }

  function PathOf(f: FileRef): string {
    Join(f.subdir, f.name)
  }

  /** `name.endswith(suffix)`: case-sensitive. */
  predicate EndsWith(name: string, suffix: string) {
    suffix == [] || (name != [] && name[|name| - 1] == suffix[|suffix| - 1]
                     && EndsWith(name[..|name| - 1], suffix[..|suffix| - 1]))
  }

  /** EndsWith holds exactly when the name's last |suffix| characters are the suffix. */
  lemma {:induction false} EndsWithIsSuffix(name: string, suffix: string)
    ensures EndsWith(name, suffix) <==> |suffix| <= |name| && name[|name| - |suffix|..] == suffix
  {
    if suffix != [] && name != [] {
      var n, t := name[..|name| - 1], suffix[..|suffix| - 1];
      EndsWithIsSuffix(n, t);
      if |suffix| <= |name| {
        assert name[|name| - |suffix|..] == n[|n| - |t|..] + [name[|name| - 1]];
        assert suffix == t + [suffix[|suffix| - 1]];
      }
    }
  }

  /** A file the reader is called on: a ".msg" name, a short enough path, not yet catalogued under its raw name. */
  predicate IsCandidate(existing: seq<Row>, f: FileRef) {
    EndsWith(f.name, ".msg") && |PathOf(f)| <= MaxPathLength && !HasKey(existing, f.name, f.subdir)
  }

  /** The reader fails on f with a failure the scan does not tolerate. */
  predicate Fatal(read: Reader, f: FileRef) {
    read(PathOf(f)).Failure? && !Tolerated(read(PathOf(f)).error)
  }

  /** The row made from a message read from f, stamped by the clock. */
  function RowFor(f: FileRef, m: Message, stamp: Stamp): Row {
    Row(Normalize(m.subject), f.subdir, m.sender, m.to, None, Some(stamp))
  }

  /** The checkpoints reached when the counter becomes n. */
  function Checkpoints(n: nat): seq<Notice> {
    (if n % ReportEvery == 0 then [Progress(n)] else [])
    + (if n % PauseEvery == 0 then [Pause(n)] else [])
  }

  /** A ".msg" file whose path is too long: the scan reports it and skips it. */
  predicate IsTooLong(f: FileRef) {
    EndsWith(f.name, ".msg") && |PathOf(f)| > MaxPathLength
  }

  /** A candidate file handed to the reader: it is tried, and counted when it is parsed. */
  function ReadStep(read: Reader, f: FileRef, st: ScanState): Result<ScanState, Abort> {
    var path := PathOf(f);
    var tried := st.tried + [f];
    match read(path)
    case Failure(e) =>
      if Tolerated(e) then Success(ScanState(st.count, tried, st.notices + [ReadSkipped(path, e)]))
      else Failure(Abort(path, e))
    case Success(_) =>
      Success(ScanState(st.count + 1, tried, st.notices + Checkpoints(st.count + 1)))
  }

  /**
   * One iteration of the inner loop, on file f. The source tests the
   * extension, then the length of the path, then the catalogue; the files it
   * skips without a word are those that are neither candidates nor too long.
   * ScanDirectory follows the source's order and is proved to agree.
   */
  function Visit(existing: seq<Row>, read: Reader, f: FileRef, st: ScanState): (r: Result<ScanState, Abort>)
    ensures r.Failure? <==> IsCandidate(existing, f) && Fatal(read, f)
    ensures r.Failure? ==> r.error == AbortAt(read, f)
    ensures r.Success? ==> r.value.tried == st.tried + (if IsCandidate(existing, f) then [f] else [])
  {
    if IsCandidate(existing, f) then ReadStep(read, f, st)
    else if IsTooLong(f) then Success(st.(notices := st.notices + [LongPathSkipped(PathOf(f))]))
    else Success(st)
  }

  /** The inner loop over the files of one directory. */
  function ScanFiles(existing: seq<Row>, read: Reader, subdir: string, files: seq<string>, st: ScanState): (r: Result<ScanState, Abort>)
    ensures r.Success? ==> r.value.tried == st.tried + CandidatesIn(existing, subdir, files)
  {
    if files == [] then Success(st)
    else
      match Visit(existing, read, FileRef(subdir, files[0]), st)
      case Failure(a) => Failure(a)
      case Success(next) =>
        var head := if IsCandidate(existing, FileRef(subdir, files[0])) then [FileRef(subdir, files[0])] else [];
        assert st.tried + head + CandidatesIn(existing, subdir, files[1..])
            == st.tried + (head + CandidatesIn(existing, subdir, files[1..]));
        ScanFiles(existing, read, subdir, files[1..], next)
  }

  /** The outer loop over the walk. */
  function ScanWalk(existing: seq<Row>, read: Reader, walk: seq<Dir>, st: ScanState): (r: Result<ScanState, Abort>)
    ensures r.Success? ==> r.value.tried == st.tried + Candidates(existing, walk)
    decreases |walk|, 1
  {
    if walk == [] then Success(st)
    else
      var here := CandidatesIn(existing, walk[0].subdir, walk[0].files);
      assert st.tried + here + Candidates(existing, walk[1..]) == st.tried + (here + Candidates(existing, walk[1..]));
      ContinueWalk(existing, read, ScanFiles(existing, read, walk[0].subdir, walk[0].files, st), walk[1..])
  }

  /** The rest of the walk after one directory's outcome. */
  function ContinueWalk(existing: seq<Row>, read: Reader, prev: Result<ScanState, Abort>, rest: seq<Dir>): (r: Result<ScanState, Abort>)
    ensures prev.Failure? ==> r == prev
    ensures prev.Success? && r.Success? ==> r.value.tried == prev.value.tried + Candidates(existing, rest)
    decreases |rest| + 1, 0
  {
    match prev
    case Failure(a) => Failure(a)
    case Success(st) => ScanWalk(existing, read, rest, st)
  }

  /**
   * The scan of lines 43-98: the outer loop over the walk. It ends early on
   * a failure the scan does not tolerate; otherwise `file_list` holds one
   * row per message read and the counter their number.
   */
  method RunScan(existing: seq<Row>, walk: seq<Dir>, read: Reader, clock: Clock)
    returns (outcome: Result<ScanState, Abort>, fileList: seq<Row>)
    ensures outcome == ScanWalk(existing, read, walk, Start)
    ensures outcome.Success? ==>
      fileList == RowsOf(read, clock, outcome.value.tried) && |fileList| == outcome.value.count
  {
    fileList := [];
    var st := Start;
    for i := 0 to |walk|
      invariant fileList == RowsOf(read, clock, st.tried) && st.count == |fileList|
      invariant ScanWalk(existing, read, walk, Start) == ScanWalk(existing, read, walk[i..], st)
    {
      assert walk[i..][1..] == walk[i + 1..];
      var r;
      r, fileList := ScanDirectory(existing, read, clock, walk[i].subdir, walk[i].files, st, fileList);
      if r.Failure? {
        return r, fileList;
      }
      st := r.value;
    }
    outcome := Success(st);
  }

  /**
   * The inner loop of lines 44-98 over the files of one directory, from the
   * scan state st with its rows fileList.
   */
  method ScanDirectory(existing: seq<Row>, read: Reader, clock: Clock, subdir: string, files: seq<string>,
                       st: ScanState, fileList: seq<Row>)
    returns (r: Result<ScanState, Abort>, fileList': seq<Row>)
    requires fileList == RowsOf(read, clock, st.tried) && st.count == |fileList|
    ensures r == ScanFiles(existing, read, subdir, files, st)
    ensures r.Success? ==> fileList' == RowsOf(read, clock, r.value.tried) && |fileList'| == r.value.count
  {
    fileList' := fileList;
    var processed := st.count;
    var tried := st.tried;
    var notices := st.notices;
    for j := 0 to |files|
      invariant fileList' == RowsOf(read, clock, tried) && processed == |fileList'|
      invariant ScanFiles(existing, read, subdir, files, st)
             == ScanFiles(existing, read, subdir, files[j..], ScanState(processed, tried, notices))
    {
      var file := files[j];
      ghost var before := ScanState(processed, tried, notices);
      ghost var step := Visit(existing, read, FileRef(subdir, file), before);
      ScanFilesStep(existing, read, subdir, files, j, before);
      if !EndsWith(file, ".msg") {
        assert step == Success(before);
        continue;
      }
      var filePath := Join(subdir, file);
      if |filePath| > MaxPathLength {
        notices := notices + [LongPathSkipped(filePath)];
        assert step == Success(ScanState(processed, tried, notices));
        continue;
      }
      if HasKey(existing, file, subdir) {
        assert step == Success(before);
        continue;
      }
      RowsOfSnoc(read, clock, tried, FileRef(subdir, file));
      tried := tried + [FileRef(subdir, file)];
      var msg := read(filePath);
      if msg.Failure? {
        if Tolerated(msg.error) {
          notices := notices + [ReadSkipped(filePath, msg.error)];
          assert step == Success(ScanState(processed, tried, notices));
          continue;
        }
        assert step == Failure(Abort(filePath, msg.error));
        return Failure(Abort(filePath, msg.error)), fileList';
      }
      var m := msg.value;
      fileList' := fileList' + [RowFor(FileRef(subdir, file), m, clock(processed))];
      processed := processed + 1;
      notices := ReportCheckpoints(notices, processed);
      assert step == Success(ScanState(processed, tried, notices));
    }
    r := Success(ScanState(processed, tried, notices));
  }

  /** Lines 92-98: the progress line every 1000 messages and the pause every 10000. */
  method ReportCheckpoints(notices: seq<Notice>, processed: nat) returns (notices': seq<Notice>)
    ensures notices' == notices + Checkpoints(processed)
  {
    notices' := notices;
    if processed % ReportEvery == 0 {
      notices' := notices' + [Progress(processed)];
    }
    if processed % PauseEvery == 0 {
      notices' := notices' + [Pause(processed)];
    }
  }

  /** The inner loop at position j: one visit, then the rest of the files. */
  lemma ScanFilesStep(existing: seq<Row>, read: Reader, subdir: string, files: seq<string>, j: nat, st: ScanState)
    requires j < |files|
    ensures ScanFiles(existing, read, subdir, files[j..], st)
         == match Visit(existing, read, FileRef(subdir, files[j]), st)
            case Failure(a) => Failure(a)
            case Success(next) => ScanFiles(existing, read, subdir, files[j + 1..], next)
  {
    assert files[j..][0] == files[j] && files[j..][1..] == files[j + 1..];
  }

  // ---------------------------------------------------------------------
  // Which files the reader sees

  /** The candidate files of one directory, in order. */
  function CandidatesIn(existing: seq<Row>, subdir: string, files: seq<string>): seq<FileRef> {
    if files == [] then []
    else
      (if IsCandidate(existing, FileRef(subdir, files[0])) then [FileRef(subdir, files[0])] else [])
      + CandidatesIn(existing, subdir, files[1..])
  }

  /** The candidate files of the whole walk, in order. */
  function Candidates(existing: seq<Row>, walk: seq<Dir>): seq<FileRef> {
    if walk == [] then []
    else CandidatesIn(existing, walk[0].subdir, walk[0].files) + Candidates(existing, walk[1..])
  }

  /** The abort a fatal file causes. */
  function AbortAt(read: Reader, f: FileRef): Abort
    requires read(PathOf(f)).Failure?
  {
    Abort(PathOf(f), read(PathOf(f)).error)
  }

  /** Some file in fs is fatal to the reader. */
  predicate AnyFatal(read: Reader, fs: seq<FileRef>) {
    exists i | 0 <= i < |fs| :: Fatal(read, fs[i])
  }

  /** The run-ending failure met first when reading the files fs in order, if any. */
  function FirstFatal(read: Reader, fs: seq<FileRef>): Option<Abort> {
    if fs == [] then None
    else if Fatal(read, fs[0]) then Some(AbortAt(read, fs[0]))
    else FirstFatal(read, fs[1..])
  }

  lemma {:induction false} FirstFatalConcat(read: Reader, a: seq<FileRef>, b: seq<FileRef>)
    ensures FirstFatal(read, a + b) == if FirstFatal(read, a).Some? then FirstFatal(read, a) else FirstFatal(read, b)
  {
    if a == [] {
      assert a + b == b;
    } else {
      assert (a + b)[0] == a[0] && (a + b)[1..] == a[1..] + b;
      FirstFatalConcat(read, a[1..], b);
    }
  }

  lemma AnyFatalCons(read: Reader, fs: seq<FileRef>)
    requires fs != []
    ensures AnyFatal(read, fs) <==> Fatal(read, fs[0]) || AnyFatal(read, fs[1..])
  {
    if AnyFatal(read, fs) && !Fatal(read, fs[0]) {
      var i :| 0 <= i < |fs| && Fatal(read, fs[i]);
      assert fs[1..][i - 1] == fs[i];
    }
    if AnyFatal(read, fs[1..]) {
      var i :| 0 <= i < |fs[1..]| && Fatal(read, fs[1..][i]);
      assert fs[i + 1] == fs[1..][i];
    }
  }

  /** FirstFatal finds a failure exactly when some file is fatal, and it is the first such file's. */
  lemma {:induction false} FirstFatalIsFirst(read: Reader, fs: seq<FileRef>)
    ensures FirstFatal(read, fs).Some? <==> AnyFatal(read, fs)
    ensures FirstFatal(read, fs).Some? ==>
      exists i | 0 <= i < |fs| ::
        Fatal(read, fs[i]) && !AnyFatal(read, fs[..i]) && FirstFatal(read, fs).value == AbortAt(read, fs[i])
  {
    if fs != [] {
      AnyFatalCons(read, fs);
      FirstFatalIsFirst(read, fs[1..]);
      if Fatal(read, fs[0]) {
        assert !AnyFatal(read, fs[..0]);
      } else if FirstFatal(read, fs).Some? {
        var i :| 0 <= i < |fs[1..]| && Fatal(read, fs[1..][i]) && !AnyFatal(read, fs[1..][..i])
                 && FirstFatal(read, fs[1..]).value == AbortAt(read, fs[1..][i]);
        var prefix := fs[..i + 1];
        assert prefix[0] == fs[0] && prefix[1..] == fs[1..][..i];
        AnyFatalCons(read, prefix);
        assert fs[i + 1] == fs[1..][i];
      }
    }
  }

  /** One file is handed to the reader exactly when it is a candidate, and ends the run exactly when it is also fatal. */
  lemma VisitTries(existing: seq<Row>, read: Reader, f: FileRef, st: ScanState)
    ensures var head := if IsCandidate(existing, f) then [f] else [];
      match Visit(existing, read, f, st)
      case Failure(a) => FirstFatal(read, head) == Some(a)
      case Success(s) => FirstFatal(read, head) == None && s.tried == st.tried + head
  {
  }

  /**
   * The inner loop hands the reader exactly the candidate files of the
   * directory, and ends early exactly with the first run-ending failure
   * among them.
   */
  lemma {:induction false} ScanFilesTriesCandidates(existing: seq<Row>, read: Reader, subdir: string, files: seq<string>, st: ScanState)
    ensures var cs := CandidatesIn(existing, subdir, files);
      match ScanFiles(existing, read, subdir, files, st)
      case Failure(a) => FirstFatal(read, cs) == Some(a)
      case Success(s) => FirstFatal(read, cs) == None && s.tried == st.tried + cs
  {
    if files != [] {
      var f := FileRef(subdir, files[0]);
      var tail := CandidatesIn(existing, subdir, files[1..]);
      if IsCandidate(existing, f) {
        FirstFatalConcat(read, [f], tail);
        VisitTries(existing, read, f, st);
        var r := ReadStep(read, f, st);
        if r.Success? {
          ScanFilesTriesCandidates(existing, read, subdir, files[1..], r.value);
          assert st.tried + [f] + tail == st.tried + ([f] + tail);
        }
      } else {
        assert CandidatesIn(existing, subdir, files) == tail;
        ScanFilesTriesCandidates(existing, read, subdir, files[1..], Visit(existing, read, f, st).value);
      }
    }
  }

  /**
   * The whole scan hands the reader exactly the candidate files of the walk,
   * in order, and ends early exactly with the first run-ending failure
   * among them.
   */
  lemma {:induction false} ScanWalkTriesCandidates(existing: seq<Row>, read: Reader, walk: seq<Dir>, st: ScanState)
    ensures var cs := Candidates(existing, walk);
      match ScanWalk(existing, read, walk, st)
      case Failure(a) => FirstFatal(read, cs) == Some(a)
      case Success(s) => FirstFatal(read, cs) == None && s.tried == st.tried + cs
  {
    if walk != [] {
      var d := walk[0];
      var head := CandidatesIn(existing, d.subdir, d.files);
      var tail := Candidates(existing, walk[1..]);
      FirstFatalConcat(read, head, tail);
      ScanFilesTriesCandidates(existing, read, d.subdir, d.files, st);
      match ScanFiles(existing, read, d.subdir, d.files, st)
      case Failure(a) =>
      case Success(next) =>
        ScanWalkTriesCandidates(existing, read, walk[1..], next);
        assert ScanWalk(existing, read, walk, st) == ScanWalk(existing, read, walk[1..], next);
    }
  }

  /** The run ends early exactly when some candidate file is fatal to the reader, and on the first one. */
  lemma ScanAbortsOnFirstFatal(existing: seq<Row>, read: Reader, walk: seq<Dir>)
    ensures var cs := Candidates(existing, walk);
      var r := ScanWalk(existing, read, walk, Start);
      (r.Failure? <==> AnyFatal(read, cs))
      && (r.Failure? ==>
            exists i | 0 <= i < |cs| :: Fatal(read, cs[i]) && !AnyFatal(read, cs[..i]) && r.error == AbortAt(read, cs[i]))
  {
    ScanWalkTriesCandidates(existing, read, walk, Start);
    FirstFatalIsFirst(read, Candidates(existing, walk));
  }

  lemma {:induction false} CandidatesInPassFilters(existing: seq<Row>, subdir: string, files: seq<string>)
    ensures forall f | f in CandidatesIn(existing, subdir, files) :: IsCandidate(existing, f)
  {
    if files != [] {
      CandidatesInPassFilters(existing, subdir, files[1..]);
    }
  }

  lemma {:induction false} CandidatesInHasEvery(existing: seq<Row>, subdir: string, files: seq<string>)
    ensures forall j | 0 <= j < |files| && IsCandidate(existing, FileRef(subdir, files[j])) ::
      FileRef(subdir, files[j]) in CandidatesIn(existing, subdir, files)
  {
    if files != [] {
      CandidatesInHasEvery(existing, subdir, files[1..]);
      forall j | 1 <= j < |files| ensures files[j] == files[1..][j - 1] {
      }
    }
  }

  /** Every file of the walk that passes the three filters is a candidate. */
  lemma {:induction false} CandidatesHaveEvery(existing: seq<Row>, walk: seq<Dir>)
    ensures forall i, j | 0 <= i < |walk| && 0 <= j < |walk[i].files|
                          && IsCandidate(existing, FileRef(walk[i].subdir, walk[i].files[j])) ::
      FileRef(walk[i].subdir, walk[i].files[j]) in Candidates(existing, walk)
  {
    if walk != [] {
      CandidatesInHasEvery(existing, walk[0].subdir, walk[0].files);
      CandidatesHaveEvery(existing, walk[1..]);
      forall i | 1 <= i < |walk| ensures walk[i] == walk[1..][i - 1] {
      }
    }
  }

  /**
   * Candidates are exactly the ".msg" names with a path of at most 260
   * characters that the catalogue does not already hold under their raw
   * name, so the reader is never called on any other file.
   */
  lemma {:induction false} CandidatesPassFilters(existing: seq<Row>, walk: seq<Dir>)
    ensures forall f | f in Candidates(existing, walk) ::
      EndsWith(f.name, ".msg") && |PathOf(f)| <= MaxPathLength && !HasKey(existing, f.name, f.subdir)
  {
    if walk != [] {
      CandidatesInPassFilters(existing, walk[0].subdir, walk[0].files);
      CandidatesPassFilters(existing, walk[1..]);
    }
  }

  /**
   * The catalogue check compares the raw file name with the stored Subject, so
   * a message catalogued under its normalised subject is handed to the reader
   * again.
   */
  lemma CataloguedMessageIsReadAgain(existing: seq<Row>, f: FileRef)
    requires existing == [Row("Invoice 2023", "/a", Some("x@x.com"), None, None, None)]
    requires f == FileRef("/a", "12 - RE: Invoice 2023.msg")
    ensures IsCandidate(existing, f)
  {
    assert |existing[0].subject| != |f.name|;
    assert |PathOf(f)| == 28;
    EndsWithIsSuffix(f.name, ".msg");
  }

  // ---------------------------------------------------------------------
  // The rows and the checkpoints

  /** The files the reader parsed, in order. */
  function Accepted(read: Reader, fs: seq<FileRef>): seq<FileRef> {
    if fs == [] then []
    else
      var last := fs[|fs| - 1];
      Accepted(read, fs[..|fs| - 1]) + (if read(PathOf(last)).Success? then [last] else [])
  }

  /** The rows made from the files fs, each stamped by the clock at its position. */
  function RowsOf(read: Reader, clock: Clock, fs: seq<FileRef>): seq<Row> {
    if fs == [] then []
    else
      var last := fs[|fs| - 1];
      var before := RowsOf(read, clock, fs[..|fs| - 1]);
      before + match read(PathOf(last))
               case Success(m) => [RowFor(last, m, clock(|before|))]
               case Failure(_) => []
  }

  /** The progress and pause notices, in order. */
  function Reports(ns: seq<Notice>): seq<Notice> {
    if ns == [] then []
    else
      var last := ns[|ns| - 1];
      Reports(ns[..|ns| - 1]) + (if last.Progress? || last.Pause? then [last] else [])
  }

  /** All checkpoints reached while the counter goes from 1 to n. */
  function CheckpointsUpTo(n: nat): seq<Notice> {
    if n == 0 then [] else CheckpointsUpTo(n - 1) + Checkpoints(n)
  }

  /** Trying one more file adds its row when the reader parses it, and nothing otherwise. */
  lemma RowsOfSnoc(read: Reader, clock: Clock, fs: seq<FileRef>, f: FileRef)
    ensures RowsOf(read, clock, fs + [f]) == RowsOf(read, clock, fs) + match read(PathOf(f))
      case Success(m) => [RowFor(f, m, clock(|RowsOf(read, clock, fs)|))]
      case Failure(_) => []
  {
    assert (fs + [f])[..|fs + [f]| - 1] == fs;
  }

  lemma AcceptedSnoc(read: Reader, fs: seq<FileRef>, f: FileRef)
    ensures Accepted(read, fs + [f]) == Accepted(read, fs) + if read(PathOf(f)).Success? then [f] else []
  {
    assert (fs + [f])[..|fs + [f]| - 1] == fs;
  }

  /** The i-th row made is the one for the i-th file parsed, with the i-th clock reading. */
  lemma {:induction false} RowsOfAccepted(read: Reader, clock: Clock, fs: seq<FileRef>)
    ensures |RowsOf(read, clock, fs)| == |Accepted(read, fs)|
    ensures forall i | 0 <= i < |RowsOf(read, clock, fs)| ::
      read(PathOf(Accepted(read, fs)[i])).Success?
      && RowsOf(read, clock, fs)[i] == RowFor(Accepted(read, fs)[i], read(PathOf(Accepted(read, fs)[i])).value, clock(i))
  {
    if fs != [] {
      var init := fs[..|fs| - 1];
      var f := fs[|fs| - 1];
      assert fs == init + [f];
      RowsOfAccepted(read, clock, init);
      RowsOfSnoc(read, clock, init, f);
      AcceptedSnoc(read, init, f);
      var rows, acc := RowsOf(read, clock, init), Accepted(read, init);
      var rows', acc' := RowsOf(read, clock, fs), Accepted(read, fs);
      forall i | 0 <= i < |rows'|
        ensures read(PathOf(acc'[i])).Success? && rows'[i] == RowFor(acc'[i], read(PathOf(acc'[i])).value, clock(i))
      {
        if i < |rows| {
          assert rows'[i] == rows[i] && acc'[i] == acc[i];
        } else {
          assert acc'[i] == f;
        }
      }
    }
  }

  /** A failure the scan tolerates adds no row and leaves the counter as it was; the scan goes on. */
  lemma UnreadableFileAddsNoRow(existing: seq<Row>, read: Reader, clock: Clock, f: FileRef, st: ScanState)
    requires IsCandidate(existing, f) && read(PathOf(f)).Failure? && Tolerated(read(PathOf(f)).error)
    ensures Visit(existing, read, f, st).Success?
    ensures var next := Visit(existing, read, f, st).value;
      next.count == st.count && RowsOf(read, clock, next.tried) == RowsOf(read, clock, st.tried)
  {
    RowsOfSnoc(read, clock, st.tried, f);
  }

  /** A message read adds exactly one row, without an Archive, and one to the counter. */
  lemma ParsedFileAddsOneRow(existing: seq<Row>, read: Reader, clock: Clock, f: FileRef, st: ScanState)
    requires IsCandidate(existing, f) && read(PathOf(f)).Success?
    ensures Visit(existing, read, f, st).Success?
    ensures var next := Visit(existing, read, f, st).value;
      var rows := RowsOf(read, clock, st.tried);
      next.count == st.count + 1
      && RowsOf(read, clock, next.tried) == rows + [RowFor(f, read(PathOf(f)).value, clock(|rows|))]
      && RowsOf(read, clock, next.tried)[|rows|].archive == None
  {
    RowsOfSnoc(read, clock, st.tried, f);
  }

  /** What the scan state keeps: its counter counts the files parsed, its reports are those of the counter. */
  predicate Good(read: Reader, st: ScanState) {
    st.count == |Accepted(read, st.tried)| && Reports(st.notices) == CheckpointsUpTo(st.count)
  }

  lemma {:induction false} ReportsConcat(a: seq<Notice>, b: seq<Notice>)
    ensures Reports(a + b) == Reports(a) + Reports(b)
  {
    if b == [] {
      assert a + b == a;
    } else {
      assert (a + b)[..|a + b| - 1] == a + b[..|b| - 1];
      ReportsConcat(a, b[..|b| - 1]);
    }
  }

  lemma ReportsOfOne(x: Notice)
    ensures Reports([x]) == if x.Progress? || x.Pause? then [x] else []
  {
    assert [x][..0] == [];
  }

  lemma CheckpointsAreReports(n: nat)
    ensures Reports(Checkpoints(n)) == Checkpoints(n)
  {
    var p: seq<Notice> := if n % ReportEvery == 0 then [Progress(n)] else [];
    var q: seq<Notice> := if n % PauseEvery == 0 then [Pause(n)] else [];
    ReportsConcat(p, q);
    ReportsOfOne(Progress(n));
    ReportsOfOne(Pause(n));
  }

  /** A file the scan skips before reading it, or whose failure it tolerates, keeps the scan state good. */
  lemma QuietNoticeKeepsGood(read: Reader, st: ScanState, tried: seq<FileRef>, x: Notice)
    requires Good(read, st) && |Accepted(read, tried)| == st.count && !x.Progress? && !x.Pause?
    ensures Good(read, ScanState(st.count, tried, st.notices + [x]))
  {
    ReportsConcat(st.notices, [x]);
    ReportsOfOne(x);
  }

  /** Handing one candidate file to the reader keeps the scan state good. */
  lemma ReadStepKeepsGood(read: Reader, f: FileRef, st: ScanState)
    requires Good(read, st)
    requires ReadStep(read, f, st).Success?
    ensures Good(read, ReadStep(read, f, st).value)
  {
    var path := PathOf(f);
    AcceptedSnoc(read, st.tried, f);
    match read(path)
    case Failure(e) =>
      QuietNoticeKeepsGood(read, st, st.tried + [f], ReadSkipped(path, e));
    case Success(m) =>
      ReportsConcat(st.notices, Checkpoints(st.count + 1));
      CheckpointsAreReports(st.count + 1);
  }

  /** One file keeps the scan state good. */
  lemma VisitKeepsGood(existing: seq<Row>, read: Reader, f: FileRef, st: ScanState)
    requires Good(read, st)
    requires Visit(existing, read, f, st).Success?
    ensures Good(read, Visit(existing, read, f, st).value)
  {
    if IsCandidate(existing, f) {
      ReadStepKeepsGood(read, f, st);
    } else if IsTooLong(f) {
      QuietNoticeKeepsGood(read, st, st.tried, LongPathSkipped(PathOf(f)));
    }
  }

  lemma {:induction false} ScanFilesKeepsGood(existing: seq<Row>, read: Reader, subdir: string, files: seq<string>, st: ScanState)
    requires Good(read, st)
    requires ScanFiles(existing, read, subdir, files, st).Success?
    ensures Good(read, ScanFiles(existing, read, subdir, files, st).value)
  {
    if files != [] {
      var f := FileRef(subdir, files[0]);
      VisitKeepsGood(existing, read, f, st);
      ScanFilesKeepsGood(existing, read, subdir, files[1..], Visit(existing, read, f, st).value);
    }
  }

  lemma {:induction false} ScanWalkKeepsGood(existing: seq<Row>, read: Reader, walk: seq<Dir>, st: ScanState)
    requires Good(read, st)
    requires ScanWalk(existing, read, walk, st).Success?
    ensures Good(read, ScanWalk(existing, read, walk, st).value)
  {
    if walk != [] {
      var r := ScanFiles(existing, read, walk[0].subdir, walk[0].files, st);
      ScanFilesKeepsGood(existing, read, walk[0].subdir, walk[0].files, st);
      ScanWalkKeepsGood(existing, read, walk[1..], r.value);
    }
  }

  /**
   * A scan that completes has tried exactly the candidate files; its rows
   * are one per candidate the reader parsed, in order, each made from its
   * message with no Archive and stamped by the clock at its position; its
   * counter is the number of rows; and it has reported exactly the
   * checkpoints of that count.
   */
  lemma ScanResult(existing: seq<Row>, read: Reader, clock: Clock, walk: seq<Dir>)
    requires ScanWalk(existing, read, walk, Start).Success?
    ensures var st := ScanWalk(existing, read, walk, Start).value;
      var acc := Accepted(read, Candidates(existing, walk));
      var rows := RowsOf(read, clock, st.tried);
      st.tried == Candidates(existing, walk)
      && st.count == |rows| == |acc|
      && (forall i | 0 <= i < |rows| ::
            read(PathOf(acc[i])).Success?
            && rows[i] == RowFor(acc[i], read(PathOf(acc[i])).value, clock(i)))
      && Reports(st.notices) == CheckpointsUpTo(st.count)
  {
    ScanWalkTriesCandidates(existing, read, walk, Start);
    ScanWalkKeepsGood(existing, read, walk, Start);
    assert Start.tried + Candidates(existing, walk) == Candidates(existing, walk);
    RowsOfAccepted(read, clock, Candidates(existing, walk));
  }

  /** No new row has an Archive, and the i-th has the i-th clock reading. */
  lemma ScanRowsAreFresh(read: Reader, clock: Clock, fs: seq<FileRef>)
    ensures var rows := RowsOf(read, clock, fs);
      forall i | 0 <= i < |rows| :: rows[i].archive == None && rows[i].date == Some(clock(i))
  {
    RowsOfAccepted(read, clock, fs);
  }

  lemma InCheckpoints(n: nat, x: Notice)
    ensures x in Checkpoints(n) <==>
      (x == Progress(n) && n % ReportEvery == 0) || (x == Pause(n) && n % PauseEvery == 0)
  {
  }

  /** A progress report is made exactly at the multiples of 1000 up to the count. */
  lemma {:induction false} ProgressReportedAt(n: nat, k: nat)
    ensures Progress(k) in CheckpointsUpTo(n) <==> 1 <= k <= n && k % ReportEvery == 0
  {
    if n > 0 {
      ProgressReportedAt(n - 1, k);
      InCheckpoints(n, Progress(k));
      var before, here := CheckpointsUpTo(n - 1), Checkpoints(n);
      assert CheckpointsUpTo(n) == before + here;
      assert Progress(k) in here <==> k == n && n % ReportEvery == 0;
      assert Progress(k) in before + here <==> Progress(k) in before || Progress(k) in here;
    }
  }

  /** A pause is made exactly at the multiples of 10000 up to the count. */
  lemma {:induction false} PauseMadeAt(n: nat, k: nat)
    ensures Pause(k) in CheckpointsUpTo(n) <==> 1 <= k <= n && k % PauseEvery == 0
  {
    if n > 0 {
      PauseMadeAt(n - 1, k);
      InCheckpoints(n, Pause(k));
      var before, here := CheckpointsUpTo(n - 1), Checkpoints(n);
      assert CheckpointsUpTo(n) == before + here;
      assert Pause(k) in here <==> k == n && n % PauseEvery == 0;
      assert Pause(k) in before + here <==> Pause(k) in before || Pause(k) in here;
    }
  }

  lemma PauseCountIsReportCount(n: nat)
    requires n % PauseEvery == 0
    ensures n % ReportEvery == 0
  {
    var q := n / PauseEvery;
    assert n == ReportEvery * (10 * q);
  }

  /** Every pause in cs comes right after the progress report of the same count. */
  predicate PausesFollowReports(cs: seq<Notice>) {
    forall i | 0 <= i < |cs| && cs[i].Pause? :: 0 < i && cs[i - 1] == Progress(cs[i].count)
  }

  /** Every pause the scan makes comes right after the progress report of the same count. */
  lemma {:induction false} PauseFollowsReport(n: nat)
    ensures PausesFollowReports(CheckpointsUpTo(n))
  {
    if n > 0 {
      PauseFollowsReport(n - 1);
      var prev := CheckpointsUpTo(n - 1);
      var now := Checkpoints(n);
      var cs := prev + now;
      forall i | 0 <= i < |cs| && cs[i].Pause? ensures 0 < i && cs[i - 1] == Progress(cs[i].count) {
        if i < |prev| {
          assert cs[i] == prev[i] && prev[i].Pause?;
          assert 0 < i && prev[i - 1] == Progress(prev[i].count);
          assert cs[i - 1] == prev[i - 1];
        } else {
          assert cs[i] == now[i - |prev|];
          if n % PauseEvery == 0 {
            PauseCountIsReportCount(n);
            assert now == [Progress(n), Pause(n)];
          } else {
            assert false;
          }
        }
      }
    }
  }
}
