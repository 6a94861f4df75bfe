/**
 * Saving the catalogue (lines 128-140): the path of the backup, derived with
 * Windows `os.path.splitext`, and the three steps of the save on a store of
 * files: delete a stale backup, move the current workbook to the backup path,
 * write the new workbook.
 */
module Store {
  import opened Table

  // ---------------------------------------------------------------------------
  // os.path.splitext (ntpath)
  // ---------------------------------------------------------------------------

  /** The path separators of Windows paths, for `os.path.join` and `os.path.splitext`. */
  const Separators: set<char> := {'\\', '/'}

  /** `str.rfind` for any of the characters cs: the last index holding one of them, or -1. */
  function LastIn(p: string, cs: set<char>): (r: int)
    ensures -1 <= r < |p|
    ensures r >= 0 ==> p[r] in cs
    ensures forall k | r < k < |p| :: p[k] !in cs
  {
    if p == [] then -1
    else if p[|p| - 1] in cs then |p| - 1
    else LastIn(p[..|p| - 1], cs)
  }

  /** Any index with the two properties of LastIn is the one LastIn finds. */
  lemma LastInIs(p: string, cs: set<char>, r: int)
    requires -1 <= r < |p|
    requires r >= 0 ==> p[r] in cs
    requires forall k | r < k < |p| :: p[k] !in cs
    ensures LastIn(p, cs) == r
  {
  }

  predicate AllDots(p: string, i: int, j: int)
    requires 0 <= i <= j <= |p|
  {
    forall k | i <= k < j :: p[k] == '.'
  }

  /**
   * `os.path.splitext(p)`: the extension starts at the last dot of the last
   * path component, unless everything in the component before that dot is a
   * dot (".profile" and "..x" have no extension).
   */
  function SplitExt(p: string): (parts: (string, string))
    ensures parts.0 + parts.1 == p
    ensures parts.1 == [] || parts.1[0] == '.'
    ensures forall k | 0 < k < |parts.1| :: parts.1[k] != '.' && parts.1[k] !in Separators
  {
    var s := LastIn(p, Separators);
    var d := LastIn(p, {'.'});
    if d > s && !AllDots(p, s + 1, d) then
      assert p[..d] + p[d..] == p;
      (p[..d], p[d..])
    else (p, "")
  }

  /**
   * The extension starts at index d: a dot with neither a dot nor a separator
   * after it, and something other than a dot between the last separator and it.
   */
  ghost predicate ExtensionAt(p: string, d: int) {
    0 <= d < |p| && p[d] == '.'
    && (forall k | d < k < |p| :: p[k] != '.' && p[k] !in Separators)
    && exists c | 0 <= c < d ::
         p[c] != '.' && p[c] !in Separators && forall k | c < k < d :: p[k] !in Separators
  }

  /** SplitExt splits off an extension exactly when the path has one, and at its dot. */
  lemma SplitExtFindsExtension(p: string)
    ensures SplitExt(p).1 != [] <==> exists d :: ExtensionAt(p, d)
    ensures SplitExt(p).1 != [] ==> ExtensionAt(p, |SplitExt(p).0|)
  {
    var s := LastIn(p, Separators);
    var d := LastIn(p, {'.'});
    if d > s && !AllDots(p, s + 1, d) {
      var c :| s + 1 <= c < d && p[c] != '.';
      assert ExtensionAt(p, d);
    }
    if e :| ExtensionAt(p, e) {
      var c :| 0 <= c < e && p[c] != '.' && p[c] !in Separators && forall k | c < k < e :: p[k] !in Separators;
      LastInIs(p, {'.'}, e);
      assert s < c;
    }
  }

  /** Line 129: the backup path, with "-old" between the stem and the extension. */
  function BackupPath(p: string): (b: string)
    ensures |b| == |p| + 4
    ensures b != p
  {
    var (root, ext) := SplitExt(p);
    root + "-old" + ext
  }

  /** Characters of cs only in the first part: rfind finds the same index in the whole. */
  lemma LastInAppendMiss(a: string, b: string, cs: set<char>)
    requires forall k | 0 <= k < |b| :: b[k] !in cs
    ensures LastIn(a + b, cs) == LastIn(a, cs)
  {
    var r := LastIn(a, cs);
    forall k | r < k < |a + b| ensures (a + b)[k] !in cs {
      if k >= |a| {
        assert (a + b)[k] == b[k - |a|];
      }
    }
    LastInIs(a + b, cs, r);
  }

  /** A character of cs in the second part: rfind finds the last one there. */
  lemma LastInAppendHit(a: string, b: string, cs: set<char>)
    requires LastIn(b, cs) >= 0
    ensures LastIn(a + b, cs) == |a| + LastIn(b, cs)
  {
    var r := LastIn(b, cs);
    forall k | |a| + r < k < |a + b| ensures (a + b)[k] !in cs {
      assert (a + b)[k] == b[k - |a|];
    }
    LastInIs(a + b, cs, |a| + r);
  }

  /**
   * The backup path splits into the stem with "-old" and the same extension,
   * so the workbook keeps its type and the original path can be recovered.
   */
  lemma BackupKeepsExtension(p: string)
    ensures SplitExt(BackupPath(p)) == (SplitExt(p).0 + "-old", SplitExt(p).1)
  {
    if SplitExt(p).1 == [] {
      BackupWithoutExtension(p);
    } else {
      BackupWithExtension(p);
    }
  }

  lemma BackupWithoutExtension(p: string)
    requires SplitExt(p).1 == []
    ensures SplitExt(BackupPath(p)) == (p + "-old", [])
  {
    var b := p + "-old";
    assert BackupPath(p) == b;
    LastInAppendMiss(p, "-old", Separators);
    LastInAppendMiss(p, "-old", {'.'});
    var s := LastIn(p, Separators);
    var d := LastIn(p, {'.'});
    if d > s {
      assert AllDots(p, s + 1, d);
      assert forall k | s + 1 <= k < d :: b[k] == p[k];
      assert AllDots(b, s + 1, d);
    }
  }

  lemma BackupWithExtension(p: string)
    requires SplitExt(p).1 != []
    ensures SplitExt(BackupPath(p)) == (SplitExt(p).0 + "-old", SplitExt(p).1)
  {
    var (root, ext) := SplitExt(p);
    var stem := root + "-old";
    var b := stem + ext;
    assert BackupPath(p) == b;
    assert p == root + ext;
    LastInAppendMiss(root, ext, Separators);
    LastInAppendMiss(root, "-old", Separators);
    LastInAppendMiss(stem, ext, Separators);
    var s := LastIn(p, Separators);
    assert LastIn(b, Separators) == s;
    LastInIs(ext, {'.'}, 0);
    LastInAppendHit(root, ext, {'.'});
    LastInAppendHit(stem, ext, {'.'});
    assert LastIn(p, {'.'}) == |root|;
    assert LastIn(b, {'.'}) == |stem|;
    assert b[|root|] == '-';
    assert !AllDots(b, s + 1, |stem|);
    assert b[..|stem|] == stem && b[|stem|..] == ext;
  }

  /** Distinct workbooks have distinct backups. */
  lemma BackupPathIsInjective(p: string, q: string)
    requires BackupPath(p) == BackupPath(q)
    ensures p == q
  {
    BackupKeepsExtension(p);
    BackupKeepsExtension(q);
    var rp, rq := SplitExt(p).0, SplitExt(q).0;
    assert rp == (rp + "-old")[..|rp|];
    assert rq == (rq + "-old")[..|rq|];
  }

  // ---------------------------------------------------------------------------
  // The store and the save
  // ---------------------------------------------------------------------------

  /** What `to_excel` writes: the workbook, standing for the table it holds. */
  type Content = seq<Row>

  /** The store after `os.remove(old_excel_path)` when the stale backup exists (lines 132-133). */
  function AfterRemove(files: map<string, Content>, path: string): map<string, Content> {
    var backup := BackupPath(path);
    if backup in files then files - {backup} else files
  }

  /** The store after `os.rename(excel_path, old_excel_path)` when the workbook exists (lines 136-137). */
  function AfterRename(files: map<string, Content>, path: string): map<string, Content> {
    if path in files then (files - {path})[BackupPath(path) := files[path]] else files
  }

  /** The store after `to_excel(excel_path)` (line 140). */
  function AfterWrite(files: map<string, Content>, path: string, table: Content): map<string, Content> {
    files[path := table]
  }

  /**
   * The store after the first `steps` of the three steps of the save. At
   * every step, only the path and its backup path can differ from before.
   */
  function SaveState(files: map<string, Content>, path: string, table: Content, steps: nat): (r: map<string, Content>)
    requires steps <= 3
    ensures forall q | q != path && q != BackupPath(path) ::
      (q in r <==> q in files) && (q in r ==> r[q] == files[q])
  {
    if steps == 0 then files
    else if steps == 1 then AfterRemove(files, path)
    else if steps == 2 then AfterRename(AfterRemove(files, path), path)
    else AfterWrite(AfterRename(AfterRemove(files, path), path), path, table)
  }

  /** After the first step no file is left at the backup path, so the rename never meets one. */
  lemma StaleBackupGone(files: map<string, Content>, path: string, table: Content)
    ensures BackupPath(path) !in SaveState(files, path, table, 1)
    ensures path in SaveState(files, path, table, 1) <==> path in files
  {
  }

  /**
   * At every point of the save, the workbook that was at the path is still in
   * the store, at the path or at the backup path.
   */
  lemma OldWorkbookSurvives(files: map<string, Content>, path: string, table: Content, steps: nat)
    requires steps <= 3 && path in files
    ensures var now := SaveState(files, path, table, steps);
      (path in now && now[path] == files[path])
      || (BackupPath(path) in now && now[BackupPath(path)] == files[path])
  {
    if steps == 1 {
      assert path in AfterRemove(files, path);
    }
  }

  /**
   * When the save is done the path holds the new table; the backup path holds
   * the previous workbook when there was one, and nothing otherwise, stale
   * backup included.
   */
  lemma SaveCompletes(files: map<string, Content>, path: string, table: Content)
    ensures var done := SaveState(files, path, table, 3);
      path in done && done[path] == table
      && (path in files ==> BackupPath(path) in done && done[BackupPath(path)] == files[path])
      && (path !in files ==> BackupPath(path) !in done)
  {
  }

  /** The file system, as a map from paths to the workbooks stored there. */
  class FileStore {
    var files: map<string, Content>

    constructor(files: map<string, Content>)
      ensures this.files == files
    {
      this.files := files;
    }

    /** `os.path.exists`. */
    function Exists(path: string): (b: bool)
      reads this
      ensures b <==> path in files
    {
      path in files
    }

    /** `os.remove`: the file must exist. */
    method Remove(path: string)
      requires path in files
      modifies this
      ensures files == old(files) - {path}
    {
      files := files - {path};
    }

    /** `os.rename` on Windows: the source must exist and the target must not. */
    method Rename(src: string, dst: string)
      requires src in files && dst !in files
      modifies this
      ensures files == (old(files) - {src})[dst := old(files)[src]]
    {
      files := (files - {src})[dst := files[src]];
    }

    /** `to_excel`: the workbook at the path is replaced or created. */
    method Write(path: string, table: Content)
      modifies this
      ensures files == old(files)[path := table]
    {
      files := files[path := table];
    }

    /** Lines 128-140: derive the backup path, delete a stale backup, move the workbook there, write the new one. */
    method SaveWithBackup(path: string, table: Content)
      modifies this
      ensures files == SaveState(old(files), path, table, 3)
    {
      var backup := BackupPath(path);
      if Exists(backup) {
        Remove(backup);
      }
      assert files == SaveState(old(files), path, table, 1);
      if Exists(path) {
        Rename(path, backup);
      }
      assert files == SaveState(old(files), path, table, 2);
      Write(path, table);
    }
  }
}
