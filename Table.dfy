/**
 * The catalogue table: rows with the columns Subject, Path, Sender,
 * Recipients, Archive and Date, identified by their (Subject, Path) pair.
 */
module Table {
  import opened Wrappers

  /** A reading of the clock (`pd.Timestamp.now()`), opaque to the model. */
  type Stamp = int

  /**
   * One catalogue row. Subject and Path identify it; the other cells may be
   * empty (None stands for both None and NaN). The scan always leaves Archive
   * empty; a stored Archive value is kept by the merge.
   */
  datatype Row = Row(
    subject: string,
    path: string,
    sender: Option<string>,
    recipients: Option<string>,
    archive: Option<string>,
    date: Option<Stamp>)

  /** The identity of a row: its (Subject, Path) pair. */
  type Key = (string, string)

  function KeyOf(r: Row): Key {
    (r.subject, r.path)
  }

  /** The keys that occur in a table. */
  function Keys(rows: seq<Row>): set<Key> {
    set r | r in rows :: KeyOf(r)
  }

  /** No two rows of the table share a key. */
  predicate UniqueKeys(rows: seq<Row>) {
    forall i, j | 0 <= i < j < |rows| :: KeyOf(rows[i]) != KeyOf(rows[j])
  }

  /** Whether the table has a row with Subject == subject and Path == path. */
  predicate HasKey(rows: seq<Row>, subject: string, path: string): (b: bool)
    ensures b <==> exists i | 0 <= i < |rows| :: rows[i].subject == subject && rows[i].path == path
  {
    rows != [] && ((rows[0].subject == subject && rows[0].path == path) || HasKey(rows[1..], subject, path))
  }

  lemma KeysCons(rows: seq<Row>)
    requires rows != []
    ensures Keys(rows) == {KeyOf(rows[0])} + Keys(rows[1..])
  {
    assert forall r | r in rows :: r == rows[0] || r in rows[1..];
  }

  lemma KeysConcat(a: seq<Row>, b: seq<Row>)
    ensures Keys(a + b) == Keys(a) + Keys(b)
  {
    assert forall r | r in a + b :: r in a || r in b;
  }

  /** The row filter finds a row exactly when the pair is one of the table's keys. */
  lemma {:induction false} HasKeyIsKeys(rows: seq<Row>, subject: string, path: string)
    ensures HasKey(rows, subject, path) <==> (subject, path) in Keys(rows)
  {
    if rows != [] {
      KeysCons(rows);
      HasKeyIsKeys(rows[1..], subject, path);
    }
  }

  /** The first row of the table with key k: the one `drop_duplicates(keep="first")` keeps. */
  function FirstWithKey(rows: seq<Row>, k: Key): (r: Row)
    requires k in Keys(rows)
    ensures r in rows && KeyOf(r) == k
  {
    KeysCons(rows);
    if KeyOf(rows[0]) == k then rows[0] else FirstWithKey(rows[1..], k)
  }

  /** FirstWithKey is the row at the first index holding the key. */
  lemma {:induction false} FirstWithKeyIsFirst(rows: seq<Row>, k: Key, i: nat)
    requires i < |rows| && KeyOf(rows[i]) == k
    requires forall j | 0 <= j < i :: KeyOf(rows[j]) != k
    ensures k in Keys(rows)
    ensures FirstWithKey(rows, k) == rows[i]
  {
    assert rows[i] in rows;
    if i > 0 {
      assert KeyOf(rows[1..][i - 1]) == k;
      FirstWithKeyIsFirst(rows[1..], k, i - 1);
    }
  }

  /** FirstWithKey of a concatenation looks in the second part only when the first lacks the key. */
  lemma {:induction false} FirstWithKeyConcat(a: seq<Row>, b: seq<Row>, k: Key)
    requires k in Keys(a) + Keys(b)
    ensures k in Keys(a + b)
    ensures FirstWithKey(a + b, k) == if k in Keys(a) then FirstWithKey(a, k) else FirstWithKey(b, k)
  {
    KeysConcat(a, b);
    if a != [] {
      KeysCons(a);
      assert (a + b)[0] == a[0] && (a + b)[1..] == a[1..] + b;
      if KeyOf(a[0]) != k {
        FirstWithKeyConcat(a[1..], b, k);
      }
    } else {
      assert a + b == b;
    }
  }

  /** In a table without repeated keys, every row is the first with its key. */
  lemma UniqueRowIsFirst(rows: seq<Row>, i: nat)
    requires UniqueKeys(rows) && i < |rows|
    ensures FirstWithKey(rows, KeyOf(rows[i])) == rows[i]
  {
    var k := KeyOf(rows[i]);
    if i > 0 {
      assert KeyOf(rows[0]) != k;
      assert rows[1..][i - 1] == rows[i];
      UniqueRowIsFirst(rows[1..], i - 1);
    }
  }

  /** A table without repeated keys has exactly as many rows as keys. */
  lemma {:induction false} UniqueKeysCount(rows: seq<Row>)
    requires UniqueKeys(rows)
    ensures |Keys(rows)| == |rows|
  {
    if rows != [] {
      KeysCons(rows);
      assert UniqueKeys(rows[1..]);
      assert KeyOf(rows[0]) !in Keys(rows[1..]) by {
        forall r | r in rows[1..] ensures KeyOf(r) != KeyOf(rows[0]) {
          var j :| 0 <= j < |rows[1..]| && rows[1..][j] == r;
          assert rows[j + 1] == r;
        }
      }
      UniqueKeysCount(rows[1..]);
    }
  }
}
