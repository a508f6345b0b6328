/**
 * The test app's `face_tests` table: the `FaceTest` row with its defaults,
 * the row-level consistency the statistics screen relies on, and the four
 * DAO statements as operations on a table keyed by id.
 */
module FaceTests {
  import opened Wrappers

  /** One row of `face_tests`. */
  datatype FaceTest = FaceTest(
    id: int,
    timestamp: int,
    embedding: string,
    identifier: string,
    verificationAttempts: int,
    successfulVerifications: int)

  /** A row never records more successes than attempts, nor a negative count. */
  predicate StatsConsistent(t: FaceTest)
  {
    0 <= t.successfulVerifications <= t.verificationAttempts
  }

  /** A new record as the app builds it: id 0 until the database assigns one, no attempts, no successes. */
  function NewFaceTest(timestamp: int, embedding: string, identifier: string): (t: FaceTest)
    ensures t.id == 0 && t.verificationAttempts == 0 && t.successfulVerifications == 0
    ensures t.timestamp == timestamp && t.embedding == embedding && t.identifier == identifier
    ensures StatsConsistent(t)
  {
    FaceTest(0, timestamp, embedding, identifier, 0, 0)
  }

  /** The failure count the statistics screen shows: attempts minus successes, never negative for a consistent row. */
  function FailedVerifications(t: FaceTest): (n: nat)
    requires StatsConsistent(t)
    ensures n + t.successfulVerifications == t.verificationAttempts
  {
    t.verificationAttempts - t.successfulVerifications
  }

  /** The table's contents and the largest id it has ever handed out (the AUTOINCREMENT sequence). */
  datatype Table = Table(rows: map<int, FaceTest>, lastId: int)

  /** Every row is stored under its own id, and no id exceeds the sequence. */
  ghost predicate Keyed(t: Table)
  {
    forall k :: k in t.rows ==> t.rows[k].id == k && k <= t.lastId
  }

  ghost predicate Consistent(t: Table)
  {
    forall k :: k in t.rows ==> StatsConsistent(t.rows[k])
  }

  const CONSTRAINT_FAILED: string := "UNIQUE constraint failed: face_tests.id"

  function Max(a: int, b: int): int
  {
    if a < b then b else a
  }

  /** The id an insert uses: a row with id 0 gets the next id of the sequence, any other keeps its own. */
  function AssignedId(t: Table, f: FaceTest): int
  {
    if f.id == 0 then t.lastId + 1 else f.id
  }

  /** `saveAFace` (an `@Insert` with the default ABORT strategy): a taken id is a constraint error. */
  function Insert(t: Table, f: FaceTest): Result<Table, string>
  {
    var id := AssignedId(t, f);
    if id in t.rows then Failure(CONSTRAINT_FAILED)
    else Success(Table(t.rows[id := f.(id := id)], Max(t.lastId, id)))
  }

  /** `recordAVerification`: one more attempt and `result` more successes for the row with that id, if any. */
  function Recorded(t: Table, result: int, id: int): Table
  {
    if id in t.rows then
      var row := t.rows[id];
      t.(rows := t.rows[id := row.(verificationAttempts := row.verificationAttempts + 1,
                                    successfulVerifications := row.successfulVerifications + result)])
    else t
  }

  /** `clearDb`: every row goes; the sequence is kept. */
  function Cleared(t: Table): (c: Table)
    ensures c.rows == map[] && c.lastId == t.lastId
  {
    Table(map[], t.lastId)
  }

  /** The least key of a non-empty set of ids. */
  ghost function MinKey(keys: set<int>): (m: int)
    requires keys != {}
    ensures m in keys && forall k :: k in keys ==> m <= k
    decreases keys
  {
    assert (forall y :: y !in keys) ==> keys == {};
    var x :| x in keys;
    assert forall k :: k in keys ==> k == x || k in keys - {x};
    if keys - {x} == {} then x
    else
      var rest := MinKey(keys - {x});
      if x < rest then x else rest
  }

  /** The rows under `keys`, in ascending id order. */
  ghost function RowsInOrder(rows: map<int, FaceTest>, keys: set<int>): (r: seq<FaceTest>)
    requires keys <= rows.Keys
    ensures |r| == |keys|
    ensures forall i :: 0 <= i < |r| ==> exists k :: k in keys && r[i] == rows[k]
    decreases keys
  {
    if keys == {} then []
    else
      var m := MinKey(keys);
      [rows[m]] + RowsInOrder(rows, keys - {m})
  }

  /** `getAll`: every row, in ascending id order. */
  ghost function AllRows(t: Table): seq<FaceTest>
  {
    RowsInOrder(t.rows, t.rows.Keys)
  }

  /** A successful insert adds exactly the new row, under the id it was given, and changes no other row. */
  lemma InsertAddsOneRow(t: Table, f: FaceTest)
    requires Keyed(t) && Insert(t, f).Success?
    ensures var after := Insert(t, f).value;
      && after.rows.Keys == t.rows.Keys + {AssignedId(t, f)}
      && |after.rows| == |t.rows| + 1
      && after.rows[AssignedId(t, f)] == f.(id := AssignedId(t, f))
      && (forall k :: k in t.rows ==> after.rows[k] == t.rows[k])
      && Keyed(after)
  {
  }

  /** An insert fails exactly when it names an id already in the table; a row with id 0 is always accepted. */
  lemma InsertFailsOnlyOnTakenId(t: Table, f: FaceTest)
    requires Keyed(t)
    ensures Insert(t, f).Failure? <==> f.id != 0 && f.id in t.rows
  {
    if f.id == 0 {
      assert t.lastId + 1 !in t.rows;
    }
  }

  /** Generated ids are never reused, not even after the table is cleared. */
  lemma GeneratedIdIsFresh(t: Table, f: FaceTest, earlier: int)
    requires Keyed(t) && f.id == 0 && earlier <= t.lastId
    ensures Insert(t, f).Success? && AssignedId(t, f) > earlier
    ensures Insert(Cleared(t), f).Success? && AssignedId(Cleared(t), f) > earlier
  {
  }

  /**
   * `recordAVerification` adds one attempt and `result` successes to the row
   * with the given id and leaves every other row as it was; an unknown id
   * changes nothing.
   */
  lemma RecordedTouchesOneRow(t: Table, result: int, id: int)
    ensures var after := Recorded(t, result, id);
      && after.rows.Keys == t.rows.Keys && after.lastId == t.lastId
      && (forall k :: k in t.rows && k != id ==> after.rows[k] == t.rows[k])
      && (id !in t.rows ==> after == t)
      && (id in t.rows ==>
            && after.rows[id].verificationAttempts == t.rows[id].verificationAttempts + 1
            && after.rows[id].successfulVerifications == t.rows[id].successfulVerifications + result
            && after.rows[id].(verificationAttempts := t.rows[id].verificationAttempts,
                               successfulVerifications := t.rows[id].successfulVerifications) == t.rows[id])
  {
  }

  /** With a result of 0 or 1, as the app passes, recording keeps every row's statistics consistent. */
  lemma RecordedKeepsConsistent(t: Table, result: int, id: int)
    requires Consistent(t) && (result == 0 || result == 1)
    ensures Consistent(Recorded(t, result, id))
  {
  }

  /** Inserting a freshly built record keeps every row consistent. */
  lemma InsertKeepsConsistent(t: Table, f: FaceTest)
    requires Consistent(t) && StatsConsistent(f) && Insert(t, f).Success?
    ensures Consistent(Insert(t, f).value)
  {
  }

  predicate SortedById(s: seq<FaceTest>)
  {
    forall i, j :: 0 <= i < j < |s| ==> s[i].id < s[j].id
  }

  /** The rows listed in order are strictly increasing by id. */
  lemma {:induction false} RowsInOrderSorted(rows: map<int, FaceTest>, keys: set<int>)
    requires keys <= rows.Keys
    requires forall k :: k in rows ==> rows[k].id == k
    ensures SortedById(RowsInOrder(rows, keys))
    decreases keys
  {
    if keys != {} {
      var m := MinKey(keys);
      var rest := RowsInOrder(rows, keys - {m});
      RowsInOrderSorted(rows, keys - {m});
      forall i | 0 <= i < |rest|
        ensures rest[i].id > m
      {
        var k :| k in keys - {m} && rest[i] == rows[k];
      }
      var r := RowsInOrder(rows, keys);
      assert r == [rows[m]] + rest;
      forall i, j | 0 <= i < j < |r|
        ensures r[i].id < r[j].id
      {
        if i == 0 {
          assert r[0].id == m;
          assert r[j] == rest[j - 1] && rest[j - 1].id > m;
        } else {
          assert r[i] == rest[i - 1] && r[j] == rest[j - 1];
          assert rest[i - 1].id < rest[j - 1].id;
        }
      }
    }
  }

  /** Every row of the table is listed. */
  lemma {:induction false} RowsInOrderComplete(rows: map<int, FaceTest>, keys: set<int>, k: int)
    requires keys <= rows.Keys && k in keys
    ensures rows[k] in RowsInOrder(rows, keys)
    decreases keys
  {
    var m := MinKey(keys);
    if k != m {
      RowsInOrderComplete(rows, keys - {m}, k);
    }
  }

  /**
   * `getAll` lists each row of a keyed table once, in ascending id order,
   * and nothing that is not a row; after `clearDb` it lists nothing.
   */
  lemma AllRowsListsTable(t: Table)
    requires Keyed(t)
    ensures var r := AllRows(t);
      && |r| == |t.rows|
      && SortedById(r)
      && (forall i :: 0 <= i < |r| ==> r[i].id in t.rows && r[i] == t.rows[r[i].id])
      && (forall k :: k in t.rows ==> t.rows[k] in r)
      && AllRows(Cleared(t)) == []
  {
    RowsInOrderSorted(t.rows, t.rows.Keys);
    assert |t.rows.Keys| == |t.rows|;
    assert Cleared(t).rows.Keys == {};
    forall i | 0 <= i < |AllRows(t)|
      ensures AllRows(t)[i].id in t.rows && AllRows(t)[i] == t.rows[AllRows(t)[i].id]
    {
      var k :| k in t.rows.Keys && AllRows(t)[i] == t.rows[k];
    }
    forall k | k in t.rows
      ensures t.rows[k] in AllRows(t)
    {
      RowsInOrderComplete(t.rows, t.rows.Keys, k);
    }
  }

  /** The DAO over one database: the table and its id sequence, changed in place by each statement. */
  class FaceTestDao {
    var rows: map<int, FaceTest>
    var lastId: int

    function Snapshot(): Table
      reads this
    {
      Table(rows, lastId)
    }

    ghost predicate Valid()
      reads this
    {
      Keyed(Snapshot())
    }

    constructor ()
      ensures Valid() && Snapshot() == Table(map[], 0)
    {
      rows := map[];
      lastId := 0;
    }

    /** `saveAFace`; `ok` is false where the insert throws. */
    method SaveAFace(faceTest: FaceTest) returns (ok: bool)
      requires Valid()
      modifies this
      ensures Valid()
      ensures ok <==> Insert(old(Snapshot()), faceTest).Success?
      ensures ok ==> Snapshot() == Insert(old(Snapshot()), faceTest).value
      ensures !ok ==> Snapshot() == old(Snapshot())
    {
      var id := if faceTest.id == 0 then lastId + 1 else faceTest.id;
      if id in rows {
        return false;
      }
      rows := rows[id := faceTest.(id := id)];
      lastId := Max(lastId, id);
      ok := true;
    }

    method RecordAVerification(result: int, id: int)
      requires Valid()
      modifies this
      ensures Valid()
      ensures Snapshot() == Recorded(old(Snapshot()), result, id)
    {
      if id in rows {
        var row := rows[id];
        rows := rows[id := row.(verificationAttempts := row.verificationAttempts + 1,
                                successfulVerifications := row.successfulVerifications + result)];
      }
    }

    /** `getAll`: repeatedly takes the row with the least remaining id. */
    method GetAll() returns (all: seq<FaceTest>)
      ensures all == AllRows(Snapshot())
    {
      var remaining := rows.Keys;
      all := [];
      while remaining != {}
        invariant remaining <= rows.Keys
        invariant all + RowsInOrder(rows, remaining) == AllRows(Snapshot())
        decreases remaining
      {
        ghost var least := MinKey(remaining);
        var m :| m in remaining && forall k :: k in remaining ==> m <= k;
        assert m == least;
        all := all + [rows[m]];
        remaining := remaining - {m};
      }
    }

    method ClearDb()
      requires Valid()
      modifies this
      ensures Valid()
      ensures Snapshot() == Cleared(old(Snapshot()))
    {
      rows := map[];
    }
  }
}
