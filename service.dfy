/** The applications table behind `Db` in backend/service/db.go, kept in memory.
    The rows are held in the order a scan returns them; nothing in the code makes
    `id` or `api_key` unique, so several rows may share one. Store failures are
    given to each operation as a parameter. */
module Service {
  import opened Wrappers

  /** One row of the applications table. */
  datatype Row = Row(
    id: string,
    name: string,
    description: string,
    owners: string,
    teamName: string,
    apiKey: string,
    isValid: bool)
  {
    /** The value this row holds in `column`. */
    function Cell(column: Column): string {
      match column
      case Id => id
      case ApiKey => apiKey
    }
  }

  /** The fields a caller sends to `UpdateApplication`. */
  datatype ApplicationSimple = ApplicationSimple(
    id: string,
    name: string,
    description: string,
    owners: string,
    team: string)

  /** The record `GetApplication` fills. */
  datatype ApplicationExtended = ApplicationExtended(
    id: string,
    name: string,
    description: string,
    owners: string,
    team: string,
    apiKey: string,
    isValid: bool)

  /** The columns `CheckDuplicate` knows how to query. */
  datatype Column = Id | ApiKey

  /** What the store answers to the insert statement: the id it assigned, or an error. */
  datatype Insertion = Inserted(assignedId: string) | InsertFailed(err: Error)

  /** Go's zero value of `ApplicationExtended`. */
  const ZeroApplication := ApplicationExtended("", "", "", "", "", "", false)

  /** The row as `GetApplication` scans it: the team column is not read. */
  function Scanned(row: Row): (app: ApplicationExtended)
    ensures app.team == ""
  {
    ApplicationExtended(row.id, row.name, row.description, row.owners, "", row.apiKey, row.isValid)
  }

  /** Whether some row holds `value` in `column`: the query `CheckDuplicate` runs. */
  function Present(rows: seq<Row>, column: Column, value: string): (found: bool)
    ensures found <==> exists i | 0 <= i < |rows| :: rows[i].Cell(column) == value
    decreases |rows|
  {
    if rows == [] then false
    else rows[0].Cell(column) == value || Present(rows[1..], column, value)
  }

  /** What a scan for `id` leaves in the record: the last matching row, or the zero
      record when no row matches. */
  function Fetch(rows: seq<Row>, id: string): (app: ApplicationExtended)
    ensures app.team == ""
    decreases |rows|
  {
    if rows == [] then ZeroApplication
    else if rows[|rows| - 1].id == id then Scanned(rows[|rows| - 1])
    else Fetch(rows[..|rows| - 1], id)
  }

  /** The table after `UPDATE ... SET name, description, owners WHERE id = $4`. */
  function Updated(rows: seq<Row>, id: string, info: ApplicationSimple): (r: seq<Row>)
    ensures |r| == |rows|
    ensures forall i | 0 <= i < |rows| ::
      && r[i].id == rows[i].id
      && r[i].teamName == rows[i].teamName
      && r[i].apiKey == rows[i].apiKey
      && r[i].isValid == rows[i].isValid
      && (rows[i].id == id ==>
            r[i].name == info.name && r[i].description == info.description && r[i].owners == info.owners)
      && (rows[i].id != id ==> r[i] == rows[i])
  {
    seq(|rows|, i requires 0 <= i < |rows| =>
      if rows[i].id == id
      then rows[i].(name := info.name, description := info.description, owners := info.owners)
      else rows[i])
  }

  /** The table after `DELETE FROM applications WHERE id = $1`: the other rows, in
      scan order. No row with the id is left, and every row without it stays. */
  function Deleted(rows: seq<Row>, id: string): (r: seq<Row>)
    ensures |r| <= |rows|
    ensures forall i | 0 <= i < |r| :: r[i].id != id
    ensures forall i | 0 <= i < |rows| && rows[i].id != id :: rows[i] in r
    decreases |rows|
  {
    if rows == [] then []
    else
      (if rows[0].id == id then [] else [rows[0]]) + Deleted(rows[1..], id)
  }

  /** A scan finds nothing when no row has the id: the zero record, with no error. */
  lemma {:induction false} FetchAbsent(rows: seq<Row>, id: string)
    requires forall i | 0 <= i < |rows| :: rows[i].id != id
    ensures Fetch(rows, id) == ZeroApplication
    decreases |rows|
  {
    if rows != [] {
      FetchAbsent(rows[..|rows| - 1], id);
    }
  }

  /** When rows match, the last one scanned is the one returned. */
  lemma {:induction false} FetchLastMatch(rows: seq<Row>, id: string, k: nat)
    requires k < |rows| && rows[k].id == id
    requires forall j | k < j < |rows| :: rows[j].id != id
    ensures Fetch(rows, id) == Scanned(rows[k])
    decreases |rows|
  {
    if k < |rows| - 1 {
      FetchLastMatch(rows[..|rows| - 1], id, k);
    }
  }

  /** After a delete, fetching the same id gives the zero record. */
  lemma FetchAfterDelete(rows: seq<Row>, id: string)
    ensures Fetch(Deleted(rows, id), id) == ZeroApplication
  {
    FetchAbsent(Deleted(rows, id), id);
  }

  /** Deleting works row by row in scan order: a row added at the end of the scan
      survives exactly when its id differs. */
  lemma {:induction false} DeleteAppend(rows: seq<Row>, x: Row, id: string)
    ensures Deleted(rows + [x], id) == Deleted(rows, id) + (if x.id == id then [] else [x])
    decreases |rows|
  {
    if rows == [] {
      assert [x][1..] == [];
    } else {
      var head := if rows[0].id == id then [] else [rows[0]];
      var tail := if x.id == id then [] else [x];
      assert (rows + [x])[0] == rows[0];
      assert (rows + [x])[1..] == rows[1..] + [x];
      assert Deleted(rows + [x], id) == head + Deleted(rows[1..] + [x], id);
      DeleteAppend(rows[1..], x, id);
      assert Deleted(rows, id) == head + Deleted(rows[1..], id);
      assert head + (Deleted(rows[1..], id) + tail) == (head + Deleted(rows[1..], id)) + tail;
    }
  }

  /** Deleting one id leaves what a fetch of any other id returns, including which
      of its rows is scanned last. */
  lemma {:induction false} FetchOtherAfterDelete(rows: seq<Row>, id: string, other: string)
    requires other != id
    ensures Fetch(Deleted(rows, id), other) == Fetch(rows, other)
    decreases |rows|
  {
    if rows != [] {
      var n := |rows| - 1;
      var x := rows[n];
      assert rows == rows[..n] + [x];
      DeleteAppend(rows[..n], x, id);
      FetchOtherAfterDelete(rows[..n], id, other);
      var d := Deleted(rows[..n], id);
      assert Fetch(rows, other) == if x.id == other then Scanned(x) else Fetch(rows[..n], other);
      if x.id != id {
        assert Deleted(rows, id) == d + [x];
        assert (d + [x])[|d|] == x;
        assert (d + [x])[..|d|] == d;
        assert Fetch(d + [x], other) == if x.id == other then Scanned(x) else Fetch(d, other);
      } else {
        assert d + [] == d;
        assert Deleted(rows, id) == d;
      }
    }
  }

  /** Deleting keeps every row without the id as many times as it was there and
      keeps no row with the id. */
  lemma {:induction false} DeletedCounts(rows: seq<Row>, id: string)
    ensures forall row :: multiset(Deleted(rows, id))[row] == if row.id == id then 0 else multiset(rows)[row]
    decreases |rows|
  {
    if rows != [] {
      DeletedCounts(rows[1..], id);
      assert rows == [rows[0]] + rows[1..];
    }
  }

  /** Deleting an id no row has changes nothing. */
  lemma {:induction false} DeleteAbsent(rows: seq<Row>, id: string)
    requires forall i | 0 <= i < |rows| :: rows[i].id != id
    ensures Deleted(rows, id) == rows
    decreases |rows|
  {
    if rows != [] {
      DeleteAbsent(rows[1..], id);
      assert rows == [rows[0]] + rows[1..];
    }
  }

  /** Deleting twice is deleting once. */
  lemma DeleteIdempotent(rows: seq<Row>, id: string)
    ensures Deleted(Deleted(rows, id), id) == Deleted(rows, id)
  {
    DeleteAbsent(Deleted(rows, id), id);
  }

  /** Updating an id no row has changes nothing. */
  lemma UpdateAbsent(rows: seq<Row>, id: string, info: ApplicationSimple)
    requires forall i | 0 <= i < |rows| :: rows[i].id != id
    ensures Updated(rows, id, info) == rows
  {
  }

  /** The id and team carried in the update request play no part. */
  lemma UpdateIgnoresIdAndTeam(rows: seq<Row>, id: string, info: ApplicationSimple, otherId: string, otherTeam: string)
    ensures Updated(rows, id, info) == Updated(rows, id, info.(id := otherId, team := otherTeam))
  {
  }

  /** Updating twice with the same fields is updating once. */
  lemma UpdateIdempotent(rows: seq<Row>, id: string, info: ApplicationSimple)
    ensures Updated(Updated(rows, id, info), id, info) == Updated(rows, id, info)
  {
  }

  /** After an update, fetching the id shows the new name, description and owners
      and the old id, api key and validity. */
  lemma {:induction false} FetchAfterUpdate(rows: seq<Row>, id: string, info: ApplicationSimple)
    requires exists i | 0 <= i < |rows| :: rows[i].id == id
    ensures Fetch(Updated(rows, id, info), id)
         == Fetch(rows, id).(name := info.name, description := info.description, owners := info.owners)
    decreases |rows|
  {
    var n := |rows| - 1;
    var u := Updated(rows, id, info);
    assert u[..n] == Updated(rows[..n], id, info);
    if rows[n].id != id {
      FetchAfterUpdate(rows[..n], id, info);
    }
  }

  /** The table of `Db`; each method is one statement the code sends to it. */
  class ApplicationTable {
    var rows: seq<Row>

    constructor (initial: seq<Row>)
      ensures rows == initial
    {
      rows := initial;
    }

    /** `INSERT INTO applications (name, description, is_valid) VALUES ($1, $2, true)
        RETURNING id`: one new row, with the id the store assigned; the columns the
        statement does not name keep the empty default. */
    method NewApp(name: string, desc: string, insert: Insertion) returns (id: string, err: Option<Error>)
      modifies this
      ensures insert.Inserted? ==>
        && id == insert.assignedId && err == None
        && rows == old(rows) + [Row(insert.assignedId, name, desc, "", "", "", true)]
      ensures insert.InsertFailed? ==>
        id == "" && err == Some(insert.err) && rows == old(rows)
    {
      match insert
      case InsertFailed(e) =>
        return "", Some(e);
      case Inserted(newId) =>
        rows := rows + [Row(newId, name, desc, "", "", "", true)];
        return newId, None;
    }

    /** Scans every row with the id, overwriting the record each time; no error is
        reported when nothing matches. */
    method GetApplication(applicationId: string) returns (app: ApplicationExtended)
      ensures app == Fetch(rows, applicationId)
    {
      app := ZeroApplication;
      var i := 0;
      while i < |rows|
        invariant 0 <= i <= |rows|
        invariant app == Fetch(rows[..i], applicationId)
      {
        if rows[i].id == applicationId {
          app := Scanned(rows[i]);
        }
        assert rows[..i + 1][..i] == rows[..i];
        i := i + 1;
      }
      assert rows[..i] == rows;
    }

    /** `UPDATE applications SET name, description, owners WHERE id = $4`; the store's
        error, if any, is returned and the table is left as it was. */
    method UpdateApplication(applicationId: string, applicationInfo: ApplicationSimple, fault: Option<Error>)
      returns (err: Option<Error>)
      modifies this
      ensures err == fault
      ensures rows == if fault.None? then Updated(old(rows), applicationId, applicationInfo) else old(rows)
    {
      if fault.None? {
        rows := Updated(rows, applicationId, applicationInfo);
      }
      err := fault;
    }

    /** `DELETE FROM applications WHERE id = $1`; the store's error, if any, is returned
        and the table is left as it was. */
    method DeleteApplication(applicationId: string, fault: Option<Error>) returns (err: Option<Error>)
      modifies this
      ensures err == fault
      ensures rows == if fault.None? then Deleted(old(rows), applicationId) else old(rows)
    {
      if fault.None? {
        rows := Deleted(rows, applicationId);
      }
      err := fault;
    }

    /** Asks whether some row holds `newGen` in `column`: `true` when a row exists,
        `false` when none does, and `false` with the error when the query fails. */
    method CheckDuplicate(column: Column, newGen: string, fault: Option<Error>) returns (found: bool, err: Option<Error>)
      ensures err == fault
      ensures found <==> fault.None? && exists i | 0 <= i < |rows| :: rows[i].Cell(column) == newGen
    {
      if fault.Some? {
        return false, fault;
      }
      found := Present(rows, column, newGen);
      err := None;
    }
  }
}
