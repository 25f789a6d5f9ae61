/** The `passwords` table: (service, password, created_at) rows, with
    `service` declared UNIQUE. The table is a map keyed by service, so two
    rows can never share a service name. */
module Store {

  /** Stands for the `datetime` value `datetime.now()` returns at insertion. */
  type Timestamp = nat

  /** The columns of a row other than its key. */
  datatype Entry = Entry(password: string, createdAt: Timestamp)

  type Rows = map<string, Entry>

  /** One row as `SELECT service, password, created_at` returns it. */
  datatype Record = Record(service: string, password: string, createdAt: Timestamp)

  /** What the database file holds when it is opened. */
  datatype DbFile = NoTable | HasTable(rows: Rows)

  /** Outcome of an INSERT: success, or the UNIQUE constraint's `IntegrityError`. */
  datatype InsertResult = Inserted | IntegrityError

  function RecordOf(rows: Rows, service: string): Record
    requires service in rows
  {
    Record(service, rows[service].password, rows[service].createdAt)
  }

  /** The stored records, as a set: SELECT has no ORDER BY. */
  ghost function RecordsOf(rows: Rows): set<Record>
  {
    set s | s in rows :: RecordOf(rows, s)
  }

  /** A record is stored exactly when its service maps to its other columns;
      in particular no two stored records share a service. */
  lemma RecordsOfMembers(rows: Rows)
    ensures forall r :: r in RecordsOf(rows) <==> r.service in rows && rows[r.service] == Entry(r.password, r.createdAt)
    ensures forall r1, r2 :: r1 in RecordsOf(rows) && r2 in RecordsOf(rows) && r1.service == r2.service ==> r1 == r2
  {
    forall r: Record | r.service in rows && rows[r.service] == Entry(r.password, r.createdAt)
      ensures r in RecordsOf(rows)
    {
      assert r == RecordOf(rows, r.service);
    }
  }

  /** Inserting a new service adds exactly its record and keeps all others. */
  lemma RecordsOfInsert(rows: Rows, service: string, entry: Entry)
    requires service !in rows
    ensures RecordsOf(rows[service := entry]) == RecordsOf(rows) + {Record(service, entry.password, entry.createdAt)}
  {
    var rows' := rows[service := entry];
    RecordsOfMembers(rows);
    RecordsOfMembers(rows');
    forall r: Record ensures r in RecordsOf(rows') <==> r in RecordsOf(rows) + {Record(service, entry.password, entry.createdAt)} {
    }
  }

  /** The table file opened by `sqlite3.connect`, with the rows it holds. */
  class CredentialStore {
    var tableExists: bool
    var rows: Rows

    /** Without the table there are no rows. */
    ghost predicate Valid()
      reads this
    {
      tableExists || rows == map[]
    }

    /** Opens the file as it is found, without creating anything. */
    constructor Connect(file: DbFile)
      ensures Valid()
      ensures tableExists == file.HasTable?
      ensures rows == if file.HasTable? then file.rows else map[]
    {
      tableExists := file.HasTable?;
      rows := if file.HasTable? then file.rows else map[];
    }

    /** CREATE TABLE IF NOT EXISTS: afterwards the table exists, and any rows
        it already held are kept, so running it again changes nothing. */
    method InitDb()
      requires Valid()
      modifies this
      ensures Valid() && tableExists
      ensures rows == old(rows)
    {
      if !tableExists {
        tableExists := true;
        rows := map[];
      }
    }

    /** INSERT INTO passwords: fails with `IntegrityError` when the service is
        already present, and then changes nothing. */
    method Insert(service: string, password: string, now: Timestamp) returns (r: InsertResult)
      requires Valid() && tableExists
      modifies this`rows
      ensures Valid()
      ensures r == Inserted <==> service !in old(rows)
      ensures r == Inserted ==> rows == old(rows)[service := Entry(password, now)]
      ensures r == IntegrityError ==> rows == old(rows)
    {
      if service in rows {
        r := IntegrityError;
      } else {
        rows := rows[service := Entry(password, now)];
        r := Inserted;
      }
    }

    /** SELECT service, password, created_at FROM passwords: every stored
        record exactly once, in an order the model leaves open. */
    method SelectAll() returns (records: seq<Record>)
      requires Valid() && tableExists
      ensures |records| == |rows|
      ensures forall r :: r in records <==> r in RecordsOf(rows)
      ensures forall i, j :: 0 <= i < j < |records| ==> records[i].service != records[j].service
    {
      records := [];
      var remaining := rows.Keys;
      while remaining != {}
        invariant remaining <= rows.Keys
        invariant |records| + |remaining| == |rows.Keys|
        invariant forall i :: 0 <= i < |records| ==>
                    records[i].service in rows && records[i].service !in remaining
                    && records[i] == RecordOf(rows, records[i].service)
        invariant forall s :: s in rows && s !in remaining ==> RecordOf(rows, s) in records
        invariant forall i, j :: 0 <= i < j < |records| ==> records[i].service != records[j].service
        decreases |remaining|
      {
        var s :| s in remaining;
        records := records + [RecordOf(rows, s)];
        remaining := remaining - {s};
      }
      RecordsOfMembers(rows);
    }
  }
}
