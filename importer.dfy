/**
 The `import` routine of the CSV importer: the first record is the header,
 the mapping is resolved once against it, a transaction is opened, and every
 record that is not identical to the header is turned into a data dictionary,
 validated and saved. Any failure rolls the transaction back and is reported;
 otherwise the transaction is committed.
 */
module CsvImporter {
  import opened FieldMapping
  import opened RowBuilding
  import opened Store

  /** What a concrete importer configures: the destination table, the declared
      mapping entries, and its validation rules, given here as the verdict of
      the validator on a data dictionary. The verdict may depend on the table's
      current rows, as rules such as `unique` and `exists` do. */
  datatype Config = Config(table: string, entries: seq<Entry>, validates: (seq<Entity>, Record) -> bool)

  /** How a call of `import` ends: committed, or rolled back with the error it re-raises. */
  datatype Outcome = Committed | RolledBack(error: ImportError)

  /** `fetchOne()`: the first record, or no columns at all for an empty file. */
  function HeaderOf(records: seq<Row>): (h: Header)
    ensures records != [] ==> h == records[0]
    ensures records == [] ==> h == []
  {
    if records == [] then [] else records[0]
  }

  /** The records the row loop does not skip, in file order. */
  function DataRows(header: Header, records: seq<Row>): (d: seq<Row>)
    ensures |d| <= |records|
    ensures forall r :: r in d <==> r in records && r != header
    ensures forall r :: multiset(d)[r] == if r == header then 0 else multiset(records)[r]
  {
    if records == [] then []
    else
      assert records == [records[0]] + records[1..];
      if records[0] == header then DataRows(header, records[1..])
      else [records[0]] + DataRows(header, records[1..])
  }

  /** Skipping is done record by record, so the records kept from a file are
      those kept from its first part followed by those kept from the rest. */
  lemma {:induction false} DataRowsAppend(header: Header, a: seq<Row>, b: seq<Row>)
    ensures DataRows(header, a + b) == DataRows(header, a) + DataRows(header, b)
  {
    if a != [] {
      assert (a + b)[0] == a[0] && (a + b)[1..] == a[1..] + b;
      DataRowsAppend(header, a[1..], b);
    } else {
      assert a + b == b;
    }
  }

  /** One iteration of the row loop before the save, against the table
      contents `rows`: build the data dictionary, validate it, and make the
      model to be saved. */
  function Prepared(c: Config, mapping: Resolved, header: Header, rows: seq<Entity>, row: Row): (r: Result<Entity>)
    ensures RowData(mapping, header, row).Err? ==> r == Err(RowData(mapping, header, row).error)
    ensures RowData(mapping, header, row).Ok? && !c.validates(rows, RowData(mapping, header, row).value) ==>
              r == Err(ValidationFailed)
    ensures r.Ok? <==> RowData(mapping, header, row).Ok? && c.validates(rows, RowData(mapping, header, row).value)
    ensures r.Ok? ==> r.value == NewEntity(c.table, RowData(mapping, header, row).value)
  {
    match RowData(mapping, header, row)
    case Err(e) => Err(e)
    case Ok(data) =>
      if !c.validates(rows, data) then Err(ValidationFailed) else Ok(NewEntity(c.table, data))
  }

  /** The row loop over `records`, starting from the table contents `rows`:
      the table contents at the end, or the error that stopped the loop. */
  function Process(c: Config, accepts: (seq<Entity>, Entity) -> bool, header: Header, mapping: Resolved,
                   records: seq<Row>, rows: seq<Entity>): (r: Result<seq<Entity>>)
    ensures r.Ok? ==> |r.value| == |rows| + |DataRows(header, records)| && r.value[..|rows|] == rows
    ensures r.Err? ==> r.error != CommitFailed
    decreases |records|
  {
    if records == [] then Ok(rows)
    else if records[0] == header then Process(c, accepts, header, mapping, records[1..], rows)
    else
      match Prepared(c, mapping, header, rows, records[0])
      case Err(e) => Err(e)
      case Ok(entity) =>
        if !accepts(rows, entity) then Err(SaveFailed)
        else
          var r := Process(c, accepts, header, mapping, records[1..], rows + [entity]);
          assert r.Ok? ==> r.value[..|rows|] == r.value[..|rows| + 1][..|rows|];
          r
  }

  /** A whole import of a parsed file against the table contents `rows`,
      before the commit. */
  function Run(c: Config, accepts: (seq<Entity>, Entity) -> bool, records: seq<Row>, rows: seq<Entity>): (r: Result<seq<Entity>>)
    ensures r.Ok? ==> |rows| <= |r.value| && r.value[..|rows|] == rows
    ensures r.Ok? ==> |r.value| == |rows| + |DataRows(HeaderOf(records), records)|
    ensures r.Ok? && records != [] ==> |r.value| <= |rows| + |records| - 1
    ensures r.Ok? && records == [] ==> r.value == rows
  {
    var header := HeaderOf(records);
    assert records != [] ==> DataRows(header, records) == DataRows(header, records[1..]);
    Process(c, accepts, header, Resolve(c.entries, header), records, rows)
  }

  /** A database that accepts every insert. */
  ghost predicate Unconstrained(accepts: (seq<Entity>, Entity) -> bool)
  {
    forall st, e :: accepts(st, e)
  }

  /** Validation rules that do not consult the table. */
  ghost predicate TableBlind(validates: (seq<Entity>, Record) -> bool)
  {
    forall st, d :: validates(st, d) == validates([], d)
  }

  /** The `foreach` over the records, inside the open transaction: each record
      that is not a copy of the header is built, validated and saved. It
      returns the table contents the loop reaches, or the error that stopped
      it, exactly as `Process` specifies. */
  method ImportRows(c: Config, header: Header, mapping: Resolved, records: seq<Row>, conn: Connection)
    returns (r: Result<seq<Entity>>)
    modifies conn`rows
    ensures r == Process(c, conn.accepts, header, mapping, records, old(conn.rows))
    ensures r.Ok? ==> conn.rows == r.value
  {
    var i := 0;
    while i < |records|
      invariant 0 <= i <= |records|
      invariant Process(c, conn.accepts, header, mapping, records[i..], conn.rows)
                == Process(c, conn.accepts, header, mapping, records, old(conn.rows))
    {
      var row := records[i];
      assert records[i..][1..] == records[i + 1..];
      if row != header {
        var data := BuildRowData(mapping, header, row);
        if data.Err? {
          return Err(data.error);
        }
        if !c.validates(conn.rows, data.value) {
          return Err(ValidationFailed);
        }
        var model := NewEntity(c.table, data.value);
        var saved := conn.Save(model);
        if !saved {
          return Err(SaveFailed);
        }
      }
      i := i + 1;
    }
    r := Ok(conn.rows);
  }

  /** `import`: the mapping is resolved once, before the transaction opens; on
      any failure, the commit included, the transaction is rolled back, so the
      table is left as it was, and the error is reported; otherwise the
      transaction is committed. */
  method Import(c: Config, records: seq<Row>, conn: Connection) returns (outcome: Outcome)
    modifies conn
    ensures conn.snapshots == old(conn.snapshots)
    ensures match Run(c, conn.accepts, records, old(conn.rows))
            case Ok(s) =>
              if old(conn.snapshots) == [] && !conn.commits(s)
              then outcome == RolledBack(CommitFailed) && conn.rows == old(conn.rows)
              else outcome == Committed && conn.rows == s
            case Err(e) => outcome == RolledBack(e) && conn.rows == old(conn.rows)
  {
    var header := HeaderOf(records);
    var mapping := GetMapping(c.entries, header);
    conn.BeginTransaction();
    var result := ImportRows(c, header, mapping, records, conn);
    if result.Err? {
      conn.RollBack();
      return RolledBack(result.error);
    }
    var committed := conn.Commit();
    if !committed {
      conn.RollBack();
      return RolledBack(CommitFailed);
    }
    outcome := Committed;
  }

  /** A committed loop appends exactly one entity per record that is not a copy
      of the header, in file order, each built from its record and validated
      against the table as it stood when that record was reached; the earlier
      contents are kept. */
  lemma {:induction false} ProcessCommitted(c: Config, accepts: (seq<Entity>, Entity) -> bool, header: Header,
                                            mapping: Resolved, records: seq<Row>, rows: seq<Entity>, s: seq<Entity>)
    requires Process(c, accepts, header, mapping, records, rows) == Ok(s)
    ensures |s| == |rows| + |DataRows(header, records)|
    ensures s[..|rows|] == rows
    ensures forall k :: 0 <= k < |DataRows(header, records)| ==>
              Prepared(c, mapping, header, s[..|rows| + k], DataRows(header, records)[k]) == Ok(s[|rows| + k])
  {
    if records != [] {
      var d := DataRows(header, records);
      var tail := DataRows(header, records[1..]);
      if records[0] == header {
        ProcessCommitted(c, accepts, header, mapping, records[1..], rows, s);
      } else {
        var entity := Prepared(c, mapping, header, rows, records[0]).value;
        var rows' := rows + [entity];
        ProcessCommitted(c, accepts, header, mapping, records[1..], rows', s);
        assert d == [records[0]] + tail;
        assert s[..|rows'|][..|rows|] == s[..|rows|];
        forall k | 0 <= k < |d|
          ensures Prepared(c, mapping, header, s[..|rows| + k], d[k]) == Ok(s[|rows| + k])
        {
          if k > 0 {
            assert d[k] == tail[k - 1];
          } else {
            assert s[..|rows'|][|rows|] == rows'[|rows|];
          }
        }
      }
    }
  }

  /** All or nothing: one record that is not a copy of the header and that
      fails to build, or fails validation whatever the table holds, makes the
      whole loop fail. */
  lemma {:induction false} ProcessAbortsOnBadRow(c: Config, accepts: (seq<Entity>, Entity) -> bool, header: Header,
                                                 mapping: Resolved, records: seq<Row>, rows: seq<Entity>, r: Row)
    requires r in records && r != header
    requires forall st :: Prepared(c, mapping, header, st, r).Err?
    ensures Process(c, accepts, header, mapping, records, rows).Err?
  {
    if records[0] != r {
      assert r in records[1..];
      if records[0] == header {
        ProcessAbortsOnBadRow(c, accepts, header, mapping, records[1..], rows, r);
      } else if Prepared(c, mapping, header, rows, records[0]).Ok? {
        var entity := Prepared(c, mapping, header, rows, records[0]).value;
        if accepts(rows, entity) {
          ProcessAbortsOnBadRow(c, accepts, header, mapping, records[1..], rows + [entity], r);
        }
      }
    } else {
      assert Prepared(c, mapping, header, rows, r).Err?;
    }
  }

  /** When every record that is not a copy of the header builds and validates,
      whatever the table holds, and the database accepts every insert, the
      loop commits. */
  lemma {:induction false} ProcessCommitsGoodRows(c: Config, accepts: (seq<Entity>, Entity) -> bool, header: Header,
                                                  mapping: Resolved, records: seq<Row>, rows: seq<Entity>)
    requires Unconstrained(accepts)
    requires forall st, r :: r in records && r != header ==> Prepared(c, mapping, header, st, r).Ok?
    ensures Process(c, accepts, header, mapping, records, rows).Ok?
  {
    if records != [] {
      forall st, r | r in records[1..] && r != header
        ensures Prepared(c, mapping, header, st, r).Ok?
      {
        assert r in records;
      }
      if records[0] == header {
        ProcessCommitsGoodRows(c, accepts, header, mapping, records[1..], rows);
      } else {
        var entity := Prepared(c, mapping, header, rows, records[0]).value;
        assert accepts(rows, entity);
        ProcessCommitsGoodRows(c, accepts, header, mapping, records[1..], rows + [entity]);
      }
    }
  }

  /** Records identical to the header are never validated or saved: the loop
      gives the same result when they are removed beforehand. */
  lemma {:induction false} ProcessSkipsHeaderCopies(c: Config, accepts: (seq<Entity>, Entity) -> bool, header: Header,
                                                    mapping: Resolved, records: seq<Row>, rows: seq<Entity>)
    ensures Process(c, accepts, header, mapping, records, rows)
            == Process(c, accepts, header, mapping, DataRows(header, records), rows)
  {
    if records != [] {
      var d := DataRows(header, records);
      if records[0] == header {
        ProcessSkipsHeaderCopies(c, accepts, header, mapping, records[1..], rows);
      } else {
        assert d[0] == records[0] && d[1..] == DataRows(header, records[1..]);
        match Prepared(c, mapping, header, rows, records[0])
        case Err(_) =>
        case Ok(entity) =>
          ProcessSkipsHeaderCopies(c, accepts, header, mapping, records[1..], rows + [entity]);
      }
    }
  }

  /** When neither the database nor the validation rules look at the table,
      what the loop appends does not depend on what the table already holds. */
  lemma {:induction false} ProcessAppendsSameRows(c: Config, accepts: (seq<Entity>, Entity) -> bool, header: Header,
                                                  mapping: Resolved, records: seq<Row>, rows: seq<Entity>,
                                                  s: seq<Entity>, other: seq<Entity>)
    requires Unconstrained(accepts) && TableBlind(c.validates)
    requires Process(c, accepts, header, mapping, records, rows) == Ok(s)
    ensures Process(c, accepts, header, mapping, records, other) == Ok(other + s[|rows|..])
  {
    if records == [] {
      assert s[|rows|..] == [];
      assert other + s[|rows|..] == other;
    } else if records[0] == header {
      ProcessAppendsSameRows(c, accepts, header, mapping, records[1..], rows, s, other);
    } else {
      var entity := Prepared(c, mapping, header, rows, records[0]).value;
      var data := RowData(mapping, header, records[0]).value;
      assert c.validates(other, data) == c.validates([], data) == c.validates(rows, data);
      assert Prepared(c, mapping, header, other, records[0]) == Ok(entity);
      assert accepts(other, entity);
      var rows' := rows + [entity];
      ProcessAppendsSameRows(c, accepts, header, mapping, records[1..], rows', s, other + [entity]);
      assert s[..|rows'|][|rows|] == entity;
      assert s[|rows|..] == [entity] + s[|rows'|..];
      assert (other + [entity]) + s[|rows'|..] == other + s[|rows|..];
    }
  }

  /** There is no deduplication: importing the same file again, into a table
      with no constraints and with rules that do not consult the table,
      appends the same entities a second time. */
  lemma ReimportDuplicates(c: Config, accepts: (seq<Entity>, Entity) -> bool, records: seq<Row>,
                           rows: seq<Entity>, s: seq<Entity>)
    requires Unconstrained(accepts) && TableBlind(c.validates)
    requires Run(c, accepts, records, rows) == Ok(s)
    ensures |rows| <= |s|
    ensures Run(c, accepts, records, s) == Ok(s + s[|rows|..])
  {
    var header := HeaderOf(records);
    ProcessAppendsSameRows(c, accepts, header, Resolve(c.entries, header), records, rows, s, s);
  }

  /** The first record is the header and is never imported; a committed import
      appends one entity per remaining record that differs from the header. */
  lemma RunCommitted(c: Config, accepts: (seq<Entity>, Entity) -> bool, records: seq<Row>,
                     rows: seq<Entity>, s: seq<Entity>)
    requires Run(c, accepts, records, rows) == Ok(s)
    ensures records != [] ==> records[0] !in DataRows(HeaderOf(records), records)
    ensures |s| == |rows| + |DataRows(HeaderOf(records), records)|
    ensures s[..|rows|] == rows
    ensures forall k :: 0 <= k < |s| - |rows| ==>
              Prepared(c, Resolve(c.entries, HeaderOf(records)), HeaderOf(records), s[..|rows| + k],
                       DataRows(HeaderOf(records), records)[k]) == Ok(s[|rows| + k])
  {
    var header := HeaderOf(records);
    ProcessCommitted(c, accepts, header, Resolve(c.entries, header), records, rows, s);
  }

  /** With the mapping resolved from the declared entries, a record builds
      exactly when every header name is declared by some entry and the record
      is at least as wide as the header; a header column no entry declares
      is not ignored: it aborts the import at the first record that differs
      from the header. */
  lemma ResolvedRowDataOkIff(entries: seq<Entry>, header: Header, row: Row)
    ensures RowData(Resolve(entries, header), header, row).Ok? <==>
            (forall i :: 0 <= i < |header| ==> exists j :: 0 <= j < |entries| && FieldOf(entries[j]) == header[i])
            && |header| <= |row|
  {
    var mapping := Resolve(entries, header);
    RowDataOkIff(mapping, header, row);
    forall i | 0 <= i < |header|
      ensures header[i] in mapping <==> exists j :: 0 <= j < |entries| && FieldOf(entries[j]) == header[i]
    {
      ResolveDomain(entries, header, header[i]);
    }
  }

  /** A database without constraints. */
  function AcceptAll(rows: seq<Entity>, e: Entity): bool
  {
    true
  }

  /** A users importer: `name` maps to `full_name`, `email` to `email_address`;
      both are required and the address must contain an `@`. */
  function UsersConfig(): Config
  {
    Config("users", [Entry(Name("name"), "full_name"), Entry(Name("email"), "email_address")],
           (rows, d) => "full_name" in d && d["full_name"] != "" && "email_address" in d && '@' in d["email_address"])
  }

  /** The users mapping resolved against the header `name,email`. */
  lemma UsersMapping()
    ensures Resolve(UsersConfig().entries, ["name", "email"]) == map["name" := "full_name", "email" := "email_address"]
  {
    var entries := UsersConfig().entries;
    assert entries[..1][..0] == [] && entries[..2][..1] == entries[..1] && entries[..2] == entries;
    assert Resolve(entries[..1], ["name", "email"]) == map["name" := "full_name"];
  }

  /** The data dictionary of a two-value record under the users mapping. */
  lemma UsersRowData(name: string, email: string)
    ensures RowData(map["name" := "full_name", "email" := "email_address"], ["name", "email"], [name, email])
            == Ok(map["full_name" := name, "email_address" := email])
  {
    var mapping := map["name" := "full_name", "email" := "email_address"];
    assert RowDataPrefix(mapping, ["name", "email"], [name, email], 1) == Ok(map["full_name" := name]);
  }

  /** A file with one valid record commits exactly that record, under the
      mapped column names. */
  lemma UsersImportOneRow()
    ensures Run(UsersConfig(), AcceptAll, [["name", "email"], ["Alice", "alice@example.com"]], [])
            == Ok([Entity("users", map["full_name" := "Alice", "email_address" := "alice@example.com"])])
  {
    var header, row := ["name", "email"], ["Alice", "alice@example.com"];
    var mapping := map["name" := "full_name", "email" := "email_address"];
    UsersMapping();
    UsersRowData("Alice", "alice@example.com");
    var data := map["full_name" := "Alice", "email_address" := "alice@example.com"];
    assert "alice@example.com"[5] == '@';
    assert Prepared(UsersConfig(), mapping, header, [], row) == Ok(Entity("users", data));
    var saved := [Entity("users", data)];
    assert [header, row][1..] == [row] && [row][1..] == [];
    assert row != header && [] + saved == saved;
    assert Process(UsersConfig(), AcceptAll, header, mapping, [], saved) == Ok(saved);
    assert Process(UsersConfig(), AcceptAll, header, mapping, [row], []) == Ok(saved);
  }

  /** A second record with an invalid address rolls back the first, valid one. */
  lemma UsersImportInvalidSecondRow()
    ensures Run(UsersConfig(), AcceptAll,
                [["name", "email"], ["Alice", "alice@example.com"], ["Bob", "not-an-email"]], [])
            == Err(ValidationFailed)
  {
    var header := ["name", "email"];
    var mapping := map["name" := "full_name", "email" := "email_address"];
    var alice, bob := ["Alice", "alice@example.com"], ["Bob", "not-an-email"];
    UsersMapping();
    UsersRowData("Alice", "alice@example.com");
    UsersRowData("Bob", "not-an-email");
    var aliceData := map["full_name" := "Alice", "email_address" := "alice@example.com"];
    assert "alice@example.com"[5] == '@';
    assert Prepared(UsersConfig(), mapping, header, [], alice) == Ok(Entity("users", aliceData));
    assert '@' !in "not-an-email";
    assert Prepared(UsersConfig(), mapping, header, [Entity("users", aliceData)], bob) == Err(ValidationFailed);
    var records := [header, alice, bob];
    assert records[1..] == [alice, bob] && [alice, bob][1..] == [bob];
    assert alice != header && bob != header;
    assert Process(UsersConfig(), AcceptAll, header, mapping, [bob], [Entity("users", aliceData)]) == Err(ValidationFailed);
  }
}
