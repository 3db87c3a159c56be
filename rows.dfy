/**
 Building the data dictionary of one CSV record: the inner `for` loop of
 `import`, which walks the header's columns by position, looks each header
 name up in the resolved mapping and stores the record's value under the
 mapped database column. Both lookups are unchecked in the importer, so a
 header name missing from the mapping or a record shorter than the header is
 an undefined-key access, which aborts the import.
 */
module RowBuilding {
  import opened FieldMapping

  /** A parsed CSV record. */
  type Row = seq<string>

  /** The data dictionary handed to the validator and to the model: column to value. */
  type Record = map<string, string>

  /** Why an import aborts. */
  datatype ImportError =
    | UndefinedKey(key: string)      // `$mapping[$header[$i]]` with no such key
    | UndefinedOffset(offset: nat)   // `$row[$i]` past the end of the record
    | ValidationFailed               // the validator rejected the data
    | SaveFailed                     // the database rejected the insert
    | CommitFailed                   // the database refused to commit

  datatype Result<T> = Ok(value: T) | Err(error: ImportError)

  /** Neither lookup of the first `n` iterations of the column loop fails. */
  ghost predicate Fits(mapping: Resolved, header: Header, row: Row, n: nat)
    requires n <= |header|
  {
    forall i :: 0 <= i < n ==> header[i] in mapping && i < |row|
  }

  /** The error raised at column `i`, the first column whose lookups fail. */
  function FaultAt(mapping: Resolved, header: Header, i: nat): ImportError
    requires i < |header|
  {
    if header[i] !in mapping then UndefinedKey(header[i]) else UndefinedOffset(i)
  }

  /** The data dictionary after the first `n` iterations of the column loop,
      or the error that aborted it. */
  function RowDataPrefix(mapping: Resolved, header: Header, row: Row, n: nat): (r: Result<Record>)
    requires n <= |header|
    ensures r.Ok? <==> Fits(mapping, header, row, n)
    ensures r.Err? ==> r.error.UndefinedKey? || r.error.UndefinedOffset?
  {
    if n == 0 then Ok(map[])
    else
      match RowDataPrefix(mapping, header, row, n - 1)
      case Err(e) => Err(e)
      case Ok(data) =>
        var i := n - 1;
        if header[i] !in mapping || i >= |row| then Err(FaultAt(mapping, header, i))
        else Ok(data[mapping[header[i]] := row[i]])
  }

  /** Once the column loop has aborted, later columns do not change the error. */
  lemma {:induction false} RowDataPrefixErrStays(mapping: Resolved, header: Header, row: Row, m: nat, n: nat)
    requires m <= n <= |header|
    requires RowDataPrefix(mapping, header, row, m).Err?
    ensures RowDataPrefix(mapping, header, row, n) == RowDataPrefix(mapping, header, row, m)
  {
    if m < n {
      RowDataPrefixErrStays(mapping, header, row, m, n - 1);
    }
  }

  /** A failed column loop reports the first column whose lookups fail: an
      unmapped header name, or else a missing value. */
  lemma {:induction false} RowDataPrefixFault(mapping: Resolved, header: Header, row: Row, n: nat)
    requires n <= |header|
    requires RowDataPrefix(mapping, header, row, n).Err?
    ensures exists i :: 0 <= i < n && Fits(mapping, header, row, i) && !Fits(mapping, header, row, i + 1) &&
              RowDataPrefix(mapping, header, row, n).error == FaultAt(mapping, header, i)
  {
    if RowDataPrefix(mapping, header, row, n - 1).Err? {
      RowDataPrefixFault(mapping, header, row, n - 1);
    } else {
      assert Fits(mapping, header, row, n - 1);
    }
  }

  /** The keys of a built dictionary are exactly the mapped columns of the first
      `n` header names, and each value is the record's value at a column whose
      header name maps to that key. */
  lemma {:induction false} RowDataPrefixContents(mapping: Resolved, header: Header, row: Row, n: nat)
    requires n <= |header|
    requires RowDataPrefix(mapping, header, row, n).Ok?
    ensures forall i :: 0 <= i < n ==> header[i] in mapping && mapping[header[i]] in RowDataPrefix(mapping, header, row, n).value
    ensures forall k :: k in RowDataPrefix(mapping, header, row, n).value ==>
              exists i :: 0 <= i < n && i < |row| && header[i] in mapping && mapping[header[i]] == k &&
                          RowDataPrefix(mapping, header, row, n).value[k] == row[i]
  {
    if n > 0 {
      RowDataPrefixContents(mapping, header, row, n - 1);
      var d := RowDataPrefix(mapping, header, row, n).value;
      var prev := RowDataPrefix(mapping, header, row, n - 1).value;
      assert d == prev[mapping[header[n - 1]] := row[n - 1]];
      forall k | k in d
        ensures exists i :: 0 <= i < n && i < |row| && header[i] in mapping && mapping[header[i]] == k && d[k] == row[i]
      {
        if k != mapping[header[n - 1]] {
          var i :| 0 <= i < n - 1 && i < |row| && header[i] in mapping && mapping[header[i]] == k && prev[k] == row[i];
        }
      }
    }
  }

  /** The data dictionary of a whole record: every header column visited. */
  function RowData(mapping: Resolved, header: Header, row: Row): (r: Result<Record>)
    ensures r.Ok? <==> Fits(mapping, header, row, |header|)
    ensures r.Err? ==> r.error.UndefinedKey? || r.error.UndefinedOffset?
  {
    RowDataPrefix(mapping, header, row, |header|)
  }

  /** The column loop of `import` (`for ($i = 0; $i < $columnCount; $i++)`). */
  method BuildRowData(mapping: Resolved, header: Header, row: Row) returns (r: Result<Record>)
    ensures r == RowData(mapping, header, row)
  {
    var data: Record := map[];
    for i := 0 to |header|
      invariant RowDataPrefix(mapping, header, row, i) == Ok(data)
    {
      if header[i] !in mapping {
        RowDataPrefixErrStays(mapping, header, row, i + 1, |header|);
        return Err(UndefinedKey(header[i]));
      }
      var field := mapping[header[i]];
      if i >= |row| {
        RowDataPrefixErrStays(mapping, header, row, i + 1, |header|);
        return Err(UndefinedOffset(i));
      }
      var value := row[i];
      data := data[field := value];
    }
    r := Ok(data);
  }

  /** The data dictionary exists exactly when every header name is mapped and
      the record has at least as many values as the header has columns. */
  lemma RowDataOkIff(mapping: Resolved, header: Header, row: Row)
    ensures RowData(mapping, header, row).Ok? <==>
            (forall i :: 0 <= i < |header| ==> header[i] in mapping) && |header| <= |row|
  {
    if RowData(mapping, header, row).Ok? && |header| > 0 {
      assert |header| - 1 < |row|;
    }
  }

  /** When several header columns map to the same database column, the value of
      the last of them is the one kept. */
  lemma {:induction false} RowDataLastWins(mapping: Resolved, header: Header, row: Row, n: nat, i: nat)
    requires i < n <= |header|
    requires RowDataPrefix(mapping, header, row, n).Ok?
    requires forall j :: i < j < n ==> mapping[header[j]] != mapping[header[i]]
    ensures mapping[header[i]] in RowDataPrefix(mapping, header, row, n).value
    ensures RowDataPrefix(mapping, header, row, n).value[mapping[header[i]]] == row[i]
  {
    if i < n - 1 {
      RowDataLastWins(mapping, header, row, n - 1, i);
    }
  }

  /** Values past the header's width never reach the data dictionary: the result
      depends only on the first `|header|` values of the record. */
  lemma {:induction false} RowDataIgnoresExtraValues(mapping: Resolved, header: Header, row: Row, extra: Row, n: nat)
    requires n <= |header| <= |row|
    ensures RowDataPrefix(mapping, header, row + extra, n) == RowDataPrefix(mapping, header, row, n)
  {
    if n > 0 {
      RowDataIgnoresExtraValues(mapping, header, row, extra, n - 1);
      assert (row + extra)[n - 1] == row[n - 1];
    }
  }
}
