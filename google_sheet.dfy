/** The data adapter over the first worksheet of the spreadsheet: unique
    column values, a row lookup by value, and the cached header row. The remote
    spreadsheet is an input value; `Failed` stands for a remote call that threw. */
module GoogleSheet {
  import opened Wrappers
  import opened Text

  /** A fetched row: header to raw cell text. A header with no entry is a
      cell the row does not have (`row.get` gives undefined). */
  type Row = map<string, string>

  /** The worksheet as loaded: its header row and its data rows in sheet order. */
  datatype Table = Table(headers: seq<string>, rows: seq<Row>)

  /** A plain object built key by key: its entries in insertion order. */
  type RowData = seq<(string, string)>

  /** The placeholder for an empty cell in a found row. */
  const Placeholder: string := "—"

  // ---------------------------------------------------------------------------
  // Ordered sets: a JavaScript Set, and the keys of an object, keep insertion order.

  predicate NoDuplicates<T(==)>(s: seq<T>) {
    forall i, j :: 0 <= i < j < |s| ==> s[i] != s[j]
  }

  /** Adding to an ordered set: a new element goes last, a present one changes nothing. */
  function Insert<T(==,!new)>(s: seq<T>, x: T): (r: seq<T>)
    ensures x in r
    ensures forall y :: y in r <==> y in s || y == x
    ensures NoDuplicates(s) ==> NoDuplicates(r)
  {
    if x in s then s else s + [x]
  }

  /** The distinct elements of `s` in the order of their first occurrence. */
  function Dedup<T(==,!new)>(s: seq<T>): (r: seq<T>)
    ensures NoDuplicates(r)
    ensures forall y :: y in r <==> y in s
  {
    if s == [] then [] else Insert(Dedup(s[..|s| - 1]), s[|s| - 1])
  }

  lemma {:induction false} DedupOfDistinct<T(!new)>(s: seq<T>)
    requires NoDuplicates(s)
    ensures Dedup(s) == s
  {
    if s != [] {
      var p := s[..|s| - 1];
      DedupOfDistinct(p);
      assert s[|s| - 1] !in p;
      assert p + [s[|s| - 1]] == s;
    }
  }

  // ---------------------------------------------------------------------------
  // getUniqueColumnValues

  /** The forEach body: the trimmed cell, when the row has one and it is not blank. */
  function TrimmedCell(row: Row, column: string): (r: Option<string>)
    ensures r.Some? ==> r.value != [] && IsTrimmed(r.value)
    ensures r.None? <==> column !in row || Trim(row[column]) == []
    ensures r.Some? ==> r.value == Trim(row[column])
  {
    if column in row && Trim(row[column]) != [] then
      TrimIsTrimmed(row[column]);
      Some(Trim(row[column]))
    else None
  }

  /** The values getUniqueColumnValues collects from `rows`, as a Set fed
      row by row does. */
  function UniqueColumnValues(rows: seq<Row>, column: string): seq<string>
  {
    if rows == [] then []
    else
      var prev := UniqueColumnValues(rows[..|rows| - 1], column);
      match TrimmedCell(rows[|rows| - 1], column)
      case Some(v) => Insert(prev, v)
      case None => prev
  }

  /** getUniqueColumnValues over rows already fetched. */
  method CollectUniqueValues(rows: seq<Row>, column: string) returns (values: seq<string>)
    ensures values == UniqueColumnValues(rows, column)
  {
    values := [];
    for i := 0 to |rows|
      invariant values == UniqueColumnValues(rows[..i], column)
    {
      assert rows[..i + 1][..i] == rows[..i];
      var row := rows[i];
      if column in row {
        var cell := Trim(row[column]);
        if cell != [] && cell !in values {
          values := values + [cell];
        }
      }
    }
    assert rows[..|rows|] == rows;
  }

  // ---------------------------------------------------------------------------
  // findRowByValue

  /** The rows.find predicate: the cell, trimmed, equals `value` exactly.
      Only the cell is trimmed. */
  predicate Matches(row: Row, column: string, value: string) {
    column in row && Trim(row[column]) == value
  }

  /** rows.find: the index of the first matching row, or None when none matches. */
  function FirstMatch(rows: seq<Row>, column: string, value: string): (r: Option<nat>)
    ensures r.Some? ==> r.value < |rows| && Matches(rows[r.value], column, value)
    ensures r.Some? ==> forall k :: 0 <= k < r.value ==> !Matches(rows[k], column, value)
    ensures r.None? <==> forall k :: 0 <= k < |rows| ==> !Matches(rows[k], column, value)
  {
    if rows == [] then None
    else if Matches(rows[0], column, value) then Some(0)
    else
      var tail := rows[1..];
      assert forall k :: 0 <= k < |tail| ==> tail[k] == rows[k + 1];
      match FirstMatch(tail, column, value)
      case Some(k) => Some(k + 1)
      case None => None
  }

  /** `foundRow.get(header) || '—'`: the raw, untrimmed cell, or the
      placeholder when the cell is missing or empty. */
  function CellOrPlaceholder(row: Row, header: string): (r: string)
    ensures r != []
    ensures header in row && row[header] != [] ==> r == row[header]
    ensures header !in row || row[header] == [] ==> r == Placeholder
  {
    if header in row && row[header] != [] then row[header] else Placeholder
  }

  function Keys(d: RowData): (ks: seq<string>)
    ensures |ks| == |d|
  {
    seq(|d|, i requires 0 <= i < |d| => d[i].0)
  }

  /** `rowData[key] = value`: an existing key keeps its place and takes the new
      value, a new key is added last. */
  function Assign(d: RowData, key: string, value: string): (r: RowData)
    ensures Keys(r) == Insert(Keys(d), key)
    ensures forall i :: 0 <= i < |r| && r[i].0 == key ==> r[i].1 == value
    ensures forall i :: 0 <= i < |d| && d[i].0 != key ==> r[i] == d[i]
  {
    if key in Keys(d) then
      var r := seq(|d|, i requires 0 <= i < |d| => if d[i].0 == key then (key, value) else d[i]);
      assert Keys(r) == Keys(d);
      r
    else
      var r := d + [(key, value)];
      assert Keys(r) == Keys(d) + [key];
      assert forall i :: 0 <= i < |d| ==> Keys(d)[i] == d[i].0;
      r
  }

  /** The object findRowByValue builds from a found row, header by header. */
  function Project(row: Row, headers: seq<string>): RowData
  {
    if headers == [] then []
    else
      var h := headers[|headers| - 1];
      Assign(Project(row, headers[..|headers| - 1]), h, CellOrPlaceholder(row, h))
  }

  /** The headers.forEach loop that fills rowData. */
  method ProjectRow(row: Row, headers: seq<string>) returns (rowData: RowData)
    ensures rowData == Project(row, headers)
  {
    rowData := [];
    for i := 0 to |headers|
      invariant rowData == Project(row, headers[..i])
    {
      assert headers[..i + 1][..i] == headers[..i];
      var header := headers[i];
      rowData := Assign(rowData, header, CellOrPlaceholder(row, header));
    }
    assert headers[..|headers|] == headers;
  }

  /** What findRowByValue answers for a loaded table. */
  function FoundRow(table: Table, column: string, value: string): Option<RowData>
  {
    match FirstMatch(table.rows, column, value)
    case Some(i) => Some(Project(table.rows[i], table.headers))
    case None => None
  }

  // ---------------------------------------------------------------------------
  // Properties of getUniqueColumnValues

  /** The values are distinct, trimmed and non-empty. */
  lemma {:induction false} UniqueValuesDistinctTrimmed(rows: seq<Row>, column: string)
    ensures NoDuplicates(UniqueColumnValues(rows, column))
    ensures forall v :: v in UniqueColumnValues(rows, column) ==> v != [] && Trim(v) == v
  {
    if rows != [] {
      UniqueValuesDistinctTrimmed(rows[..|rows| - 1], column);
      match TrimmedCell(rows[|rows| - 1], column)
      case Some(v) => TrimOfTrimmed(v);
      case None =>
    }
  }

  /** A value is collected exactly when it is non-empty and some row's cell
      trims to it. */
  lemma {:induction false} UniqueValuesMembers(rows: seq<Row>, column: string, v: string)
    ensures v in UniqueColumnValues(rows, column) <==>
            v != [] && exists k :: 0 <= k < |rows| && Matches(rows[k], column, v)
  {
    if rows != [] {
      var p := rows[..|rows| - 1];
      UniqueValuesMembers(p, column, v);
      if v != [] && Matches(rows[|rows| - 1], column, v) {
        assert TrimmedCell(rows[|rows| - 1], column) == Some(v);
      }
      if v != [] && exists k :: 0 <= k < |p| && Matches(p[k], column, v) {
        var k :| 0 <= k < |p| && Matches(p[k], column, v);
        assert rows[k] == p[k];
      }
      if exists k :: 0 <= k < |rows| && Matches(rows[k], column, v) {
        var k :| 0 <= k < |rows| && Matches(rows[k], column, v);
        if k < |p| { assert p[k] == rows[k]; }
      }
    }
  }

  /** A column that no row has yields no values. */
  lemma AbsentColumnHasNoValues(rows: seq<Row>, column: string)
    requires forall k :: 0 <= k < |rows| ==> column !in rows[k]
    ensures UniqueColumnValues(rows, column) == []
  {
    if UniqueColumnValues(rows, column) != [] {
      var v := UniqueColumnValues(rows, column)[0];
      UniqueValuesMembers(rows, column, v);
    }
  }

  /** Every collected value can be looked up: findRowByValue finds a row for it. */
  lemma UniqueValueIsFound(table: Table, column: string, v: string)
    requires v in UniqueColumnValues(table.rows, column)
    ensures FoundRow(table, column, v).Some?
  {
    UniqueValuesMembers(table.rows, column, v);
  }

  /** Appending a row keeps an earlier first match. */
  lemma FirstMatchAppend(rows: seq<Row>, row: Row, column: string, value: string)
    ensures FirstMatch(rows + [row], column, value) ==
            if FirstMatch(rows, column, value).Some? then FirstMatch(rows, column, value)
            else if Matches(row, column, value) then Some(|rows|)
            else None
  {
    var all := rows + [row];
    assert forall k :: 0 <= k < |rows| ==> all[k] == rows[k];
    assert all[|rows|] == row;
  }

  /** The values come in the order in which they first occur in the rows. */
  lemma {:induction false} UniqueValuesFirstSeenOrder(rows: seq<Row>, column: string, i: nat, j: nat)
    requires i < j < |UniqueColumnValues(rows, column)|
    ensures FirstMatch(rows, column, UniqueColumnValues(rows, column)[i]).Some?
    ensures FirstMatch(rows, column, UniqueColumnValues(rows, column)[j]).Some?
    ensures FirstMatch(rows, column, UniqueColumnValues(rows, column)[i]).value
          < FirstMatch(rows, column, UniqueColumnValues(rows, column)[j]).value
  {
    var u := UniqueColumnValues(rows, column);
    var p := rows[..|rows| - 1];
    var last := rows[|rows| - 1];
    assert rows == p + [last];
    var u' := UniqueColumnValues(p, column);
    UniqueValuesMembers(p, column, u[i]);
    FirstMatchAppend(p, last, column, u[i]);
    FirstMatchAppend(p, last, column, u[j]);
    if j < |u'| {
      assert u[i] == u'[i] && u[j] == u'[j];
      UniqueValuesFirstSeenOrder(p, column, i, j);
    } else {
      // u[j] is the value of the last row, which no earlier row holds
      assert u == u' + [u[j]] && u[j] !in u';
      assert TrimmedCell(last, column) == Some(u[j]);
      assert u[i] == u'[i];
      UniqueValuesMembers(p, column, u[j]);
    }
  }

  // ---------------------------------------------------------------------------
  // Properties of findRowByValue

  /** The found row is the first row in sheet order whose trimmed cell equals
      the value, and None means no row matches. */
  lemma FoundRowIsFirstMatch(table: Table, column: string, value: string)
    ensures FoundRow(table, column, value).None? <==>
            forall k :: 0 <= k < |table.rows| ==> !Matches(table.rows[k], column, value)
    ensures FoundRow(table, column, value).Some? ==>
            exists k :: 0 <= k < |table.rows| && Matches(table.rows[k], column, value)
              && (forall m :: 0 <= m < k ==> !Matches(table.rows[m], column, value))
              && FoundRow(table, column, value).value == Project(table.rows[k], table.headers)
  {
  }

  /** The keys of the built object are the headers, each once, in header
      order, and each key holds its raw cell or the placeholder. */
  lemma {:induction false} ProjectShape(row: Row, headers: seq<string>)
    ensures Keys(Project(row, headers)) == Dedup(headers)
    ensures forall i :: 0 <= i < |Project(row, headers)| ==>
              Project(row, headers)[i].1 == CellOrPlaceholder(row, Project(row, headers)[i].0)
  {
    if headers != [] {
      var h := headers[|headers| - 1];
      ProjectShape(row, headers[..|headers| - 1]);
      var d := Project(row, headers[..|headers| - 1]);
      var r := Project(row, headers);
      forall i | 0 <= i < |r| ensures r[i].1 == CellOrPlaceholder(row, r[i].0) {
        if r[i].0 != h {
          assert Keys(r)[i] == r[i].0;
          assert i < |d|;
          assert Keys(d)[i] == d[i].0;
        }
      }
    }
  }

  /** With distinct headers the built object has one entry per header, in
      header order. */
  lemma ProjectDistinct(row: Row, headers: seq<string>)
    requires NoDuplicates(headers)
    ensures |Project(row, headers)| == |headers|
    ensures forall i :: 0 <= i < |headers| ==>
              Project(row, headers)[i] == (headers[i], CellOrPlaceholder(row, headers[i]))
  {
    ProjectShape(row, headers);
    DedupOfDistinct(headers);
    var d := Project(row, headers);
    forall i | 0 <= i < |headers| ensures d[i] == (headers[i], CellOrPlaceholder(row, headers[i])) {
      assert Keys(d)[i] == d[i].0;
    }
  }

  // ---------------------------------------------------------------------------
  // The adapter, with its header cache

  /** What a load yields as headers. */
  function LoadedHeaders(remote: Result<Table>): Result<seq<string>> {
    match remote
    case Ok(t) => Ok(t.headers)
    case Failed => Failed
  }

  /** What getHeaders yields for a cache and a remote sheet: the cache when
      it is non-empty, the freshly loaded header row otherwise. */
  function CachedHeaders(cache: seq<string>, remote: Result<Table>): Result<seq<string>> {
    if cache != [] then Ok(cache) else LoadedHeaders(remote)
  }

  /** What getUniqueColumnValues yields. */
  function LoadedUniqueValues(remote: Result<Table>, column: string): Result<seq<string>> {
    match remote
    case Ok(t) => Ok(UniqueColumnValues(t.rows, column))
    case Failed => Failed
  }

  /** What findRowByValue yields. */
  function LoadedRow(remote: Result<Table>, column: string, value: string): Result<Option<RowData>> {
    match remote
    case Ok(t) => Ok(FoundRow(t, column, value))
    case Failed => Failed
  }

  /** The cache the adapter holds after loading `remote`. */
  function CacheAfterLoad(cache: seq<string>, remote: Result<Table>): seq<string> {
    match remote
    case Ok(t) => t.headers
    case Failed => cache
  }

  class SheetService {
    /** The most recently loaded header row; empty until a load succeeds. */
    var headersCache: seq<string>

    constructor ()
      ensures headersCache == []
    {
      headersCache := [];
    }

    /** loadSheetAndHeaders: on success the cache becomes the sheet's header row;
        when the remote call throws, the cache is left as it was. */
    method LoadSheetAndHeaders(remote: Result<Table>) returns (sheet: Result<Table>)
      modifies this
      ensures sheet == remote
      ensures headersCache == CacheAfterLoad(old(headersCache), remote)
      ensures sheet.Ok? ==> headersCache == sheet.value.headers
    {
      sheet := remote;
      if remote.Ok? {
        headersCache := remote.value.headers;
      }
    }

    /** getHeaders: a non-empty cache is returned as it is, without loading;
        an empty cache is reloaded first. */
    method GetHeaders(remote: Result<Table>) returns (headers: Result<seq<string>>)
      modifies this
      ensures headers == CachedHeaders(old(headersCache), remote)
      ensures old(headersCache) != [] ==> headersCache == old(headersCache)
      ensures old(headersCache) == [] ==> headersCache == CacheAfterLoad(old(headersCache), remote)
    {
      if headersCache == [] {
        var sheet := LoadSheetAndHeaders(remote);
        if sheet.Failed? {
          return Failed;
        }
      }
      headers := Ok(headersCache);
    }

    /** getUniqueColumnValues: reloads the sheet, then collects the column. */
    method GetUniqueColumnValues(remote: Result<Table>, column: string) returns (values: Result<seq<string>>)
      modifies this
      ensures values == LoadedUniqueValues(remote, column)
      ensures headersCache == CacheAfterLoad(old(headersCache), remote)
    {
      var sheet := LoadSheetAndHeaders(remote);
      if sheet.Failed? {
        return Failed;
      }
      var collected := CollectUniqueValues(sheet.value.rows, column);
      values := Ok(collected);
    }

    /** findRowByValue: reloads the sheet, finds the first matching row and
        projects it onto the freshly loaded headers. */
    method FindRowByValue(remote: Result<Table>, column: string, value: string)
      returns (found: Result<Option<RowData>>)
      modifies this
      ensures found == LoadedRow(remote, column, value)
      ensures headersCache == CacheAfterLoad(old(headersCache), remote)
    {
      var sheet := LoadSheetAndHeaders(remote);
      if sheet.Failed? {
        return Failed;
      }
      var rows := sheet.value.rows;
      var index := FirstMatch(rows, column, value);
      if index.None? {
        return Ok(None);
      }
      var rowData := ProjectRow(rows[index.value], headersCache);
      found := Ok(Some(rowData));
    }
  }

  /** Two header requests against one adapter: once a load has produced a
      non-empty header row, the second request is served from the cache,
      whatever the remote side would answer. */
  method HeadersServedFromCache(first: Table, second: Result<Table>)
    returns (h1: Result<seq<string>>, h2: Result<seq<string>>)
    ensures h1 == Ok(first.headers)
    ensures first.headers != [] ==> h2 == Ok(first.headers)
    ensures first.headers == [] ==> h2 == LoadedHeaders(second)
  {
    var service := new SheetService();
    h1 := service.GetHeaders(Ok(first));
    h2 := service.GetHeaders(second);
  }
}
