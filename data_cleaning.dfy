/** The cleaning steps of `load_data` (data_utils.py) after the CSV file has been read:
    header names are cleaned, the table is aligned to the expected columns, values are
    converted and missing ones filled with defaults, rows without coordinates are dropped
    and the IDs are repaired. Reading the file and parsing numbers and dates are not part of
    the model: a parsed file arrives as header names and rows of typed cells. */
module DataCleaning {
  import opened Util

  /** A parsed cell. `Empty` is NaN, NaT or None; `Infinite` is a float infinity of either sign. */
  datatype Cell = Empty | Num(value: real) | Infinite(negative: bool) | Text(text: string) | Date(day: int)

  /** A row of the table, by column name. */
  type Row = map<string, Cell>

  /** What reading the file produced. */
  datatype Source = FileMissing | EmptyFile | Parsed(header: seq<string>, rows: seq<seq<Cell>>)

  const ExpectedColumns: seq<string> := [
    "ID", "Name", "Beschreibung", "Art", "Ort_Name", "Adresse", "Latitude", "Longitude",
    "Preis_Ca", "Preis_Info", "Wetter_Praeferenz", "Datum_Von", "Datum_Bis",
    "Personen_Min", "Personen_Max", "Indoor_Outdoor", "Zielgruppe",
    "Dauer_Info", "Website", "Kontakt_Telefon", "Booking_Info", "Image_URL"]

  const NumericColumns: seq<string> := ["Preis_Ca", "Latitude", "Longitude", "Personen_Min", "Personen_Max", "ID"]
  const DateColumns: seq<string> := ["Datum_Von", "Datum_Bis"]

  /** The columns of every cleaned row. */
  function ExpectedSet(): set<string>
  {
    set c | c in ExpectedColumns
  }

  function Get(r: Row, c: string): Cell
  {
    if c in r then r[c] else Empty
  }

  // ---------------------------------------------------------------------------
  // Header and alignment
  // ---------------------------------------------------------------------------

  /** A header name stripped of surrounding whitespace, then of every byte-order mark. */
  function CleanName(name: string): (r: string)
    ensures '\U{FEFF}' !in r
  {
    Filter(Strip(name), (c: char) => c != '\U{FEFF}')
  }

  function CleanHeader(header: seq<string>): (r: seq<string>)
    ensures |r| == |header|
    ensures forall i :: 0 <= i < |header| ==> r[i] == CleanName(header[i])
  {
    Map(header, CleanName)
  }

  /** The position of the first column called `name`. */
  function IndexOf(names: seq<string>, name: string): (r: Option<nat>)
    ensures r.None? <==> name !in names
    ensures r.Some? ==> (r.value < |names| && names[r.value] == name
                         && forall k :: 0 <= k < r.value ==> names[k] != name)
  {
    if names == [] then None
    else if names[0] == name then Some(0)
    else
      var rest := IndexOf(names[1..], name);
      if rest.None? then None else Some(rest.value + 1)
  }

  /** The cell of column `name` (the first such column), or an empty cell when the file has
      no such column or the row is short. */
  function ColumnOf(names: seq<string>, cells: seq<Cell>, name: string): Cell
  {
    var i := IndexOf(names, name);
    if i.Some? && i.value < |cells| then cells[i.value] else Empty
  }

  /** `df[EXPECTED_COLUMNS]` after the missing columns were added empty. */
  function AlignRow(names: seq<string>, cells: seq<Cell>): (r: Row)
    ensures r.Keys == ExpectedSet()
    ensures forall c :: c in r && c !in names ==> r[c] == Empty
    ensures forall k ::
              (0 <= k < |names| && k < |cells| && names[k] in r
               && (forall m :: 0 <= m < k ==> names[m] != names[k])) ==> r[names[k]] == cells[k]
  {
    var r := map c | c in ExpectedColumns :: ColumnOf(names, cells, c);
    forall k | 0 <= k < |names| && k < |cells| && (forall m :: 0 <= m < k ==> names[m] != names[k])
      ensures ColumnOf(names, cells, names[k]) == cells[k]
    {
      FirstColumn(names, cells, k);
    }
    r
  }

  lemma FirstColumn(names: seq<string>, cells: seq<Cell>, k: nat)
    requires k < |names| && k < |cells|
    requires forall m :: 0 <= m < k ==> names[m] != names[k]
    ensures ColumnOf(names, cells, names[k]) == cells[k]
  {
    var i := IndexOf(names, names[k]);
    assert i.Some?;
  }

  /** A numeric or date column appears twice after cleaning: pandas then selects two columns
      under one name and the conversion raises. */
  predicate TypedColumnRepeated(names: seq<string>)
  {
    exists c :: c in NumericColumns + DateColumns && Count(names, c) > 1
  }

  // ---------------------------------------------------------------------------
  // Conversion and defaults
  // ---------------------------------------------------------------------------

  /** A cell as `to_numeric` leaves it: a number, an infinity or missing. */
  predicate NumericCell(c: Cell)
  {
    c.Empty? || c.Num? || c.Infinite?
  }

  /** `pd.to_numeric(errors='coerce')`: anything that is not a number becomes NaN. */
  function ToNumeric(c: Cell): (r: Cell)
    ensures NumericCell(r)
    ensures NumericCell(c) ==> r == c
  {
    match c
    case Num(_) => c
    case Infinite(_) => c
    case _ => Empty
  }

  /** `pd.to_datetime(format='%d.%m.%Y', errors='coerce')`: anything that is not a date
      becomes NaT. */
  function ToDate(c: Cell): (r: Cell)
    ensures r.Empty? || r.Date?
  {
    if c.Date? then c else Empty
  }

  function Convert(column: string, c: Cell): Cell
  {
    if column in DateColumns then ToDate(c)
    else if column in NumericColumns then ToNumeric(c)
    else c
  }

  /** The fill value of a column; `Empty` where no default is filled. */
  function Default(column: string): Cell
  {
    if column == "Preis_Ca" then Num(0.0)
    else if column == "Personen_Min" then Num(1.0)
    else if column == "Personen_Max" then Infinite(false)
    else if column == "Wetter_Praeferenz" then Text("Egal")
    else if column == "Indoor_Outdoor" then Text("Mixed")
    else Empty
  }

  function Fill(column: string, c: Cell): Cell
  {
    if c.Empty? then Default(column) else c
  }

  /** One row aligned, converted and filled. */
  function PrepareRow(names: seq<string>, cells: seq<Cell>): (r: Row)
    ensures r.Keys == ExpectedSet()
  {
    var aligned := AlignRow(names, cells);
    map c | c in aligned :: Fill(c, Convert(c, aligned[c]))
  }

  /** `dropna(subset=[Latitude, Longitude])` keeps a row. */
  predicate HasCoordinates(r: Row)
  {
    Get(r, "Latitude") != Empty && Get(r, "Longitude") != Empty
  }

  /** The columns `load_data` fills with a default value. */
  const FilledColumns: seq<string> := ["Preis_Ca", "Personen_Min", "Personen_Max", "Wetter_Praeferenz", "Indoor_Outdoor"]

  // ---------------------------------------------------------------------------
  // ID repair
  // ---------------------------------------------------------------------------

  /** Python's `int(x)` on a float: truncation toward zero. */
  function Trunc(x: real): (r: int)
    ensures x >= 0.0 ==> r as real <= x < r as real + 1.0
    ensures x < 0.0 ==> r as real - 1.0 < x <= r as real
  {
    if x >= 0.0 then x.Floor else -((-x).Floor)
  }

  /** The ID of a row after the second `to_numeric`. */
  function IdCell(r: Row): (c: Cell)
    ensures NumericCell(c)
  {
    ToNumeric(Get(r, "ID"))
  }

  /** `isna().any()` on the IDs. */
  predicate IdMissing(rows: seq<Row>)
  {
    exists i :: 0 <= i < |rows| && IdCell(rows[i]).Empty?
  }

  /** `dropna().duplicated().any()` on the IDs while they are still floats. */
  predicate IdDuplicatedAsWritten(rows: seq<Row>)
  {
    exists i, j :: 0 <= i < j < |rows| && !IdCell(rows[i]).Empty? && IdCell(rows[i]) == IdCell(rows[j])
  }

  /** Two finite IDs that are equal once cast to integers. */
  predicate SameAfterCast(a: Cell, b: Cell)
  {
    a.Num? && b.Num? && Trunc(a.value) == Trunc(b.value)
  }

  /** The duplicate check on the IDs as they will be stored. */
  predicate IdDuplicated(rows: seq<Row>)
  {
    exists i, j :: 0 <= i < j < |rows| && SameAfterCast(IdCell(rows[i]), IdCell(rows[j]))
  }

  /** `b` is `a` with a (possibly new) ID and every other cell as it was. */
  predicate SameExceptId(a: Row, b: Row)
  {
    b.Keys == a.Keys + {"ID"} && forall c :: c in a && c != "ID" ==> b[c] == a[c]
  }

  /** `reset_index(drop=True)` followed by `df[ID] = df.index`: every row keeps its cells
      and gets its position as ID, so no two rows share one. */
  function Renumber(rows: seq<Row>): (r: seq<Row>)
    ensures |r| == |rows|
    ensures forall i :: 0 <= i < |rows| ==> SameExceptId(rows[i], r[i]) && IntegralId(r[i]["ID"])
    ensures DistinctIds(r)
  {
    seq(|rows|, i requires 0 <= i < |rows| => rows[i]["ID" := Num(i as real)])
  }

  /** The ID a row gets from `astype(int)`; an infinite ID has none. */
  function CastId(r: Row): Option<Cell>
  {
    var c := IdCell(r);
    if c.Num? then Some(Num(Trunc(c.value) as real)) else None
  }

  /** `c` is the whole number that `int(x)` gives: within 1 of `x`, toward zero. */
  predicate CastOf(x: real, c: Cell)
  {
    && IntegralId(c)
    && (x >= 0.0 ==> 0.0 <= c.value <= x < c.value + 1.0)
    && (x < 0.0 ==> c.value - 1.0 < x <= c.value <= 0.0)
  }

  /** `astype(int)` on the ID column: it raises (None) exactly when an ID is infinite, and
      otherwise every row keeps its cells and gets its ID truncated toward zero. */
  function CastIds(rows: seq<Row>): (r: Option<seq<Row>>)
    requires !IdMissing(rows)
    ensures r.None? <==> exists i :: 0 <= i < |rows| && IdCell(rows[i]).Infinite?
    ensures r.Some? ==> (|r.value| == |rows|
                         && forall i :: 0 <= i < |rows| ==>
                              IdCell(rows[i]).Num? && SameExceptId(rows[i], r.value[i])
                              && CastOf(IdCell(rows[i]).value, r.value[i]["ID"]))
  {
    if exists i :: 0 <= i < |rows| && IdCell(rows[i]).Infinite? then None
    else Some(seq(|rows|, i requires 0 <= i < |rows| => rows[i]["ID" := Num(Trunc(IdCell(rows[i]).value) as real)]))
  }

  /** The ID repair as written: the duplicate check sees the IDs before they are cast. */
  function RepairIdsAsWritten(rows: seq<Row>): Option<seq<Row>>
  {
    if IdMissing(rows) || IdDuplicatedAsWritten(rows) then Some(Renumber(rows)) else CastIds(rows)
  }

  /** The ID repair with the duplicate check on the IDs the cast will store. */
  function RepairIds(rows: seq<Row>): Option<seq<Row>>
  {
    if IdMissing(rows) || IdDuplicated(rows) then Some(Renumber(rows)) else CastIds(rows)
  }

  // ---------------------------------------------------------------------------
  // The whole cleaning
  // ---------------------------------------------------------------------------

  /** A table: its columns in order and its rows (row i has index i). */
  datatype Table = Table(columns: seq<string>, rows: seq<Row>)

  /** `pd.DataFrame(columns=EXPECTED_COLUMNS)`. */
  function EmptyTable(): Table
  {
    Table(ExpectedColumns, [])
  }

  /** Every parsed row aligned, converted and filled. */
  function Prepared(names: seq<string>, rows: seq<seq<Cell>>): (r: seq<Row>)
    ensures |r| == |rows|
  {
    seq(|rows|, k requires 0 <= k < |rows| => PrepareRow(names, rows[k]))
  }

  /** The prepared rows that have both coordinates, in file order. */
  function Cleaned(names: seq<string>, rows: seq<seq<Cell>>): seq<Row>
  {
    Filter(Prepared(names, rows), HasCoordinates)
  }

  /** The cleaning of `load_data` with a given ID repair. */
  function LoadWith(src: Source, repair: seq<Row> -> Option<seq<Row>>): (t: Table)
    ensures t.columns == ExpectedColumns
    ensures !src.Parsed? ==> t.rows == []
  {
    match src
    case FileMissing => EmptyTable()
    case EmptyFile => EmptyTable()
    case Parsed(header, rows) =>
      var names := CleanHeader(header);
      if TypedColumnRepeated(names) then EmptyTable()
      else
        var repaired := repair(Cleaned(names, rows));
        if repaired.None? then EmptyTable() else Table(ExpectedColumns, repaired.value)
  }

  /** What `load_data` returns for what reading the file produced. */
  function LoadDataSpec(src: Source): (t: Table)
    ensures t.columns == ExpectedColumns
    ensures !src.Parsed? ==> t.rows == []
  {
    LoadWith(src, RepairIdsAsWritten)
  }

  /** `load_data` with the duplicate check made on the IDs the cast will store. */
  function CorrectedLoad(src: Source): (t: Table)
    ensures t.columns == ExpectedColumns
    ensures !src.Parsed? ==> t.rows == []
  {
    LoadWith(src, RepairIds)
  }

  /** Steps 2 to 4 of `load_data` on every row: align, convert, fill. */
  method PrepareRows(names: seq<string>, rows: seq<seq<Cell>>) returns (prepared: seq<Row>)
    ensures prepared == Prepared(names, rows)
  {
    prepared := [];
    var i := 0;
    while i < |rows|
      invariant 0 <= i <= |rows|
      invariant |prepared| == i
      invariant forall k :: 0 <= k < i ==> prepared[k] == PrepareRow(names, rows[k])
    {
      prepared := prepared + [PrepareRow(names, rows[i])];
      i := i + 1;
    }
  }

  /** `dropna(subset=[Latitude, Longitude], inplace=True)`. */
  method DropWithoutCoordinates(rows: seq<Row>) returns (kept: seq<Row>)
    ensures kept == Filter(rows, HasCoordinates)
  {
    kept := [];
    var i := 0;
    while i < |rows|
      invariant 0 <= i <= |rows|
      invariant kept == Filter(rows[..i], HasCoordinates)
    {
      FilterAppend(rows[..i], [rows[i]], HasCoordinates);
      assert rows[..i + 1] == rows[..i] + [rows[i]];
      if HasCoordinates(rows[i]) {
        kept := kept + [rows[i]];
      }
      i := i + 1;
    }
    assert rows[..i] == rows;
  }

  /** The ID check and repair of `load_data`. */
  method RepairIdColumn(rows: seq<Row>) returns (out: Option<seq<Row>>)
    ensures out == RepairIdsAsWritten(rows)
  {
    var ids: seq<Row> := [];
    var i := 0;
    if IdMissing(rows) || IdDuplicatedAsWritten(rows) {
      while i < |rows|
        invariant 0 <= i <= |rows|
        invariant ids == Renumber(rows)[..i]
      {
        ids := ids + [rows[i]["ID" := Num(i as real)]];
        i := i + 1;
      }
      assert Renumber(rows)[..i] == Renumber(rows);
      return Some(ids);
    }
    while i < |rows|
      invariant 0 <= i <= |rows|
      invariant |ids| == i
      invariant forall k :: 0 <= k < i ==> IdCell(rows[k]).Num?
      invariant forall k :: 0 <= k < i ==> CastId(rows[k]).Some? && ids[k] == rows[k]["ID" := CastId(rows[k]).value]
    {
      var id := IdCell(rows[i]);
      if id.Infinite? {
        return None;
      }
      ids := ids + [rows[i]["ID" := Num(Trunc(id.value) as real)]];
      i := i + 1;
    }
    assert forall k :: 0 <= k < |rows| ==> !IdCell(rows[k]).Infinite?;
    var cast := CastIds(rows);
    assert cast.Some? && |cast.value| == |ids|;
    assert forall k :: 0 <= k < |ids| ==> ids[k] == cast.value[k];
    assert ids == cast.value;
    assert RepairIdsAsWritten(rows) == cast;
    out := Some(ids);
  }

  // ---------------------------------------------------------------------------
  // What the cleaned table guarantees
  // ---------------------------------------------------------------------------

  /** The filled and coordinate columns are expected columns. */
  lemma NamedColumnsExpected()
    ensures forall c :: c in FilledColumns ==> c in ExpectedSet()
    ensures "Latitude" in ExpectedSet() && "Longitude" in ExpectedSet() && "ID" in ExpectedSet()
  {
    assert FilledColumns == [ExpectedColumns[8], ExpectedColumns[13], ExpectedColumns[14], ExpectedColumns[10], ExpectedColumns[15]];
    assert "Latitude" == ExpectedColumns[6] && "Longitude" == ExpectedColumns[7] && "ID" == ExpectedColumns[0];
  }

  /** A filled column never stays empty. */
  lemma FillGivesValue(c: string, x: Cell)
    requires c in FilledColumns
    ensures Fill(c, x) != Empty
  {
  }

  /** A coordinate is converted to a number and has no default. */
  lemma CoordinateIsNumeric(c: string, x: Cell)
    requires c == "Latitude" || c == "Longitude"
    ensures NumericCell(Fill(c, Convert(c, x)))
  {
    assert c !in DateColumns && c in NumericColumns;
  }

  /** A prepared row has the expected columns, no gap in a filled column, and coordinates
      that are numbers or missing. */
  lemma PrepareRowShape(names: seq<string>, cells: seq<Cell>)
    ensures var r := PrepareRow(names, cells);
      && r.Keys == ExpectedSet()
      && (forall c :: c in FilledColumns ==> Get(r, c) != Empty)
      && NumericCell(Get(r, "Latitude")) && NumericCell(Get(r, "Longitude"))
  {
    NamedColumnsExpected();
    var aligned := AlignRow(names, cells);
    var r := PrepareRow(names, cells);
    forall c | c in FilledColumns ensures Get(r, c) != Empty {
      FillGivesValue(c, Convert(c, aligned[c]));
    }
    CoordinateIsNumeric("Latitude", aligned["Latitude"]);
    assert r["Latitude"] == Fill("Latitude", Convert("Latitude", aligned["Latitude"]));
    CoordinateIsNumeric("Longitude", aligned["Longitude"]);
    assert r["Longitude"] == Fill("Longitude", Convert("Longitude", aligned["Longitude"]));
  }

  /** The shape of a cleaned row. */
  predicate CleanRow(r: Row)
  {
    && r.Keys == ExpectedSet()
    && HasCoordinates(r)
    && NumericCell(Get(r, "Latitude")) && NumericCell(Get(r, "Longitude"))
    && forall c :: c in FilledColumns ==> Get(r, c) != Empty
  }

  lemma CleanedRowsAreClean(names: seq<string>, rows: seq<seq<Cell>>)
    ensures forall r :: r in Cleaned(names, rows) ==> CleanRow(r)
  {
    forall r | r in Cleaned(names, rows) ensures CleanRow(r) {
      var prepared := Prepared(names, rows);
      assert r in prepared;
      var k :| 0 <= k < |prepared| && prepared[k] == r;
      PrepareRowShape(names, rows[k]);
    }
  }

  /** Changing the ID of a clean row keeps it clean. */
  lemma NewIdKeepsClean(r: Row, id: Cell)
    requires CleanRow(r)
    ensures CleanRow(r["ID" := id])
  {
    assert "ID" == ExpectedColumns[0];
    assert "ID" !in FilledColumns;
  }

  /** Either ID repair keeps clean rows clean. */
  lemma RepairKeepsClean(rows: seq<Row>)
    requires forall r :: r in rows ==> CleanRow(r)
    ensures RepairIdsAsWritten(rows).Some? ==> forall r :: r in RepairIdsAsWritten(rows).value ==> CleanRow(r)
    ensures RepairIds(rows).Some? ==> forall r :: r in RepairIds(rows).value ==> CleanRow(r)
  {
    forall i | 0 <= i < |rows| ensures CleanRow(rows[i]["ID" := Num(i as real)]) {
      assert rows[i] in rows;
      NewIdKeepsClean(rows[i], Num(i as real));
    }
    if !IdMissing(rows) {
      var cast := CastIds(rows);
      if cast.Some? {
        forall i | 0 <= i < |rows| ensures CleanRow(cast.value[i]) {
          assert rows[i] in rows;
          NewIdKeepsClean(rows[i], CastId(rows[i]).value);
        }
      }
    }
  }

  /** Every row `load_data` returns has exactly the expected columns, both coordinates,
      and a value in every column that has a default; so has every row of the corrected
      load. */
  lemma LoadDataRowsAreClean(src: Source)
    ensures forall r :: r in LoadDataSpec(src).rows ==> CleanRow(r)
    ensures forall r :: r in CorrectedLoad(src).rows ==> CleanRow(r)
  {
    if src.Parsed? {
      var names := CleanHeader(src.header);
      CleanedRowsAreClean(names, src.rows);
      RepairKeepsClean(Cleaned(names, src.rows));
    }
  }

  /** An ID stored as a whole number. */
  predicate IntegralId(c: Cell)
  {
    c.Num? && c.value.Floor as real == c.value
  }

  /** No two rows share an ID. */
  predicate DistinctIds(t: seq<Row>)
  {
    forall i, j :: 0 <= i < j < |t| ==> Get(t[i], "ID") != Get(t[j], "ID")
  }

  /** The repair as written stores whole-number IDs, and they are distinct exactly unless
      two IDs that differ as floats truncate to the same number. */
  lemma RepairIdsAsWrittenIds(rows: seq<Row>)
    requires RepairIdsAsWritten(rows).Some?
    ensures var t := RepairIdsAsWritten(rows).value;
      && (forall i :: 0 <= i < |t| ==> "ID" in t[i] && IntegralId(t[i]["ID"]))
      && (DistinctIds(t) <==> IdMissing(rows) || IdDuplicatedAsWritten(rows) || !IdDuplicated(rows))
  {
    var t := RepairIdsAsWritten(rows).value;
    if !IdMissing(rows) && !IdDuplicatedAsWritten(rows) {
      CastIdsDistinct(rows);
    }
  }

  /** After the cast the IDs are distinct exactly when no two of them truncate alike. */
  lemma CastIdsDistinct(rows: seq<Row>)
    requires !IdMissing(rows) && CastIds(rows).Some?
    ensures DistinctIds(CastIds(rows).value) <==> !IdDuplicated(rows)
  {
    var t := CastIds(rows).value;
    if IdDuplicated(rows) {
      var i, j :| 0 <= i < j < |rows| && SameAfterCast(IdCell(rows[i]), IdCell(rows[j]));
      assert IdCell(rows[i]).Num? && IdCell(rows[j]).Num?;
      assert t[i]["ID"] == t[j]["ID"];
    } else {
      forall i, j | 0 <= i < j < |t| ensures t[i]["ID"] != t[j]["ID"] {
        assert !SameAfterCast(IdCell(rows[i]), IdCell(rows[j]));
      }
    }
  }

  /** After the corrected repair the IDs are whole numbers and no two rows share one. */
  lemma RepairIdsUnique(rows: seq<Row>)
    requires RepairIds(rows).Some?
    ensures var t := RepairIds(rows).value;
      && (forall i :: 0 <= i < |t| ==> "ID" in t[i] && IntegralId(t[i]["ID"]))
      && DistinctIds(t)
  {
    if !IdMissing(rows) && !IdDuplicated(rows) {
      CastIdsDistinct(rows);
    }
  }

  /** The IDs `load_data` stores are whole numbers. Without an infinite ID they are
      distinct exactly unless, with no ID missing and no two equal as floats, two IDs
      truncate to the same number. */
  lemma LoadDataIdsUnique(src: Source)
    ensures var t := LoadDataSpec(src).rows;
      forall i :: 0 <= i < |t| ==> "ID" in t[i] && IntegralId(t[i]["ID"])
    ensures src.Parsed? && !TypedColumnRepeated(CleanHeader(src.header)) ==>
      var cleaned := Cleaned(CleanHeader(src.header), src.rows);
      (forall i :: 0 <= i < |cleaned| ==> !IdCell(cleaned[i]).Infinite?) ==>
      (DistinctIds(LoadDataSpec(src).rows)
       <==> IdMissing(cleaned) || IdDuplicatedAsWritten(cleaned) || !IdDuplicated(cleaned))
  {
    if src.Parsed? {
      var names := CleanHeader(src.header);
      var cleaned := Cleaned(names, src.rows);
      if !TypedColumnRepeated(names) && RepairIdsAsWritten(cleaned).Some? {
        RepairIdsAsWrittenIds(cleaned);
      }
    }
  }

  /** The table of the corrected load has unique whole-number IDs. */
  lemma CorrectedLoadIdsUnique(src: Source)
    ensures var t := CorrectedLoad(src).rows;
      && (forall i :: 0 <= i < |t| ==> "ID" in t[i] && IntegralId(t[i]["ID"]))
      && DistinctIds(t)
  {
    if src.Parsed? {
      var names := CleanHeader(src.header);
      if !TypedColumnRepeated(names) && RepairIds(Cleaned(names, src.rows)).Some? {
        RepairIdsUnique(Cleaned(names, src.rows));
      }
    }
  }

  /** `load_data` keeps exactly the rows that have both coordinates, in file order, and
      changes nothing in them but the ID; it never adds a row. When an ID was missing or
      two IDs were equal as floats, the IDs are the row positions 0, 1, 2, ... */
  lemma LoadDataKeepsCleanedRows(src: Source)
    requires src.Parsed? && !TypedColumnRepeated(CleanHeader(src.header))
    ensures var cleaned := Cleaned(CleanHeader(src.header), src.rows);
      var t := LoadDataSpec(src).rows;
      && |t| <= |src.rows|
      && (t == [] || |t| == |cleaned|)
      && (|t| == |cleaned| ==> forall i :: 0 <= i < |t| ==> SameExceptId(cleaned[i], t[i]))
      && (IdMissing(cleaned) || IdDuplicatedAsWritten(cleaned) ==> forall i :: 0 <= i < |t| ==> t[i]["ID"] == Num(i as real))
  {
    var cleaned := Cleaned(CleanHeader(src.header), src.rows);
    assert |cleaned| <= |Prepared(CleanHeader(src.header), src.rows)|;
    var repaired := RepairIdsAsWritten(cleaned);
    assert LoadDataSpec(src).rows == if repaired.None? then [] else repaired.value;
  }

  /** An infinite ID among IDs that are present and distinct as floats makes the cast raise,
      and the result is the empty table. */
  lemma InfiniteIdEmptiesTable(src: Source)
    requires src.Parsed? && !TypedColumnRepeated(CleanHeader(src.header))
    requires var cleaned := Cleaned(CleanHeader(src.header), src.rows);
      !IdMissing(cleaned) && !IdDuplicatedAsWritten(cleaned)
      && exists i :: 0 <= i < |cleaned| && IdCell(cleaned[i]).Infinite?
    ensures LoadDataSpec(src) == EmptyTable()
  {
  }

  // ---------------------------------------------------------------------------
  // The duplicate check before the cast
  // ---------------------------------------------------------------------------

  /** IDs 3.2 and 3.7 differ as floats, so the check as written keeps them, and the cast
      then stores ID 3 twice. */
  lemma TruncatedIdsCollideAsWritten()
    ensures var a := map["ID" := Num(3.2)];
      var b := map["ID" := Num(3.7)];
      RepairIdsAsWritten([a, b]) == Some([a["ID" := Num(3.0)], b["ID" := Num(3.0)]])
  {
    var a: Row := map["ID" := Num(3.2)];
    var b: Row := map["ID" := Num(3.7)];
    var rows := [a, b];
    assert IdCell(a) == Num(3.2) && IdCell(b) == Num(3.7);
    assert !IdMissing(rows);
    assert !IdDuplicatedAsWritten(rows);
    assert Trunc(3.2) == 3 && Trunc(3.7) == 3;
    assert CastId(a) == Some(Num(3.0)) && CastId(b) == Some(Num(3.0));
    var cast := CastIds(rows);
    assert cast.Some? && |cast.value| == 2;
    assert cast.value[0] == a["ID" := Num(3.0)] && cast.value[1] == b["ID" := Num(3.0)];
    assert cast.value == [a["ID" := Num(3.0)], b["ID" := Num(3.0)]];
  }

  /** The corrected check sees the collision and renumbers. */
  lemma TruncatedIdsRenumbered()
    ensures var a := map["ID" := Num(3.2)];
      var b := map["ID" := Num(3.7)];
      RepairIds([a, b]) == Some([a["ID" := Num(0.0)], b["ID" := Num(1.0)]])
  {
    var a: Row := map["ID" := Num(3.2)];
    var b: Row := map["ID" := Num(3.7)];
    var rows := [a, b];
    assert IdCell(rows[0]) == Num(3.2) && IdCell(rows[1]) == Num(3.7);
    assert Trunc(3.2) == 3 && Trunc(3.7) == 3;
    assert SameAfterCast(IdCell(rows[0]), IdCell(rows[1]));
    assert IdDuplicated(rows);
    var t := Renumber(rows);
    assert t[0] == a["ID" := Num(0.0)] && t[1] == b["ID" := Num(1.0)];
    assert t == [a["ID" := Num(0.0)], b["ID" := Num(1.0)]];
  }

  /** `load_data`, step by step on a local table. */
  method LoadData(src: Source) returns (t: Table)
    ensures t == LoadDataSpec(src)
  {
    if !src.Parsed? {
      return EmptyTable();
    }
    var names := CleanHeader(src.header);
    if TypedColumnRepeated(names) {
      return EmptyTable();
    }
    var prepared := PrepareRows(names, src.rows);
    var kept := DropWithoutCoordinates(prepared);
    var repaired := RepairIdColumn(kept);
    if repaired.None? {
      return EmptyTable();
    }
    t := Table(ExpectedColumns, repaired.value);
  }
}
