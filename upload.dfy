/**
 * The row-cleaning loop of `upload_csv` (app.py). Each row, as
 * `csv.DictReader` delivers it, becomes a recipient record: keys and values
 * stripped, blank values dropped; the record is kept only when it has a
 * non-empty `School Name` and `Email`. An upload that keeps nothing is
 * rejected, and so is one with a cell that is not text.
 */
module Upload {
  import opened Wrappers
  import opened Text
  import opened Placeholders

  /**
   * A row as `csv.DictReader` yields it: header names to cells, in header
   * order. `None` stands for a cell that is not text: the reader fills a
   * short row with `None` and puts the surplus of a long row in a list.
   */
  type Row = seq<(string, Option<string>)>

  /** A row whose every cell is text. */
  type Cells = seq<(string, string)>

  datatype UploadError =
    | UnreadableRow    // `.strip()` raised on a cell that is not text
    | NoValidRecords   // no row had both a School Name and an Email

  /** The row's cells as text, or `None` when `.strip()` would meet a cell that is not text. */
  function AsText(row: Row): (r: Option<Cells>)
    ensures r.Some? <==> forall i | 0 <= i < |row| :: row[i].1.Some?
    ensures r.Some? ==> |r.value| == |row|
    ensures r.Some? ==> forall i | 0 <= i < |row| :: r.value[i] == (row[i].0, row[i].1.value)
  {
    if row == [] then Some([])
    else
      var n := |row| - 1;
      match AsText(row[..n])
      case None => None
      case Some(front) =>
        if row[n].1.Some? then Some(front + [(row[n].0, row[n].1.value)]) else None
  }

  /** Every row as text, or `None` when some row has a cell that is not text. */
  function AsTextRows(rows: seq<Row>): (r: Option<seq<Cells>>)
    ensures r.Some? <==> forall i | 0 <= i < |rows| :: AsText(rows[i]).Some?
    ensures r.Some? ==> |r.value| == |rows|
    ensures r.Some? ==> forall i | 0 <= i < |rows| :: r.value[i] == AsText(rows[i]).value
  {
    if rows == [] then Some([])
    else
      var n := |rows| - 1;
      match AsTextRows(rows[..n])
      case None => None
      case Some(front) =>
        match AsText(rows[n])
        case None => None
        case Some(last) => Some(front + [last])
  }

  /** The stripped value of cell `i`. */
  function CellText(row: Cells, i: nat): string
    requires i < |row|
  {
    Strip(row[i].1)
  }

  /** Cell `i` is the last non-blank cell of the row whose key strips to `k`. */
  predicate LastFor(row: Cells, k: string, i: nat) {
    && i < |row| && Strip(row[i].0) == k && CellText(row, i) != ""
    && forall j | i < j < |row| && Strip(row[j].0) == k :: CellText(row, j) == ""
  }

  /** The dict comprehension `{key.strip(): value.strip() for key, value in row.items() if value.strip()}`. */
  function CleanRow(row: Cells): School {
    if row == [] then map[]
    else
      var n := |row| - 1;
      var rec := CleanRow(row[..n]);
      var v := CellText(row, n);
      if v != "" then rec[Strip(row[n].0) := v] else rec
  }

  /** A cleaned record maps stripped keys to stripped, non-blank values. */
  lemma {:induction false} CleanRowStripped(row: Cells)
    ensures forall k | k in CleanRow(row) ::
              k == Strip(k) && CleanRow(row)[k] == Strip(CleanRow(row)[k]) && CleanRow(row)[k] != ""
  {
    if row != [] {
      var n := |row| - 1;
      CleanRowStripped(row[..n]);
      StripIdempotent(row[n].0);
      StripIdempotent(row[n].1);
    }
  }

  /** A key is present when some cell under it is not blank. */
  lemma {:induction false} CleanRowComplete(row: Cells)
    ensures forall i | 0 <= i < |row| && CellText(row, i) != "" :: Strip(row[i].0) in CleanRow(row)
  {
    if row != [] {
      var n := |row| - 1;
      var front := row[..n];
      CleanRowComplete(front);
      assert CleanRow(front).Keys <= CleanRow(row).Keys;
      forall i | 0 <= i < |row| && CellText(row, i) != "" ensures Strip(row[i].0) in CleanRow(row) {
        if i < n {
          assert front[i] == row[i];
          assert Strip(row[i].0) in CleanRow(front);
        }
      }
    }
  }

  /**
   * A present key holds the last non-blank cell under it: a later
   * duplicate key wins, as in a dict.
   */
  lemma {:induction false} CleanRowLast(row: Cells)
    ensures forall k | k in CleanRow(row) :: exists i :: LastFor(row, k, i) && CleanRow(row)[k] == CellText(row, i)
  {
    if row != [] {
      var n := |row| - 1;
      var front := row[..n];
      CleanRowLast(front);
      var rec := CleanRow(front);
      var r := CleanRow(row);
      var key := Strip(row[n].0);
      var v := CellText(row, n);
      forall k | k in r ensures exists i :: LastFor(row, k, i) && r[k] == CellText(row, i) {
        if v != "" && k == key {
          assert LastFor(row, k, n);
        } else {
          var i :| LastFor(front, k, i) && rec[k] == CellText(front, i);
          LastForExtend(row, k, i);
        }
      }
    }
  }

  /** A last non-blank cell stays last when the added cell is blank or under another key. */
  lemma LastForExtend(row: Cells, k: string, i: nat)
    requires row != [] && LastFor(row[..|row| - 1], k, i)
    requires Strip(row[|row| - 1].0) != k || CellText(row, |row| - 1) == ""
    ensures LastFor(row, k, i) && CellText(row, i) == CellText(row[..|row| - 1], i)
  {
    var front := row[..|row| - 1];
    assert row[i] == front[i];
    forall j | i < j < |row| && Strip(row[j].0) == k
      ensures CellText(row, j) == ""
    {
      if j < |front| {
        assert row[j] == front[j];
      }
    }
  }

  /** `if school.get('School Name') and school.get('Email')`. */
  predicate Keep(rec: School) {
    Field(rec, "School Name") != "" && Field(rec, "Email") != ""
  }

  /** The key `k` has a non-blank cell in the row. */
  predicate Supplies(row: Cells, k: string) {
    exists i | 0 <= i < |row| :: Strip(row[i].0) == k && CellText(row, i) != ""
  }

  /** A column of the cleaned record is non-blank exactly when the row has a non-blank cell under it. */
  lemma FieldIff(row: Cells, k: string)
    ensures Field(CleanRow(row), k) != "" <==> Supplies(row, k)
  {
    CleanRowComplete(row);
    CleanRowLast(row);
    var rec := CleanRow(row);
    if Supplies(row, k) {
      var i :| 0 <= i < |row| && Strip(row[i].0) == k && CellText(row, i) != "";
      assert k in rec;
      var j :| LastFor(row, k, j) && rec[k] == CellText(row, j);
    }
    if Field(rec, k) != "" {
      var i :| LastFor(row, k, i) && rec[k] == CellText(row, i);
    }
  }

  /** A row is kept exactly when it has a non-blank School Name cell and a non-blank Email cell. */
  lemma KeepIff(row: Cells)
    ensures Keep(CleanRow(row)) <==> Supplies(row, "School Name") && Supplies(row, "Email")
  {
    FieldIff(row, "School Name");
    FieldIff(row, "Email");
  }

  /**
   * `f` applied to each element, keeping the images that pass `keep`, in
   * order; written from the back, as the loop that appends them builds it.
   */
  function FilterMap<A, B>(f: A -> B, keep: B -> bool, xs: seq<A>): seq<B> {
    if xs == [] then []
    else
      var n := |xs| - 1;
      var y := f(xs[n]);
      FilterMap(f, keep, xs[..n]) + (if keep(y) then [y] else [])
  }

  lemma {:induction false} FilterMapAppend<A, B>(f: A -> B, keep: B -> bool, a: seq<A>, b: seq<A>)
    ensures FilterMap(f, keep, a + b) == FilterMap(f, keep, a) + FilterMap(f, keep, b)
    decreases |b|
  {
    if b == [] {
      assert a + b == a;
    } else {
      var n := |b| - 1;
      var ab := a + b;
      assert ab[..|ab| - 1] == a + b[..n];
      assert ab[|ab| - 1] == b[n];
      FilterMapAppend(f, keep, a, b[..n]);
    }
  }

  lemma {:induction false} FilterMapSound<A, B>(f: A -> B, keep: B -> bool, xs: seq<A>, k: nat)
    requires k < |FilterMap(f, keep, xs)|
    ensures keep(FilterMap(f, keep, xs)[k])
    ensures exists i | 0 <= i < |xs| :: FilterMap(f, keep, xs)[k] == f(xs[i])
  {
    var n := |xs| - 1;
    if k < |FilterMap(f, keep, xs[..n])| {
      FilterMapSound(f, keep, xs[..n], k);
      var i :| 0 <= i < n && FilterMap(f, keep, xs[..n])[k] == f(xs[..n][i]);
      assert xs[..n][i] == xs[i];
    }
  }

  lemma {:induction false} FilterMapComplete<A, B>(f: A -> B, keep: B -> bool, xs: seq<A>, i: nat)
    requires i < |xs| && keep(f(xs[i]))
    ensures f(xs[i]) in FilterMap(f, keep, xs)
  {
    var n := |xs| - 1;
    if i < n {
      assert xs[..n][i] == xs[i];
      FilterMapComplete(f, keep, xs[..n], i);
    }
  }

  /** The records kept, in row order. */
  function Cleaned(rows: seq<Cells>): seq<School> {
    FilterMap(CleanRow, Keep, rows)
  }

  /** The outcome of an upload: the new recipient list, or why the upload is refused. */
  function UploadResult(rows: seq<Row>): Result<seq<School>, UploadError> {
    match AsTextRows(rows)
    case None => Err(UnreadableRow)
    case Some(cells) =>
      if Cleaned(cells) == [] then Err(NoValidRecords) else Ok(Cleaned(cells))
  }

  /** Cleaning distributes over concatenation, so kept records keep their order. */
  lemma CleanedAppend(a: seq<Cells>, b: seq<Cells>)
    ensures Cleaned(a + b) == Cleaned(a) + Cleaned(b)
  {
    FilterMapAppend(CleanRow, Keep, a, b);
  }

  /** Every kept record comes from some row and passes the filter. */
  lemma CleanedSound(rows: seq<Cells>, k: nat)
    requires k < |Cleaned(rows)|
    ensures Keep(Cleaned(rows)[k])
    ensures exists i | 0 <= i < |rows| :: Cleaned(rows)[k] == CleanRow(rows[i])
  {
    FilterMapSound(CleanRow, Keep, rows, k);
  }

  /** Every row that passes the filter is kept. */
  lemma CleanedComplete(rows: seq<Cells>, i: nat)
    requires i < |rows| && Keep(CleanRow(rows[i]))
    ensures CleanRow(rows[i]) in Cleaned(rows)
  {
    FilterMapComplete(CleanRow, Keep, rows, i);
  }

  /**
   * An upload is refused as unreadable exactly when some cell is not text,
   * and refused for want of records exactly when it is readable and no row
   * passes the filter; so a readable upload with a passing row is accepted.
   * An accepted upload is non-empty, holds only records that pass the
   * filter, each cleaned from a row, and holds every row that passes it.
   */
  lemma UploadResultSpec(rows: seq<Row>)
    ensures UploadResult(rows) == Err(UnreadableRow) <==>
              exists i, j | 0 <= i < |rows| && 0 <= j < |rows[i]| :: rows[i][j].1.None?
    ensures UploadResult(rows) == Err(NoValidRecords) <==>
              && AsTextRows(rows).Some?
              && forall i | 0 <= i < |rows| :: !Keep(CleanRow(AsText(rows[i]).value))
    ensures UploadResult(rows).Ok? ==> UploadResult(rows).value != []
    ensures UploadResult(rows).Ok? ==>
              forall k | 0 <= k < |UploadResult(rows).value| ::
                && Keep(UploadResult(rows).value[k])
                && exists i | 0 <= i < |rows| :: UploadResult(rows).value[k] == CleanRow(AsText(rows[i]).value)
    ensures UploadResult(rows).Ok? ==>
              forall i | 0 <= i < |rows| && Keep(CleanRow(AsText(rows[i]).value)) ::
                CleanRow(AsText(rows[i]).value) in UploadResult(rows).value
  {
    match AsTextRows(rows)
    case None =>
    case Some(cells) =>
      forall k | 0 <= k < |Cleaned(cells)|
        ensures Keep(Cleaned(cells)[k])
        ensures exists i | 0 <= i < |rows| :: Cleaned(cells)[k] == CleanRow(AsText(rows[i]).value)
      {
        CleanedSound(cells, k);
      }
      forall i | 0 <= i < |rows| && Keep(CleanRow(AsText(rows[i]).value))
        ensures CleanRow(AsText(rows[i]).value) in Cleaned(cells)
      {
        CleanedComplete(cells, i);
      }
      if Cleaned(cells) != [] {
        CleanedSound(cells, 0);
      }
  }

  /** Reading one more row as text extends the rows read so far. */
  lemma AsTextRowsSnoc(rows: seq<Row>, i: nat, front: seq<Cells>, last: Cells)
    requires i < |rows| && AsTextRows(rows[..i]) == Some(front) && AsText(rows[i]) == Some(last)
    ensures AsTextRows(rows[..i + 1]) == Some(front + [last])
  {
    assert rows[..i + 1][..i] == rows[..i];
  }

  /** Cleaning one more row appends its record when it passes the filter. */
  lemma CleanedSnoc(cells: seq<Cells>, last: Cells)
    ensures Cleaned(cells + [last]) == Cleaned(cells) + (if Keep(CleanRow(last)) then [CleanRow(last)] else [])
  {
    assert (cells + [last])[..|cells|] == cells;
  }

  /**
   * The upload loop: rows are cleaned one by one and the kept records
   * appended; a cell that is not text aborts the upload.
   */
  method CleanUpload(rows: seq<Row>) returns (r: Result<seq<School>, UploadError>)
    ensures r == UploadResult(rows)
  {
    var schools: seq<School> := [];
    ghost var cells: seq<Cells> := [];
    for i := 0 to |rows|
      invariant AsTextRows(rows[..i]) == Some(cells)
      invariant schools == Cleaned(cells)
    {
      var row := AsText(rows[i]);
      if row.None? {
        assert AsTextRows(rows).None?;
        return Err(UnreadableRow);
      }
      var school := CleanRow(row.value);
      AsTextRowsSnoc(rows, i, cells, row.value);
      CleanedSnoc(cells, row.value);
      cells := cells + [row.value];
      if Keep(school) {
        schools := schools + [school];
      }
    }
    assert rows[..|rows|] == rows;
    if schools == [] {
      return Err(NoValidRecords);
    }
    return Ok(schools);
  }
}
