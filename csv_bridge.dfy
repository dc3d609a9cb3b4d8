/** CSV interchange: the row loop of the import, the merge into the store, and the export rows. */
module CsvBridge {
  import opened Wrappers
  import opened PyText
  import opened Records

  /** A CSV row as the reader yields it: its fields, already split. */
  type Row = seq<string>

  /** Why one row of an import is skipped. */
  datatype RowError =
    | MissingColumn       // `IndexError` from `row[0]` or `row[1]`
    | BadAmount           // `ValueError` from `float(row[0])`
    | MissingDescription  // 'Missing description in the row.'

  /** Why a whole import fails: an empty file has no header, and `next(reader)` raises. */
  datatype ImportError = NoHeader

  // ---------------------------------------------------------------- import

  /** One row of the import: column 0 parsed as the amount, column 1 stripped as the description.
      `parse` stands for `float(...)`, `None` where it raises. */
  function ParseRow(row: Row, parse: string -> Option<real>): Result<(real, string), RowError> {
    if |row| == 0 then Failure(MissingColumn)
    else match parse(row[0])
      case None => Failure(BadAmount)
      case Some(v) =>
        if |row| < 2 then Failure(MissingColumn)
        else if Strip(row[1]) == "" then Failure(MissingDescription)
        else Success((v, Strip(row[1])))
  }

  /** A row is accepted exactly when it has two columns, a parsable amount and a non-blank
      description; the error reported is the first check that fails, in the source's order. */
  lemma ParseRowOutcome(row: Row, parse: string -> Option<real>)
    ensures ParseRow(row, parse).Success? <==>
      |row| >= 2 && parse(row[0]).Some? && !AllSpace(row[1])
    ensures ParseRow(row, parse).Success? ==>
      ParseRow(row, parse).value == (parse(row[0]).value, Strip(row[1]))
    ensures |row| == 0 ==> ParseRow(row, parse) == Failure(MissingColumn)
    ensures |row| >= 1 && parse(row[0]).None? ==> ParseRow(row, parse) == Failure(BadAmount)
    ensures |row| == 1 && parse(row[0]).Some? ==> ParseRow(row, parse) == Failure(MissingColumn)
    ensures |row| >= 2 && parse(row[0]).Some? && AllSpace(row[1]) ==>
      ParseRow(row, parse) == Failure(MissingDescription)
  {
    if |row| >= 2 {
      StripEmptyIffAllSpace(row[1]);
    }
  }

  /** The amounts and descriptions of the accepted rows, in row order. */
  function GoodRows(rows: seq<Row>, parse: string -> Option<real>): seq<(real, string)> {
    if rows == [] then []
    else
      var last := rows[|rows| - 1];
      GoodRows(rows[..|rows| - 1], parse)
        + match ParseRow(last, parse) case Failure(_) => [] case Success(p) => [p]
  }

  /** Every accepted pair comes from some row that parses to it, so its description is non-empty. */
  lemma {:induction false} GoodRowsAccepted(rows: seq<Row>, parse: string -> Option<real>, k: nat)
    requires k < |GoodRows(rows, parse)|
    ensures exists i :: 0 <= i < |rows| && ParseRow(rows[i], parse) == Success(GoodRows(rows, parse)[k])
    ensures GoodRows(rows, parse)[k].1 != ""
    decreases |rows|
  {
    var init := rows[..|rows| - 1];
    var g := GoodRows(rows, parse);
    if k < |GoodRows(init, parse)| {
      GoodRowsAccepted(init, parse, k);
      var i :| 0 <= i < |init| && ParseRow(init[i], parse) == Success(GoodRows(init, parse)[k]);
      assert rows[i] == init[i];
    } else {
      assert ParseRow(rows[|rows| - 1], parse) == Success(g[k]);
    }
  }

  /** The record made from an accepted row: the next id free in the store and the batch so far. */
  function RowRecord(existing: seq<Expense>, batch: seq<Expense>, p: (real, string)): Expense {
    Expense(NextId(existing + batch), p.1, p.0, IsPricey(p.0))
  }

  /** The row loop of `import_csv` over the data rows (the header already dropped): each accepted
      row appends one record to the batch built from the rows before it. */
  function Imported(existing: seq<Expense>, rows: seq<Row>, parse: string -> Option<real>): seq<Expense> {
    if rows == [] then []
    else
      var batch := Imported(existing, rows[..|rows| - 1], parse);
      match ParseRow(rows[|rows| - 1], parse)
      case Failure(_) => batch
      case Success(p) => batch + [RowRecord(existing, batch, p)]
  }

  /** `import_csv` on the lines of the file and the store loaded when it starts. */
  function ImportFile(file: seq<Row>, existing: seq<Expense>, parse: string -> Option<real>)
    : Result<seq<Expense>, ImportError>
  {
    if file == [] then Failure(NoHeader) else Success(Imported(existing, file[1..], parse))
  }

  /** `import_csv`: skips the header, then appends one record per accepted row. */
  method ImportCsv(file: seq<Row>, existing: seq<Expense>, parse: string -> Option<real>)
    returns (r: Result<seq<Expense>, ImportError>)
    ensures r == ImportFile(file, existing, parse)
  {
    if file == [] {
      return Failure(NoHeader);
    }
    var rows := file[1..];
    var expenses: seq<Expense> := [];
    for i := 0 to |rows|
      invariant expenses == Imported(existing, rows[..i], parse)
    {
      assert rows[..i + 1][..i] == rows[..i];
      var parsed := ParseRow(rows[i], parse);
      if parsed.Success? {
        var value := parsed.value.0;
        var newId := FindNextId(existing + expenses);
        var made := NewExpense(newId, parsed.value.1, value, IsPricey(value));
        assert made.Success?;
        expenses := expenses + [made.value];
      }
    }
    assert rows[..|rows|] == rows;
    r := Success(expenses);
  }

  /** Import yields one record per accepted row. */
  lemma {:induction false} ImportedLength(existing: seq<Expense>, rows: seq<Row>, parse: string -> Option<real>)
    ensures |Imported(existing, rows, parse)| == |GoodRows(rows, parse)|
    decreases |rows|
  {
    if rows != [] {
      ImportedLength(existing, rows[..|rows| - 1], parse);
    }
  }

  /** The k-th accepted row becomes the k-th record: that row's amount, stripped description and
      `pricey` flag, and the id smallest free in the store plus the records before it. */
  lemma {:induction false} ImportedAt(existing: seq<Expense>, rows: seq<Row>, parse: string -> Option<real>, k: nat)
    requires k < |Imported(existing, rows, parse)|
    ensures k < |GoodRows(rows, parse)|
    ensures var r := Imported(existing, rows, parse);
      r[k] == RowRecord(existing, r[..k], GoodRows(rows, parse)[k])
    decreases |rows|
  {
    var init := rows[..|rows| - 1];
    var batch := Imported(existing, init, parse);
    ImportedLength(existing, init, parse);
    ImportedLength(existing, rows, parse);
    var r := Imported(existing, rows, parse);
    if k < |batch| {
      ImportedAt(existing, init, parse, k);
      assert r[..k] == batch[..k];
    } else {
      assert r[..k] == batch;
    }
  }

  /** Import yields exactly one record per accepted row, in row order, each carrying that row's
      amount and non-empty stripped description, `pricey` from the amount, and the id smallest
      free in the store plus the earlier imported records. */
  lemma ImportedRecords(existing: seq<Expense>, rows: seq<Row>, parse: string -> Option<real>)
    ensures var r := Imported(existing, rows, parse);
      var g := GoodRows(rows, parse);
      && |r| == |g|
      && forall k :: 0 <= k < |r| ==>
        && r[k].value == g[k].0
        && r[k].description == g[k].1
        && r[k].pricey == (g[k].0 >= 1000.0)
        && r[k].id == NextId(existing + r[..k])
        && r[k].description != ""
  {
    var r := Imported(existing, rows, parse);
    var g := GoodRows(rows, parse);
    ImportedLength(existing, rows, parse);
    forall k | 0 <= k < |r|
      ensures r[k] == RowRecord(existing, r[..k], g[k]) && g[k].1 != ""
    {
      ImportedAt(existing, rows, parse, k);
      GoodRowsAccepted(rows, parse, k);
    }
  }

  /** One more row: the import of `rows + [row]` is that of `rows`, plus a record if `row` is accepted. */
  lemma ImportedSnoc(existing: seq<Expense>, rows: seq<Row>, row: Row, parse: string -> Option<real>)
    ensures ParseRow(row, parse).Failure? ==>
      Imported(existing, rows + [row], parse) == Imported(existing, rows, parse)
    ensures ParseRow(row, parse).Success? ==>
      Imported(existing, rows + [row], parse) == Imported(existing, rows, parse)
        + [RowRecord(existing, Imported(existing, rows, parse), ParseRow(row, parse).value)]
  {
    assert (rows + [row])[..|rows|] == rows;
  }

  /** A rejected row yields nothing and does not stop the loop: dropping it changes nothing. */
  lemma {:induction false} RejectedRowIsSkipped(existing: seq<Expense>, before: seq<Row>, bad: Row,
                                                after: seq<Row>, parse: string -> Option<real>)
    requires ParseRow(bad, parse).Failure?
    ensures Imported(existing, before + [bad] + after, parse) == Imported(existing, before + after, parse)
    decreases |after|
  {
    if after == [] {
      assert before + [bad] + after == before + [bad];
      assert before + after == before;
      ImportedSnoc(existing, before, bad, parse);
    } else {
      var init, z := after[..|after| - 1], after[|after| - 1];
      RejectedRowIsSkipped(existing, before, bad, init, parse);
      assert before + [bad] + after == (before + [bad] + init) + [z];
      assert before + after == (before + init) + [z];
      ImportedSnoc(existing, before + [bad] + init, z, parse);
      ImportedSnoc(existing, before + init, z, parse);
    }
  }

  lemma UniqueIdsConcat(a: seq<Expense>, b: seq<Expense>)
    requires UniqueIds(a) && UniqueIds(b) && Ids(a) !! Ids(b)
    ensures UniqueIds(a + b)
  {
    forall i, j | 0 <= i < |a| <= j < |a| + |b|
      ensures (a + b)[i].id != (a + b)[j].id
    {
      assert a[i] in a && b[j - |a|] in b;
      assert (a + b)[i].id in Ids(a) && (a + b)[j].id in Ids(b);
    }
  }

  /** Ids handed out by the loop never repeat and never hit an id of the store loaded at the start;
      so the store followed by the import keeps unique ids. */
  lemma {:induction false} ImportedIdsFresh(existing: seq<Expense>, rows: seq<Row>, parse: string -> Option<real>)
    ensures UniqueIds(Imported(existing, rows, parse))
    ensures Ids(Imported(existing, rows, parse)) !! Ids(existing)
    ensures UniqueIds(existing) ==> UniqueIds(Merge(existing, Imported(existing, rows, parse)))
    decreases |rows|
  {
    var r := Imported(existing, rows, parse);
    if rows == [] {
      assert Ids([]) == {};
    } else {
      var batch := Imported(existing, rows[..|rows| - 1], parse);
      ImportedIdsFresh(existing, rows[..|rows| - 1], parse);
      match ParseRow(rows[|rows| - 1], parse)
      case Failure(_) =>
      case Success(p) =>
        var x := RowRecord(existing, batch, p);
        NextIdIsSmallestFree(existing + batch);
        IdsConcat(existing, batch);
        IdsConcat(batch, [x]);
        assert Ids([x]) == {x.id} by { assert x in [x]; }
        UniqueIdsConcat(batch, [x]);
    }
    if UniqueIds(existing) {
      UniqueIdsConcat(existing, r);
    }
  }

  /** Import does not check the sign of the amount (unlike the add path): a row whose amount
      parses to zero or less is imported as it is, not pricey. */
  lemma ImportAcceptsNonPositiveAmount(existing: seq<Expense>, amount: string, description: string,
                                       parse: string -> Option<real>, v: real)
    requires parse(amount) == Some(v) && v <= 0.0 && !AllSpace(description)
    ensures Imported(existing, [[amount, description]], parse)
         == [Expense(NextId(existing), Strip(description), v, false)]
  {
    var row: Row := [amount, description];
    ParseRowOutcome(row, parse);
    assert existing + [] == existing;
    assert [row][..0] == [];
  }

  // ---------------------------------------------------------------- merge

  /** `import_python`'s merge: the store followed by the imported records. */
  function Merge(existing: seq<Expense>, imported: seq<Expense>): (m: seq<Expense>)
    ensures |m| == |existing| + |imported|
    ensures m[..|existing|] == existing && m[|existing|..] == imported
  {
    existing + imported
  }

  /** The `import-python` command on the store and the CSV file, given the user's answer:
      nothing imported or no confirmation leaves the store as it is. */
  function ImportCommand(stored: seq<Expense>, file: seq<Row>, parse: string -> Option<real>,
                         confirmed: bool): Result<seq<Expense>, ImportError>
  {
    match ImportFile(file, stored, parse)
    case Failure(e) => Failure(e)
    case Success(imported) =>
      if imported == [] || !confirmed then Success(stored) else Success(Merge(stored, imported))
  }

  /** The command fails only for want of a header. Whatever the answer, the stored records stay
      first and in order, and unique ids stay unique; a confirmed import of at least one record
      saves exactly the store followed by the imported records, and anything else saves the store. */
  lemma ImportCommandKeepsStore(stored: seq<Expense>, file: seq<Row>, parse: string -> Option<real>,
                                confirmed: bool)
    ensures ImportCommand(stored, file, parse, confirmed).Failure? <==> file == []
    ensures file == [] ==> ImportCommand(stored, file, parse, confirmed) == Failure(NoHeader)
    ensures confirmed && file != [] && Imported(stored, file[1..], parse) != [] ==>
      ImportCommand(stored, file, parse, confirmed).value == Merge(stored, Imported(stored, file[1..], parse))
    ensures file != [] && (!confirmed || Imported(stored, file[1..], parse) == []) ==>
      ImportCommand(stored, file, parse, confirmed).value == stored
    ensures ImportCommand(stored, file, parse, confirmed).Success? ==>
      |stored| <= |ImportCommand(stored, file, parse, confirmed).value|
    ensures ImportCommand(stored, file, parse, confirmed).Success? ==>
      ImportCommand(stored, file, parse, confirmed).value[..|stored|] == stored
    ensures ImportCommand(stored, file, parse, confirmed).Success? && UniqueIds(stored) ==>
      UniqueIds(ImportCommand(stored, file, parse, confirmed).value)
  {
    if file != [] {
      ImportedIdsFresh(stored, file[1..], parse);
    }
  }

  // ---------------------------------------------------------------- export

  /** A value handed to the CSV writer. */
  datatype Cell = TextCell(text: string) | IntCell(whole: int) | NumCell(num: real) | BoolCell(flag: bool)

  const Header: seq<Cell> := [TextCell("id"), TextCell("amount"), TextCell("description"), TextCell("big")]

  /** One exported record: id, amount, description, big. */
  function ExportRow(e: Expense): seq<Cell> {
    [IntCell(e.id), NumCell(e.value), TextCell(e.description), BoolCell(e.pricey)]
  }

  /** Reads an exported row back; the header reads as no record. */
  function ReadExportRow(row: seq<Cell>): Option<Expense> {
    if |row| == 4 && row[0].IntCell? && row[1].NumCell? && row[2].TextCell? && row[3].BoolCell?
    then Some(Expense(row[0].whole, row[2].text, row[1].num, row[3].flag))
    else None
  }

  /** `save_to_csv`: the header, then one row per record in list order; every data row reads back
      as its record, every field included. */
  method SaveToCsv(expenses: seq<Expense>) returns (written: seq<seq<Cell>>)
    ensures |written| == |expenses| + 1
    ensures written[0] == Header && ReadExportRow(written[0]) == None
    ensures forall k :: 0 <= k < |expenses| ==>
      written[k + 1] == ExportRow(expenses[k]) && ReadExportRow(written[k + 1]) == Some(expenses[k])
  {
    written := [Header];
    for i := 0 to |expenses|
      invariant |written| == i + 1 && written[0] == Header
      invariant forall k :: 0 <= k < i ==> written[k + 1] == ExportRow(expenses[k])
    {
      written := written + [ExportRow(expenses[i])];
    }
  }
}
