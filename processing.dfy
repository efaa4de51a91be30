/** The processing section of app.py: reading the uploaded workbooks into one
    table, adding the cleaned columns to a copy of it, the data-quality
    report shown on the page, and the unique-value lists the downloaded
    workbook holds beside the processed table. */
module Processing {
  import opened Wrappers
  import Cleaning
  import Report

  type Cell = Cleaning.Cell

  /** A row maps column names to cells; a name that is not a key reads as an
      empty cell, as pandas fills the columns one workbook lacks when the
      workbooks are concatenated. */
  type Row = map<string, Cell>

  type Table = seq<Row>

  /** The option of the two column selectors that switches a column off. */
  const NoProcess := "-- No procesar --"

  const SourceFileColumn := "_sourceFile"
  const CleanPhoneColumn := "cleanPhone"
  const ValidEmailColumn := "validEmail"

  const TotalRowsMetric := "Total de filas analizadas"
  const ValidPhonesMetric := "Tel\U{E9}fonos v\U{E1}lidos encontrados"
  const UniquePhonesMetric := "Tel\U{E9}fonos \U{FA}nicos"
  const ValidEmailsMetric := "Emails v\U{E1}lidos encontrados"
  const UniqueEmailsMetric := "Emails \U{FA}nicos"

  /** An uploaded file: its name and what reading it gave, `None` when
      `pd.read_excel` raised. */
  datatype Upload = Upload(name: string, sheet: Option<Table>)

  // ---------------------------------------------------------------------------
  // Tables and columns
  // ---------------------------------------------------------------------------

  /** `table[name]`. */
  function ColumnOf(table: Table, name: string): (c: seq<Cell>)
    ensures |c| == |table|
    ensures forall i :: 0 <= i < |table| && name !in table[i] ==> c[i].None?
    ensures forall i :: 0 <= i < |table| && name in table[i] ==> c[i] == table[i][name]
  {
    seq(|table|, i requires 0 <= i < |table| => if name in table[i] then table[i][name] else None)
  }

  /** `series.apply(f)`. */
  function MapCells(f: Cell -> Cell, column: seq<Cell>): (r: seq<Cell>)
    ensures |r| == |column|
    ensures forall i :: 0 <= i < |column| ==> r[i] == f(column[i])
  {
    seq(|column|, i requires 0 <= i < |column| => f(column[i]))
  }

  /** `table['_sourceFile'] = name`: every row is tagged with the file it came
      from, and keeps all its other cells. */
  function Tag(table: Table, name: string): (r: Table)
    ensures |r| == |table|
    ensures forall i :: 0 <= i < |r| ==> SourceFileColumn in r[i] && r[i][SourceFileColumn] == Some(name)
    ensures forall i :: 0 <= i < |r| ==> r[i].Keys == table[i].Keys + {SourceFileColumn}
    ensures forall i, k :: 0 <= i < |r| && k in table[i] && k != SourceFileColumn ==> r[i][k] == table[i][k]
  {
    seq(|table|, i requires 0 <= i < |table| => table[i][SourceFileColumn := Some(name)])
  }

  /** The tagged tables of the uploads that could be read, in upload order. */
  function Loaded(files: seq<Upload>): (r: seq<Table>)
    ensures |r| <= |files|
  {
    if files == [] then []
    else
      var f := files[|files| - 1];
      Loaded(files[..|files| - 1]) +
        match f.sheet
        case None => []
        case Some(t) => [Tag(t, f.name)]
  }

  /** Every loaded table is the tagged sheet of an upload that could be read. */
  lemma {:induction false} LoadedFromUploads(files: seq<Upload>)
    ensures forall i :: 0 <= i < |Loaded(files)| ==>
      exists f :: f in files && f.sheet.Some? && Loaded(files)[i] == Tag(f.sheet.value, f.name)
  {
    if files != [] {
      var init, f := files[..|files| - 1], files[|files| - 1];
      LoadedFromUploads(init);
      assert files == init + [f];
      var before := Loaded(init);
      if f.sheet.None? {
        assert Loaded(files) == before;
        forall i | 0 <= i < |Loaded(files)|
          ensures exists g :: g in files && g.sheet.Some? && Loaded(files)[i] == Tag(g.sheet.value, g.name)
        {
          var g :| g in init && g.sheet.Some? && before[i] == Tag(g.sheet.value, g.name);
          assert g in files;
        }
      } else {
        assert Loaded(files) == before + [Tag(f.sheet.value, f.name)];
        forall i | 0 <= i < |Loaded(files)|
          ensures exists g :: g in files && g.sheet.Some? && Loaded(files)[i] == Tag(g.sheet.value, g.name)
        {
          if i < |before| {
            var g :| g in init && g.sheet.Some? && before[i] == Tag(g.sheet.value, g.name);
            assert g in files;
          } else {
            assert f in files;
          }
        }
      }
    } else {
      assert Loaded(files) == [];
    }
  }

  /** The sum of the tables' lengths. */
  function TotalRows(tables: seq<Table>): (r: nat)
    ensures forall i :: 0 <= i < |tables| ==> |tables[i]| <= r
  {
    if tables == [] then 0
    else TotalRows(tables[..|tables| - 1]) + |tables[|tables| - 1]|
  }

  /** `pd.concat(tables, ignore_index=True)`: the rows of every table, in order. */
  function Concat(tables: seq<Table>): (r: Table)
    ensures forall row :: row in r <==> exists i :: 0 <= i < |tables| && row in tables[i]
  {
    if tables == [] then []
    else Concat(tables[..|tables| - 1]) + tables[|tables| - 1]
  }

  /** The row counter the upload loop keeps is the length of the concatenation. */
  lemma {:induction false} TotalRowsIsConcatLength(tables: seq<Table>)
    ensures TotalRows(tables) == |Concat(tables)|
  {
    if tables != [] {
      TotalRowsIsConcatLength(tables[..|tables| - 1]);
    }
  }

  /** Row `k` of table `i` sits in the concatenation after the rows of the
      tables before it; with the length above, every row of the result is
      placed, in upload order and each once. */
  lemma {:induction false} ConcatAt(tables: seq<Table>, i: nat, k: nat)
    requires i < |tables| && k < |tables[i]|
    ensures TotalRows(tables[..i]) + k < |Concat(tables)|
    ensures Concat(tables)[TotalRows(tables[..i]) + k] == tables[i][k]
  {
    var init := tables[..|tables| - 1];
    if i < |init| {
      ConcatAt(init, i, k);
      assert init[..i] == tables[..i];
    } else {
      assert tables[..i] == init;
      TotalRowsIsConcatLength(init);
    }
  }

  /** A file that could not be read adds no table and no rows. */
  lemma FailedUploadAddsNothing(files: seq<Upload>, f: Upload)
    requires f.sheet.None?
    ensures Loaded(files + [f]) == Loaded(files)
    ensures TotalRows(Loaded(files + [f])) == TotalRows(Loaded(files))
  {
    assert (files + [f])[..|files|] == files;
  }

  /** A file that could be read adds its rows, each tagged with its name. */
  lemma ReadUploadAddsItsRows(files: seq<Upload>, f: Upload)
    requires f.sheet.Some?
    ensures Loaded(files + [f]) == Loaded(files) + [Tag(f.sheet.value, f.name)]
    ensures TotalRows(Loaded(files + [f])) == TotalRows(Loaded(files)) + |f.sheet.value|
  {
    assert (files + [f])[..|files|] == files;
    var ts := Loaded(files) + [Tag(f.sheet.value, f.name)];
    assert ts[..|ts| - 1] == Loaded(files);
  }

  // ---------------------------------------------------------------------------
  // Reading the uploads
  // ---------------------------------------------------------------------------

  /** The upload loop: every file that can be read is tagged and appended to
      `dfList`, and its length is added to `totalRowsInitial`; a file that
      cannot be read is skipped. When some file was read, `df` is the
      concatenation of `dfList`. */
  method LoadUploads(files: seq<Upload>) returns (dfList: seq<Table>, totalRowsInitial: nat, df: Option<Table>)
    ensures dfList == Loaded(files)
    ensures totalRowsInitial == TotalRows(dfList) == |Concat(dfList)|
    ensures df.Some? <==> dfList != []
    ensures df.Some? ==> df.value == Concat(dfList) && |df.value| == totalRowsInitial
  {
    dfList, totalRowsInitial := [], 0;
    var i := 0;
    while i < |files|
      invariant 0 <= i <= |files|
      invariant dfList == Loaded(files[..i])
      invariant totalRowsInitial == TotalRows(dfList)
    {
      var file := files[i];
      LoadStep(files, i);
      if file.sheet.Some? {
        var dfTemp := file.sheet.value;
        totalRowsInitial := totalRowsInitial + |dfTemp|;
        dfList := dfList + [Tag(dfTemp, file.name)];
      }
      i := i + 1;
    }
    assert files[..i] == files;
    TotalRowsIsConcatLength(dfList);
    df := if dfList != [] then Some(Concat(dfList)) else None;
  }

  lemma LoadStep(files: seq<Upload>, i: nat)
    requires i < |files|
    ensures files[i].sheet.None? ==>
      Loaded(files[..i + 1]) == Loaded(files[..i]) &&
      TotalRows(Loaded(files[..i + 1])) == TotalRows(Loaded(files[..i]))
    ensures files[i].sheet.Some? ==>
      Loaded(files[..i + 1]) == Loaded(files[..i]) + [Tag(files[i].sheet.value, files[i].name)] &&
      TotalRows(Loaded(files[..i + 1])) == TotalRows(Loaded(files[..i])) + |files[i].sheet.value|
  {
    assert files[..i + 1] == files[..i] + [files[i]];
    if files[i].sheet.Some? {
      ReadUploadAddsItsRows(files[..i], files[i]);
    } else {
      FailedUploadAddsNothing(files[..i], files[i]);
    }
  }

  // ---------------------------------------------------------------------------
  // df_processed: the copy that receives the cleaned columns
  // ---------------------------------------------------------------------------

  class Frame {
    var rows: Table

    /** `df.copy()`. */
    constructor Copy(df: Table)
      ensures rows == df
    {
      rows := df;
    }

    function Column(name: string): (c: seq<Cell>)
      reads this
      ensures |c| == |rows|
    {
      ColumnOf(rows, name)
    }

    /** `frame[dst] = values`: the column `dst` is set in every row; every
        other column keeps its cells. */
    method Assign(dst: string, values: seq<Cell>)
      requires |values| == |rows|
      modifies this
      ensures |rows| == |old(rows)|
      ensures forall i :: 0 <= i < |rows| ==> rows[i] == old(rows[i])[dst := values[i]]
      ensures Column(dst) == values
      ensures forall name :: name != dst ==> Column(name) == old(Column(name))
    {
      var before := rows;
      rows := seq(|before|, i requires 0 <= i < |before| => before[i][dst := values[i]]);
      forall name | name != dst
        ensures ColumnOf(rows, name) == ColumnOf(before, name)
      {
        assert forall i :: 0 <= i < |rows| ==> (name in rows[i] <==> name in before[i]);
      }
    }
  }

  // ---------------------------------------------------------------------------
  // The "Procesar Datos" button
  // ---------------------------------------------------------------------------

  /** The column `df_processed[email_col]` holds when the e-mail column is
      cleaned: the cleaned phones if the chosen e-mail column is the one the
      phone cleaning has just written, the input column otherwise. */
  function EmailSource(df: Table, phoneCol: string, emailCol: string): (c: seq<Cell>)
    ensures |c| == |df|
    ensures phoneCol == NoProcess || emailCol != CleanPhoneColumn ==> c == ColumnOf(df, emailCol)
  {
    if phoneCol != NoProcess && emailCol == CleanPhoneColumn
    then MapCells(Cleaning.CleanPhone, ColumnOf(df, phoneCol))
    else ColumnOf(df, emailCol)
  }

  /** Whether processing writes the column `name`. */
  predicate Written(name: string, phoneCol: string, emailCol: string) {
    (name == CleanPhoneColumn && phoneCol != NoProcess) ||
    (name == ValidEmailColumn && emailCol != NoProcess)
  }

  /** The metric names of the report, in the order the source appends them. */
  function Metrics(phoneCol: string, emailCol: string): (m: seq<string>)
    ensures 1 <= |m| <= 5 && m[0] == TotalRowsMetric
    ensures ValidPhonesMetric in m <==> phoneCol != NoProcess
    ensures UniquePhonesMetric in m <==> phoneCol != NoProcess
    ensures ValidEmailsMetric in m <==> emailCol != NoProcess
    ensures UniqueEmailsMetric in m <==> emailCol != NoProcess
  {
    [TotalRowsMetric] +
    (if phoneCol != NoProcess then [ValidPhonesMetric, UniquePhonesMetric] else []) +
    (if emailCol != NoProcess then [ValidEmailsMetric, UniqueEmailsMetric] else [])
  }

  /** Cleans the chosen columns of a copy of `df`: `cleanPhone` receives
      `clean_phone` of the phone column and `validEmail` receives
      `validate_email` of the e-mail column; a selector left on `NoProcess`
      adds no column. Every other column is kept as it is. */
  method CleanColumns(df: Table, phoneCol: string, emailCol: string) returns (processed: Table)
    ensures |processed| == |df|
    ensures phoneCol != NoProcess ==>
      ColumnOf(processed, CleanPhoneColumn) == MapCells(Cleaning.CleanPhone, ColumnOf(df, phoneCol))
    ensures emailCol != NoProcess ==>
      ColumnOf(processed, ValidEmailColumn) == MapCells(Cleaning.ValidateEmail, EmailSource(df, phoneCol, emailCol))
    ensures forall name :: !Written(name, phoneCol, emailCol) ==> ColumnOf(processed, name) == ColumnOf(df, name)
  {
    var frame := new Frame.Copy(df);
    if phoneCol != NoProcess {
      frame.Assign(CleanPhoneColumn, MapCells(Cleaning.CleanPhone, frame.Column(phoneCol)));
    }
    if emailCol != NoProcess {
      frame.Assign(ValidEmailColumn, MapCells(Cleaning.ValidateEmail, frame.Column(emailCol)));
    }
    processed := frame.rows;
  }

  /** The quality report of the processed table (metric names and values) and
      the unique-phone and unique-e-mail lists. A selector left on `NoProcess`
      adds no report line and no list. */
  method QualityReport(processed: Table, phoneCol: string, emailCol: string)
    returns (metrics: seq<string>, values: seq<nat>,
             uniquePhones: Option<seq<string>>, uniqueEmails: Option<seq<string>>)
    ensures metrics == Metrics(phoneCol, emailCol) && |values| == |metrics|
    ensures values[0] == |processed|
    ensures phoneCol != NoProcess ==>
      var phones := Report.Present(ColumnOf(processed, CleanPhoneColumn));
      values[1] == |phones| && values[2] == |Report.Elements(phones)| &&
      values[2] <= values[1] <= values[0] &&
      uniquePhones == Some(Report.Unique(phones))
    ensures phoneCol == NoProcess ==> uniquePhones == None
    ensures emailCol != NoProcess ==>
      var e := if phoneCol != NoProcess then 3 else 1;
      var emails := Report.Present(ColumnOf(processed, ValidEmailColumn));
      values[e] == |emails| && values[e + 1] == |Report.Elements(emails)| &&
      values[e + 1] <= values[e] <= values[0] &&
      uniqueEmails == Some(Report.Unique(emails))
    ensures emailCol == NoProcess ==> uniqueEmails == None
  {
    metrics, values := [TotalRowsMetric], [|processed|];
    uniquePhones, uniqueEmails := None, None;
    if phoneCol != NoProcess {
      var validPhones, distinctPhones, phones := Report.Summarize(ColumnOf(processed, CleanPhoneColumn));
      metrics := metrics + [ValidPhonesMetric, UniquePhonesMetric];
      values := values + [validPhones, distinctPhones];
      uniquePhones := Some(phones);
    }
    ghost var phoneValues := values;
    if emailCol != NoProcess {
      var validEmails, distinctEmails, emails := Report.Summarize(ColumnOf(processed, ValidEmailColumn));
      metrics := metrics + [ValidEmailsMetric, UniqueEmailsMetric];
      values := values + [validEmails, distinctEmails];
      uniqueEmails := Some(emails);
    }
    assert values[..|phoneValues|] == phoneValues;
  }
}
