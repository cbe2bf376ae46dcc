/** The scan of the attendance document: every table whose first row names
    the expected columns is read row by row; the date is carried down from
    the last row that had one; each row becomes an appointment record, a
    "no date" warning, a "bad time" error, or nothing. */
module Attendance {
  import opened Outcomes
  import opened Text
  import opened Clock
  import opened Settings

  /** A table row as the texts of its cells, and a table as its rows; the
      first row is the header. */
  type Row = seq<string>
  type Table = seq<Row>

  /** One appointment: the carried date, the start time as written, the
      upper-cased procedure, and the 1-based line and table it came from. */
  datatype Record = Record(date: string, start: string, procedure: string, line: nat, table: nat)

  /** A row with a time and a procedure but no date seen yet in its table. */
  datatype Warning = Undated(table: nat, line: nat, procedure: string, time: string)

  /** A row whose time does not parse with `%H:%M`. */
  datatype TimeError = BadTime(table: nat, line: nat, time: string)

  /** The three lists the scan returns. */
  datatype Extraction = Extraction(records: seq<Record>, errors: seq<TimeError>, warnings: seq<Warning>)

  /** Exceptions the scan does not catch: a table without rows, an expected
      column list that lets a table through without one of the three columns
      the scan indexes, or a data row too short for those columns. */
  datatype Fault =
    | NoHeaderRow(table: nat)
    | ColumnMissing(table: nat, column: string)
    | ShortRow(table: nat, line: nat)

  /** Positions of the date, time and procedure columns. */
  datatype Columns = Columns(date: nat, time: nat, procedure: nat)

  // ------------------------------------------------------------- the header

  /** The header row's cells, stripped and upper-cased. */
  function HeaderNames(row: Row): (names: seq<string>)
    ensures |names| == |row|
  {
    seq(|row|, k requires 0 <= k < |row| => Upper(Strip(row[k])))
  }

  /** Each header name is in upper case, has no whitespace at either end,
      and is its cell upper-cased and then stripped: the order of the two
      steps does not matter. */
  lemma HeaderNameAt(row: Row, k: nat)
    requires k < |row|
    ensures var name := HeaderNames(row)[k];
            && IsUpper(name)
            && (|name| > 0 ==> !IsSpace(name[0]) && !IsSpace(name[|name| - 1]))
            && name == Strip(Upper(row[k]))
  {
    UpperStrip(row[k]);
    UpperIsUpper(Strip(row[k]));
  }

  /** The table is one to read: every expected column name is a header name. */
  predicate Accepts(names: seq<string>, expected: seq<string>) {
    forall k :: 0 <= k < |expected| ==> expected[k] in names
  }

  /** `names.index(x)`: the first position holding `x`. */
  function IndexOf(names: seq<string>, x: string): (r: Option<nat>)
    ensures r.Some? ==> r.value < |names| && names[r.value] == x
  {
    if |names| == 0 then None
    else if names[0] == x then Some(0)
    else match IndexOf(names[1..], x)
      case None => None
      case Some(k) => Some(k + 1)
  }

  /** A position is found exactly when `x` is a name, and it is the first
      one holding `x`. */
  lemma {:induction false} IndexOfFirst(names: seq<string>, x: string)
    ensures IndexOf(names, x).Some? <==> x in names
    ensures IndexOf(names, x).Some? ==> forall k :: 0 <= k < IndexOf(names, x).value ==> names[k] != x
  {
    if |names| > 0 && names[0] != x {
      IndexOfFirst(names[1..], x);
      assert names == [names[0]] + names[1..];
      assert forall k :: 1 <= k < |names| ==> names[k] == names[1..][k - 1];
    }
  }

  /** The columns a table is read with, or the fault raised looking them up:
      the date, time and procedure columns are found by their fixed names,
      whatever the expected column list says, each at its first occurrence. */
  function ColumnsOf(names: seq<string>, table: nat): (r: Result<Columns, Fault>)
    ensures r.Success? ==> && r.value.date < |names| && names[r.value.date] == DateColumn
                           && r.value.time < |names| && names[r.value.time] == TimeColumn
                           && r.value.procedure < |names| && names[r.value.procedure] == ProcedureColumn
    ensures r.Success? ==> && (forall k :: 0 <= k < r.value.date ==> names[k] != DateColumn)
                           && (forall k :: 0 <= k < r.value.time ==> names[k] != TimeColumn)
                           && (forall k :: 0 <= k < r.value.procedure ==> names[k] != ProcedureColumn)
    ensures r.Failure? ==> r.error.ColumnMissing? && r.error.table == table
  {
    IndexOfFirst(names, DateColumn);
    IndexOfFirst(names, TimeColumn);
    IndexOfFirst(names, ProcedureColumn);
    var d := IndexOf(names, DateColumn);
    var h := IndexOf(names, TimeColumn);
    var p := IndexOf(names, ProcedureColumn);
    if d.None? then Failure(ColumnMissing(table, DateColumn))
    else if h.None? then Failure(ColumnMissing(table, TimeColumn))
    else if p.None? then Failure(ColumnMissing(table, ProcedureColumn))
    else Success(Columns(d.value, h.value, p.value))
  }

  /** The lookup succeeds exactly when the three fixed names are all header
      names, and otherwise names the first one missing, in the order date,
      time, procedure. */
  lemma {:induction false} ColumnsOfFound(names: seq<string>, table: nat)
    ensures ColumnsOf(names, table).Success? <==>
              DateColumn in names && TimeColumn in names && ProcedureColumn in names
    ensures ColumnsOf(names, table).Failure? ==>
              ColumnsOf(names, table).error.column
              == if DateColumn !in names then DateColumn
                 else if TimeColumn !in names then TimeColumn
                 else ProcedureColumn
  {
    IndexOfFirst(names, DateColumn);
    IndexOfFirst(names, TimeColumn);
    IndexOfFirst(names, ProcedureColumn);
  }

  // ------------------------------------------------------ the cleaned cells

  /** The three cells of a data row as the scan reads them: date and time
      stripped, procedure stripped and upper-cased. */
  datatype Entry = Entry(date: string, time: string, procedure: string)

  predicate Fits(row: Row, cols: Columns) {
    cols.date < |row| && cols.time < |row| && cols.procedure < |row|
  }

  function EntryOf(row: Row, cols: Columns): (e: Entry)
    requires Fits(row, cols)
    ensures IsUpper(e.procedure)
  {
    UpperIsUpper(Strip(row[cols.procedure]));
    Entry(Strip(row[cols.date]), Strip(row[cols.time]), Upper(Strip(row[cols.procedure])))
  }

  /** The first of rows `i ..` too short for the columns, or `|t|` when
      every one of them fits. */
  function FirstShort(t: Table, cols: Columns, i: nat): (j: nat)
    requires i <= |t|
    ensures i <= j <= |t|
    decreases |t| - i
  {
    if i == |t| || !Fits(t[i], cols) then i else FirstShort(t, cols, i + 1)
  }

  /** Every row before the first short one fits, and the first short one
      does not. */
  lemma {:induction false} FirstShortFits(t: Table, cols: Columns, i: nat)
    requires i <= |t|
    ensures forall j :: i <= j < FirstShort(t, cols, i) ==> Fits(t[j], cols)
    ensures FirstShort(t, cols, i) < |t| ==> !Fits(t[FirstShort(t, cols, i)], cols)
    decreases |t| - i
  {
    if i < |t| && Fits(t[i], cols) {
      FirstShortFits(t, cols, i + 1);
    }
  }

  /** The entries of the data rows (every row after the header), or the
      fault of the first one too short for the columns: `row.cells[idx]`
      raises there, and the rows read before it are lost with the scan. */
  function Entries(t: Table, cols: Columns, table: nat): (r: Result<seq<Entry>, Fault>)
    requires |t| > 0
    ensures r.Success? ==> |r.value| == |t| - 1
    ensures r.Failure? ==> r.error.ShortRow? && r.error.table == table
  {
    var j := FirstShort(t, cols, 1);
    if j < |t| then Failure(ShortRow(table, j + 1))
    else
      FirstShortFits(t, cols, 1);
      Success(seq(|t| - 1, k requires 0 <= k < |t| - 1 => EntryOf(t[k + 1], cols)))
  }

  /** The entries are read exactly when every data row fits the columns;
      entry `k` is data row `k + 1` cleaned. */
  lemma {:induction false} EntriesSuccess(t: Table, cols: Columns, table: nat)
    requires |t| > 0
    ensures Entries(t, cols, table).Success? <==> forall j :: 1 <= j < |t| ==> Fits(t[j], cols)
    ensures Entries(t, cols, table).Success? ==>
              forall k :: 0 <= k < |t| - 1 ==>
                Fits(t[k + 1], cols) && Entries(t, cols, table).value[k] == EntryOf(t[k + 1], cols)
  {
    FirstShortFits(t, cols, 1);
  }

  /** The fault is the first short row's, on its 1-based line. */
  lemma {:induction false} EntriesFault(t: Table, cols: Columns, table: nat)
    requires |t| > 0 && Entries(t, cols, table).Failure?
    ensures var f := Entries(t, cols, table).error;
            && f == ShortRow(table, f.line)
            && 1 < f.line <= |t| && !Fits(t[f.line - 1], cols)
            && forall j :: 1 <= j < f.line - 1 ==> Fits(t[j], cols)
  {
    FirstShortFits(t, cols, 1);
  }

  // ---------------------------------------------------------------- one row

  /** What one data row produces. */
  datatype RowOutcome = Skip | Keep(record: Record) | Warn(warning: Warning) | Reject(error: TimeError)

  /** The outcome, if any, is stamped with the given table and line. */
  predicate Stamped(o: RowOutcome, table: nat, line: nat) {
    match o
    case Skip => true
    case Keep(r) => r.table == table && r.line == line
    case Warn(w) => w.table == table && w.line == line
    case Reject(e) => e.table == table && e.line == line
  }

  /** Every outcome of a table's rows is stamped with that table and the
      line of its row. */
  predicate TableStamped(outs: seq<RowOutcome>, table: nat) {
    forall k :: 0 <= k < |outs| ==> Stamped(outs[k], table, k + 2)
  }

  /** The outcome of a row whose stripped time is `time`, whose stripped and
      upper-cased procedure is `proc`, and whose carried date (after this
      row's own date cell is taken into account) is `date`. */
  function Classify(date: string, time: string, proc: string, allowUndated: bool,
                    table: nat, line: nat): (o: RowOutcome)
    ensures Stamped(o, table, line)
  {
    if date == "" && time != "" && proc != "" && !allowUndated then
      Warn(Undated(table, line, proc, time))
    else if time != "" && proc != "" then
      if ParseTime(time).Some? then Keep(Record(date, time, proc, line, table))
      else Reject(BadTime(table, line, time))
    else Skip
  }

  /** A row yields nothing when it lacks a time or a procedure; a warning
      when it has both but no date has been seen and undated rows are not
      allowed; otherwise a record when the time matches `%H:%M` and an error
      when it does not. */
  lemma {:induction false} ClassifyCases(date: string, time: string, proc: string, allowUndated: bool,
                      table: nat, line: nat)
    ensures var o := Classify(date, time, proc, allowUndated, table, line);
      && (o.Skip? <==> time == "" || proc == "")
      && (o.Warn? <==> time != "" && proc != "" && date == "" && !allowUndated)
      && (o.Warn? ==> o.warning == Undated(table, line, proc, time))
      && (o.Keep? <==> time != "" && proc != "" && (date != "" || allowUndated) && ValidTime(time))
      && (o.Keep? ==> o.record == Record(date, time, proc, line, table))
      && (o.Reject? <==> time != "" && proc != "" && (date != "" || allowUndated) && !ValidTime(time))
      && (o.Reject? ==> o.error == BadTime(table, line, time))
  {
    ParseTimeMatches(time);
  }

  /** A record is made of the row's own cells, its carried date, its line
      and its table; it is made only from a row whose time matches `%H:%M`
      and whose date is in force or allowed to be missing. */
  lemma {:induction false} ClassifyKeep(date: string, time: string, proc: string, allowUndated: bool,
                     table: nat, line: nat, rec: Record)
    requires Classify(date, time, proc, allowUndated, table, line) == Keep(rec)
    ensures rec == Record(date, time, proc, line, table)
    ensures ValidTime(time) && proc != "" && (date != "" || allowUndated)
  {
    ParseTimeMatches(time);
  }

  // ----------------------------------------------------- the stateless view

  /** The date in force at entry `i`: its own date cell when non-empty,
      otherwise the one in force at the entry above; empty at the top. */
  function DateAt(es: seq<Entry>, i: nat): string
    requires i < |es|
  {
    if es[i].date != "" then es[i].date
    else if i == 0 then ""
    else DateAt(es, i - 1)
  }

  /** No date is in force exactly when every date cell so far is empty. */
  lemma {:induction false} DateAtEmpty(es: seq<Entry>, i: nat)
    requires i < |es|
    ensures DateAt(es, i) == "" <==> forall j :: 0 <= j <= i ==> es[j].date == ""
  {
    if i > 0 && es[i].date == "" {
      DateAtEmpty(es, i - 1);
    }
  }

  /** A date in force is the last non-empty date cell at or above the entry. */
  lemma {:induction false} DateAtIsLast(es: seq<Entry>, i: nat)
    requires i < |es| && DateAt(es, i) != ""
    ensures exists j :: 0 <= j <= i && DateAt(es, i) == es[j].date
                        && forall j' :: j < j' <= i ==> es[j'].date == ""
  {
    if es[i].date == "" {
      DateAtIsLast(es, i - 1);
      var j :| 0 <= j <= i - 1 && DateAt(es, i - 1) == es[j].date
               && forall j' :: j < j' <= i - 1 ==> es[j'].date == "";
      assert forall j' :: j < j' <= i ==> es[j'].date == "";
    }
  }

  /** The outcome of entry `i`, computed from the entries alone; entry `i`
      is row `i + 1` of the table, on line `i + 2`. */
  function Expected(es: seq<Entry>, table: nat, allowUndated: bool, i: nat): RowOutcome
    requires i < |es|
  {
    Classify(DateAt(es, i), es[i].time, es[i].procedure, allowUndated, table, i + 2)
  }

  // -------------------------------------------------------- the single pass

  /** The loop over entries `i ..`, carrying the date in force. */
  function Pass(es: seq<Entry>, table: nat, allowUndated: bool, i: nat, carried: string)
    : (outs: seq<RowOutcome>)
    requires i <= |es|
    ensures |outs| == |es| - i
    decreases |es| - i
  {
    if i == |es| then []
    else
      var date := if es[i].date != "" then es[i].date else carried;
      [Classify(date, es[i].time, es[i].procedure, allowUndated, table, i + 2)]
        + Pass(es, table, allowUndated, i + 1, date)
  }

  /** The single pass agrees, entry for entry, with the stateless view:
      outcome `k` of the pass from entry `i` is the expected outcome of
      entry `i + k`. */
  lemma {:induction false} PassExpected(es: seq<Entry>, table: nat, allowUndated: bool,
                                        i: nat, carried: string, k: nat)
    requires i <= |es| && k < |es| - i
    requires carried == if i == 0 then "" else DateAt(es, i - 1)
    ensures Pass(es, table, allowUndated, i, carried)[k] == Expected(es, table, allowUndated, i + k)
    decreases k
  {
    var date := if es[i].date != "" then es[i].date else carried;
    assert date == DateAt(es, i);
    var outs := Pass(es, table, allowUndated, i, carried);
    var rest := Pass(es, table, allowUndated, i + 1, date);
    assert outs == [Classify(date, es[i].time, es[i].procedure, allowUndated, table, i + 2)] + rest;
    if k > 0 {
      PassExpected(es, table, allowUndated, i + 1, date, k - 1);
      assert outs[k] == rest[k - 1];
      assert i + 1 + (k - 1) == i + k;
    }
  }

  // ------------------------------------------------------ gathering entries

  function Records(outs: seq<RowOutcome>): (recs: seq<Record>)
    ensures |recs| <= |outs|
  {
    if |outs| == 0 then []
    else (if outs[0].Keep? then [outs[0].record] else []) + Records(outs[1..])
  }

  function Errors(outs: seq<RowOutcome>): (errs: seq<TimeError>)
    ensures |errs| <= |outs|
  {
    if |outs| == 0 then []
    else (if outs[0].Reject? then [outs[0].error] else []) + Errors(outs[1..])
  }

  function Warnings(outs: seq<RowOutcome>): (ws: seq<Warning>)
    ensures |ws| <= |outs|
  {
    if |outs| == 0 then []
    else (if outs[0].Warn? then [outs[0].warning] else []) + Warnings(outs[1..])
  }

  function Gather(outs: seq<RowOutcome>): Extraction {
    Extraction(Records(outs), Errors(outs), Warnings(outs))
  }

  /** Each list holds exactly the entries of its kind that the rows produced. */
  lemma {:induction false} GatherMembers(outs: seq<RowOutcome>)
    ensures forall r :: r in Records(outs) <==> Keep(r) in outs
    ensures forall e :: e in Errors(outs) <==> Reject(e) in outs
    ensures forall w :: w in Warnings(outs) <==> Warn(w) in outs
  {
    RecordsMembers(outs);
    ErrorsMembers(outs);
    WarningsMembers(outs);
  }

  lemma {:induction false} RecordsMembers(outs: seq<RowOutcome>)
    ensures forall r :: r in Records(outs) <==> Keep(r) in outs
  {
    if |outs| > 0 {
      RecordsMembers(outs[1..]);
      assert outs == [outs[0]] + outs[1..];
    }
  }

  lemma {:induction false} ErrorsMembers(outs: seq<RowOutcome>)
    ensures forall e :: e in Errors(outs) <==> Reject(e) in outs
  {
    if |outs| > 0 {
      ErrorsMembers(outs[1..]);
      assert outs == [outs[0]] + outs[1..];
    }
  }

  lemma {:induction false} WarningsMembers(outs: seq<RowOutcome>)
    ensures forall w :: w in Warnings(outs) <==> Warn(w) in outs
  {
    if |outs| > 0 {
      WarningsMembers(outs[1..]);
      assert outs == [outs[0]] + outs[1..];
    }
  }

  /** Gathering the rows of two tables gathers each and appends. */
  lemma {:induction false} GatherAppend(a: seq<RowOutcome>, b: seq<RowOutcome>)
    ensures Records(a + b) == Records(a) + Records(b)
    ensures Errors(a + b) == Errors(a) + Errors(b)
    ensures Warnings(a + b) == Warnings(a) + Warnings(b)
  {
    RecordsAppend(a, b);
    ErrorsAppend(a, b);
    WarningsAppend(a, b);
  }

  lemma {:induction false} RecordsAppend(a: seq<RowOutcome>, b: seq<RowOutcome>)
    ensures Records(a + b) == Records(a) + Records(b)
  {
    if |a| == 0 {
      assert a + b == b;
    } else {
      var h := if a[0].Keep? then [a[0].record] else [];
      calc {
        Records(a + b);
        == { assert (a + b)[0] == a[0]; assert (a + b)[1..] == a[1..] + b; }
        h + Records(a[1..] + b);
        == { RecordsAppend(a[1..], b); }
        h + (Records(a[1..]) + Records(b));
        == (h + Records(a[1..])) + Records(b);
        == Records(a) + Records(b);
      }
    }
  }


  lemma {:induction false} ErrorsAppend(a: seq<RowOutcome>, b: seq<RowOutcome>)
    ensures Errors(a + b) == Errors(a) + Errors(b)
  {
    if |a| == 0 {
      assert a + b == b;
    } else {
      var h := if a[0].Reject? then [a[0].error] else [];
      calc {
        Errors(a + b);
        == { assert (a + b)[0] == a[0]; assert (a + b)[1..] == a[1..] + b; }
        h + Errors(a[1..] + b);
        == { ErrorsAppend(a[1..], b); }
        h + (Errors(a[1..]) + Errors(b));
        == (h + Errors(a[1..])) + Errors(b);
        == Errors(a) + Errors(b);
      }
    }
  }


  lemma {:induction false} WarningsAppend(a: seq<RowOutcome>, b: seq<RowOutcome>)
    ensures Warnings(a + b) == Warnings(a) + Warnings(b)
  {
    if |a| == 0 {
      assert a + b == b;
    } else {
      var h := if a[0].Warn? then [a[0].warning] else [];
      calc {
        Warnings(a + b);
        == { assert (a + b)[0] == a[0]; assert (a + b)[1..] == a[1..] + b; }
        h + Warnings(a[1..] + b);
        == { WarningsAppend(a[1..], b); }
        h + (Warnings(a[1..]) + Warnings(b));
        == (h + Warnings(a[1..])) + Warnings(b);
        == Warnings(a) + Warnings(b);
      }
    }
  }


  // ---------------------------------------------------------- document order

  /** Position `(t1, l1)` comes before `(t2, l2)` in the document. */
  predicate Precedes(t1: nat, l1: nat, t2: nat, l2: nat) {
    t1 < t2 || (t1 == t2 && l1 < l2)
  }

  predicate RecordsInOrder(recs: seq<Record>) {
    forall a, b :: 0 <= a < b < |recs| ==>
      Precedes(recs[a].table, recs[a].line, recs[b].table, recs[b].line)
  }

  predicate ErrorsInOrder(errs: seq<TimeError>) {
    forall a, b :: 0 <= a < b < |errs| ==>
      Precedes(errs[a].table, errs[a].line, errs[b].table, errs[b].line)
  }

  /** The rows of one table, stamped with lines `first ..` in order, give
      records and errors in line order, all from that table. */
  lemma {:induction false} StampedInOrder(outs: seq<RowOutcome>, table: nat, first: nat)
    requires forall k :: 0 <= k < |outs| ==> Stamped(outs[k], table, first + k)
    ensures forall k :: 0 <= k < |Records(outs)| ==>
              Records(outs)[k].table == table && Records(outs)[k].line >= first
    ensures RecordsInOrder(Records(outs))
    ensures forall k :: 0 <= k < |Errors(outs)| ==>
              Errors(outs)[k].table == table && Errors(outs)[k].line >= first
    ensures ErrorsInOrder(Errors(outs))
  {
    if |outs| > 0 {
      assert forall k :: 0 <= k < |outs[1..]| ==> Stamped(outs[1..][k], table, first + 1 + k) by {
        forall k | 0 <= k < |outs[1..]|
          ensures Stamped(outs[1..][k], table, first + 1 + k)
        {
          assert outs[1..][k] == outs[k + 1];
        }
      }
      StampedInOrder(outs[1..], table, first + 1);
      assert Stamped(outs[0], table, first);
    }
  }

  // ------------------------------------------------------------- one table

  /** The data rows of a table read with the columns `cols`: the outcome
      of each, or the fault of the first row too short for the columns. */
  function ReadRows(t: Table, cols: Columns, table: nat, allowUndated: bool)
    : (r: Result<seq<RowOutcome>, Fault>)
    requires |t| > 0
    ensures r.Success? ==> |r.value| == |t| - 1
  {
    match Entries(t, cols, table)
    case Failure(f) => Failure(f)
    case Success(es) => Success(Pass(es, table, allowUndated, 0, ""))
  }

  /** Read rows: data row `k`'s outcome is the one the stateless view
      gives its entry. */
  lemma {:induction false} ReadRowsExpected(t: Table, cols: Columns, table: nat, allowUndated: bool, k: nat)
    requires |t| > 0 && ReadRows(t, cols, table, allowUndated).Success? && k < |t| - 1
    ensures Entries(t, cols, table).Success?
    ensures ReadRows(t, cols, table, allowUndated).value[k]
            == Expected(Entries(t, cols, table).value, table, allowUndated, k)
  {
    var es := Entries(t, cols, table).value;
    assert ReadRows(t, cols, table, allowUndated) == Success(Pass(es, table, allowUndated, 0, ""));
    PassExpected(es, table, allowUndated, 0, "", k);
  }

  /** One table of the document, numbered `table` from 1: the outcome of each
      data row, none when the header row does not name every expected
      column, or the exception the scan raises. */
  function ScanTable(t: Table, table: nat, config: Config): (r: Result<seq<RowOutcome>, Fault>)
    ensures |t| == 0 <==> r == Failure(NoHeaderRow(table))
    ensures |t| > 0 && !Accepts(HeaderNames(t[0]), config.expectedColumns) ==> r == Success([])
    ensures |t| > 0 && Accepts(HeaderNames(t[0]), config.expectedColumns) && r.Success? ==>
              |r.value| == |t| - 1
  {
    if |t| == 0 then Failure(NoHeaderRow(table))
    else
      var names := HeaderNames(t[0]);
      if !Accepts(names, config.expectedColumns) then Success([])
      else match ColumnsOf(names, table)
        case Failure(f) => Failure(f)
        case Success(cols) => ReadRows(t, cols, table, config.allowUndated)
  }

  /** A read table: its columns are found and its rows are long enough. */
  lemma {:induction false} ScanTableRows(t: Table, table: nat, config: Config)
    requires |t| > 0 && Accepts(HeaderNames(t[0]), config.expectedColumns)
    requires ScanTable(t, table, config).Success?
    ensures var cols := ColumnsOf(HeaderNames(t[0]), table);
            && cols.Success?
            && Entries(t, cols.value, table).Success?
            && ScanTable(t, table, config) == ReadRows(t, cols.value, table, config.allowUndated)
  {
    var names := HeaderNames(t[0]);
    assert ColumnsOf(names, table).Success?;
    var cols := ColumnsOf(names, table).value;
    assert ScanTable(t, table, config) == ReadRows(t, cols, table, config.allowUndated);
  }

  /** In a read table, the outcome of data row `k` (line `k + 2`) is the one
      the stateless view gives its entry. */
  lemma {:induction false} ScanTableAt(t: Table, table: nat, config: Config, k: nat)
    requires |t| > 0 && Accepts(HeaderNames(t[0]), config.expectedColumns)
    requires ScanTable(t, table, config).Success? && k < |t| - 1
    ensures var cols := ColumnsOf(HeaderNames(t[0]), table).value;
            && Entries(t, cols, table).Success?
            && ScanTable(t, table, config).value[k]
               == Expected(Entries(t, cols, table).value, table, config.allowUndated, k)
  {
    ScanTableRows(t, table, config);
    var cols := ColumnsOf(HeaderNames(t[0]), table).value;
    ReadRowsExpected(t, cols, table, config.allowUndated, k);
  }

  /** Every outcome of a read table is stamped with the table's number and
      the line of its row: data row `k` is on line `k + 2`. */
  lemma {:induction false} ScanTableStamped(t: Table, table: nat, config: Config)
    requires ScanTable(t, table, config).Success?
    ensures TableStamped(ScanTable(t, table, config).value, table)
  {
    var outs := ScanTable(t, table, config).value;
    if |t| > 0 && Accepts(HeaderNames(t[0]), config.expectedColumns) {
      forall k | 0 <= k < |outs|
        ensures Stamped(outs[k], table, k + 2)
      {
        ScanTableAt(t, table, config, k);
      }
    }
  }

  /** Every record of a table comes from a data row, never the header: the
      table was read, and the record is built from entry `k`, which is data
      row `k + 1` cleaned, on line `k + 2`: its start and procedure are that
      row's cells and its date is the date in force there (the last
      non-empty date cell at or above it). */
  lemma {:induction false} TableRecord(t: Table, table: nat, config: Config, rec: Record) returns (k: nat)
    requires ScanTable(t, table, config).Success?
    requires rec in Records(ScanTable(t, table, config).value)
    ensures |t| > 0 && Accepts(HeaderNames(t[0]), config.expectedColumns)
    ensures k < |t| - 1
    ensures var cols := ColumnsOf(HeaderNames(t[0]), table);
            && cols.Success?
            && var es := Entries(t, cols.value, table);
            && es.Success?
            && Fits(t[k + 1], cols.value)
            && es.value[k] == EntryOf(t[k + 1], cols.value)
            && rec == Record(DateAt(es.value, k), es.value[k].time, es.value[k].procedure, k + 2, table)
  {
    var outs := ScanTable(t, table, config).value;
    RecordsMembers(outs);
    k :| 0 <= k < |outs| && outs[k] == Keep(rec);
    ScanTableAt(t, table, config, k);
    var cols := ColumnsOf(HeaderNames(t[0]), table).value;
    var es := Entries(t, cols, table).value;
    ClassifyKeep(DateAt(es, k), es[k].time, es[k].procedure, config.allowUndated, table, k + 2, rec);
    EntriesSuccess(t, cols, table);
  }

  /** Every record of a table has a start that matches `%H:%M` and a
      non-empty, upper-case procedure; its date is empty only when undated
      rows are allowed. */
  lemma {:induction false} TableRecordValid(t: Table, table: nat, config: Config, rec: Record)
    requires ScanTable(t, table, config).Success?
    requires rec in Records(ScanTable(t, table, config).value)
    ensures rec.table == table && 2 <= rec.line <= |t|
    ensures ValidTime(rec.start) && rec.procedure != "" && IsUpper(rec.procedure)
    ensures rec.date != "" || config.allowUndated
  {
    var outs := ScanTable(t, table, config).value;
    RecordsMembers(outs);
    var k :| 0 <= k < |outs| && outs[k] == Keep(rec);
    ScanTableAt(t, table, config, k);
    var cols := ColumnsOf(HeaderNames(t[0]), table).value;
    var es := Entries(t, cols, table).value;
    ClassifyKeep(DateAt(es, k), es[k].time, es[k].procedure, config.allowUndated, table, k + 2, rec);
    EntriesSuccess(t, cols, table);
  }

  /** In a table's outcomes, a record, error or warning on line `k + 2`
      can only be the outcome of data row `k`. */
  lemma {:induction false} OnlyRecord(outs: seq<RowOutcome>, table: nat, k: nat)
    requires TableStamped(outs, table) && k < |outs|
    ensures forall r :: r in Records(outs) && r.line == k + 2 ==> outs[k] == Keep(r)
  {
    RecordsMembers(outs);
    forall r | r in Records(outs) && r.line == k + 2
      ensures outs[k] == Keep(r)
    {
      var j :| 0 <= j < |outs| && outs[j] == Keep(r);
      assert Stamped(outs[j], table, j + 2);
    }
  }

  lemma {:induction false} OnlyError(outs: seq<RowOutcome>, table: nat, k: nat)
    requires TableStamped(outs, table) && k < |outs|
    ensures forall e :: e in Errors(outs) && e.line == k + 2 ==> outs[k] == Reject(e)
  {
    ErrorsMembers(outs);
    forall e | e in Errors(outs) && e.line == k + 2
      ensures outs[k] == Reject(e)
    {
      var j :| 0 <= j < |outs| && outs[j] == Reject(e);
      assert Stamped(outs[j], table, j + 2);
    }
  }

  /** Entry `k` (line `k + 2`) with a time and a procedure, when no date
      cell at or above it is filled and undated rows are not allowed,
      yields a warning and neither a record nor an error. */
  lemma {:induction false} UndatedRowWarns(t: Table, table: nat, config: Config, k: nat)
    requires |t| > 0 && Accepts(HeaderNames(t[0]), config.expectedColumns)
    requires ScanTable(t, table, config).Success?
    requires k < |t| - 1 && !config.allowUndated
    ensures var cols := ColumnsOf(HeaderNames(t[0]), table).value;
            var es := Entries(t, cols, table).value;
            var outs := ScanTable(t, table, config).value;
            es[k].time != "" && es[k].procedure != "" && (forall j :: 0 <= j <= k ==> es[j].date == "") ==>
              && Undated(table, k + 2, es[k].procedure, es[k].time) in Warnings(outs)
              && (forall r :: r in Records(outs) ==> r.line != k + 2)
              && (forall x :: x in Errors(outs) ==> x.line != k + 2)
  {
    var cols := ColumnsOf(HeaderNames(t[0]), table).value;
    var outs := ScanTable(t, table, config).value;
    ScanTableAt(t, table, config, k);
    ScanTableStamped(t, table, config);
    var es := Entries(t, cols, table).value;
    var e := es[k];
    if e.time != "" && e.procedure != "" && forall j :: 0 <= j <= k ==> es[j].date == "" {
      DateAtEmpty(es, k);
      ClassifyCases(DateAt(es, k), e.time, e.procedure, config.allowUndated, table, k + 2);
      assert outs[k] == Warn(Undated(table, k + 2, e.procedure, e.time));
      OnlyRecord(outs, table, k);
      OnlyError(outs, table, k);
      WarningsMembers(outs);
    }
  }

  /** Entry `k` (line `k + 2`) with a procedure and a time that does not
      match `%H:%M`, when a date is in force or undated rows are allowed,
      yields exactly one error, at its line, gathered once, and no record. */
  lemma {:induction false} BadTimeOneError(t: Table, table: nat, config: Config, k: nat)
    requires |t| > 0 && Accepts(HeaderNames(t[0]), config.expectedColumns)
    requires ScanTable(t, table, config).Success?
    requires k < |t| - 1
    ensures var cols := ColumnsOf(HeaderNames(t[0]), table).value;
            var es := Entries(t, cols, table).value;
            var outs := ScanTable(t, table, config).value;
            es[k].time != "" && es[k].procedure != "" && !ValidTime(es[k].time)
            && (DateAt(es, k) != "" || config.allowUndated) ==>
              && BadTime(table, k + 2, es[k].time) in Errors(outs)
              && (forall x :: x in Errors(outs) && x.line == k + 2 ==> x == BadTime(table, k + 2, es[k].time))
              && (forall r :: r in Records(outs) ==> r.line != k + 2)
              && multiset(Errors(outs))[BadTime(table, k + 2, es[k].time)] == 1
  {
    var cols := ColumnsOf(HeaderNames(t[0]), table).value;
    var outs := ScanTable(t, table, config).value;
    ScanTableAt(t, table, config, k);
    ScanTableStamped(t, table, config);
    var es := Entries(t, cols, table).value;
    var e := es[k];
    ClassifyCases(DateAt(es, k), e.time, e.procedure, config.allowUndated, table, k + 2);
    if e.time != "" && e.procedure != "" && !ValidTime(e.time) && (DateAt(es, k) != "" || config.allowUndated) {
      assert outs[k] == Reject(BadTime(table, k + 2, e.time));
      OnlyRecord(outs, table, k);
      OnlyError(outs, table, k);
      ErrorsMembers(outs);
      ErrorOnce(outs, table, 2, BadTime(table, k + 2, e.time));
    }
  }

  /** In outcomes stamped with consecutive lines, an error that occurs is
      gathered exactly once: no two outcomes share a line. */
  lemma {:induction false} ErrorOnce(outs: seq<RowOutcome>, table: nat, base: nat, e: TimeError)
    requires forall k :: 0 <= k < |outs| ==> Stamped(outs[k], table, base + k)
    requires Reject(e) in outs
    ensures multiset(Errors(outs))[e] == 1
  {
    var rest := outs[1..];
    assert forall k :: 0 <= k < |rest| ==> Stamped(rest[k], table, base + 1 + k) by {
      forall k | 0 <= k < |rest| ensures Stamped(rest[k], table, base + 1 + k) {
        assert rest[k] == outs[k + 1];
      }
    }
    if outs[0] == Reject(e) {
      ErrorsMembers(rest);
      assert e !in Errors(rest);
    } else {
      assert Reject(e) in rest by {
        var j :| 0 <= j < |outs| && outs[j] == Reject(e);
        assert rest[j - 1] == outs[j];
      }
      ErrorOnce(rest, table, base + 1, e);
    }
  }

  // ---------------------------------------------------------- the document

  /** The per-table results, in document order, appended until the first fault. */
  function Combine(rs: seq<Result<seq<RowOutcome>, Fault>>): (r: Result<seq<RowOutcome>, Fault>)
  {
    if |rs| == 0 then Success([])
    else match rs[0]
      case Failure(f) => Failure(f)
      case Success(outs) =>
        match Combine(rs[1..])
        case Failure(f) => Failure(f)
        case Success(more) => Success(outs + more)
  }

  /** The scan of each table of the document, numbered from 1. */
  function Tables(ts: seq<Table>, config: Config): (rs: seq<Result<seq<RowOutcome>, Fault>>)
    ensures |rs| == |ts|
  {
    seq(|ts|, j requires 0 <= j < |ts| => ScanTable(ts[j], j + 1, config))
  }

  /** Result `j` is the scan of table `j`, numbered `j + 1`. */
  lemma {:induction false} TablesAt(ts: seq<Table>, config: Config, j: nat)
    requires j < |ts|
    ensures Tables(ts, config)[j] == ScanTable(ts[j], j + 1, config)
  {
  }

  lemma {:induction false} TableStampedAt(ts: seq<Table>, config: Config, j: nat)
    requires j < |ts| && Tables(ts, config)[j].Success?
    ensures TableStamped(Tables(ts, config)[j].value, j + 1)
  {
    TablesAt(ts, config, j);
    ScanTableStamped(ts[j], j + 1, config);
  }

  lemma {:induction false} TablesStamped(ts: seq<Table>, config: Config)
    ensures AllStamped(Tables(ts, config), 0)
  {
    var rs := Tables(ts, config);
    forall j | 0 <= j < |rs| && rs[j].Success?
      ensures TableStamped(rs[j].value, 0 + j + 1)
    {
      TableStampedAt(ts, config, j);
    }
  }

  /** The whole scan: every table, numbered from 1, then the records, time
      errors and date warnings of all of them in document order. */
  function ScanDocument(ts: seq<Table>, config: Config): (r: Result<Extraction, Fault>)
    ensures |ts| == 0 ==> r == Success(Extraction([], [], []))
  {
    match Combine(Tables(ts, config))
    case Failure(f) => Failure(f)
    case Success(outs) => Success(Gather(outs))
  }

  /** The appended results succeed exactly when every table does. */
  lemma {:induction false} CombineSuccess(rs: seq<Result<seq<RowOutcome>, Fault>>)
    ensures Combine(rs).Success? <==> forall j :: 0 <= j < |rs| ==> rs[j].Success?
  {
    if |rs| > 0 {
      CombineSuccess(rs[1..]);
      assert forall j :: 1 <= j < |rs| ==> rs[j] == rs[1..][j - 1];
    }
  }

  /** A failed scan carries the fault of the first table that failed. */
  lemma {:induction false} CombineFault(rs: seq<Result<seq<RowOutcome>, Fault>>) returns (j: nat)
    requires Combine(rs).Failure?
    ensures j < |rs| && rs[j].Failure? && Combine(rs).error == rs[j].error
    ensures forall j' :: 0 <= j' < j ==> rs[j'].Success?
  {
    if rs[0].Failure? {
      j := 0;
    } else {
      var j' := CombineFault(rs[1..]);
      j := j' + 1;
      assert rs[j] == rs[1..][j'];
      assert forall i :: 1 <= i < j ==> rs[i] == rs[1..][i - 1];
    }
  }

  predicate AllStamped(rs: seq<Result<seq<RowOutcome>, Fault>>, n: nat) {
    forall j :: 0 <= j < |rs| && rs[j].Success? ==> TableStamped(rs[j].value, n + j + 1)
  }

  lemma {:induction false} AllStampedTail(rs: seq<Result<seq<RowOutcome>, Fault>>, n: nat)
    requires |rs| > 0 && AllStamped(rs, n)
    ensures AllStamped(rs[1..], n + 1)
  {
    forall j | 0 <= j < |rs[1..]| && rs[1..][j].Success?
      ensures TableStamped(rs[1..][j].value, n + 1 + j + 1)
    {
      assert rs[1..][j] == rs[j + 1];
    }
  }

  /** Records and time errors come out in document order, by table and then
      by line, from tables `n + 1 .. n + |rs|`. */
  lemma {:induction false} CombineInOrder(rs: seq<Result<seq<RowOutcome>, Fault>>, n: nat)
    requires Combine(rs).Success? && AllStamped(rs, n)
    ensures var outs := Combine(rs).value;
            && (forall k :: 0 <= k < |Records(outs)| ==> n < Records(outs)[k].table <= n + |rs|)
            && RecordsInOrder(Records(outs))
            && (forall k :: 0 <= k < |Errors(outs)| ==> n < Errors(outs)[k].table <= n + |rs|)
            && ErrorsInOrder(Errors(outs))
  {
    if |rs| > 0 {
      var first := rs[0].value;
      var more := Combine(rs[1..]).value;
      assert Combine(rs).value == first + more;
      AllStampedTail(rs, n);
      CombineInOrder(rs[1..], n + 1);
      assert TableStamped(first, n + 1);
      StampedInOrder(first, n + 1, 2);
      RecordsAppend(first, more);
      ErrorsAppend(first, more);
    }
  }

  /** A record of the document comes from the table its stamp names. */
  lemma {:induction false} CombineSource(rs: seq<Result<seq<RowOutcome>, Fault>>, n: nat, rec: Record)
    returns (j: nat)
    requires Combine(rs).Success? && AllStamped(rs, n)
    requires rec in Records(Combine(rs).value)
    ensures j < |rs| && rs[j].Success? && rec in Records(rs[j].value) && rec.table == n + j + 1
  {
    var first := rs[0].value;
    var more := Combine(rs[1..]).value;
    assert Combine(rs).value == first + more;
    RecordsAppend(first, more);
    if rec in Records(first) {
      j := 0;
      assert TableStamped(first, n + 1);
      StampedInOrder(first, n + 1, 2);
    } else {
      AllStampedTail(rs, n);
      var j' := CombineSource(rs[1..], n + 1, rec);
      j := j' + 1;
      assert rs[j] == rs[1..][j'];
    }
  }

  /** The scan of a document succeeds exactly when the scan of every table does. */
  lemma {:induction false} DocumentSuccess(ts: seq<Table>, config: Config)
    ensures ScanDocument(ts, config).Success? <==>
              forall j :: 0 <= j < |ts| ==> ScanTable(ts[j], j + 1, config).Success?
  {
    var rs := Tables(ts, config);
    assert ScanDocument(ts, config).Success? <==> Combine(rs).Success?;
    CombineSuccess(rs);
    forall j | 0 <= j < |ts|
      ensures rs[j] == ScanTable(ts[j], j + 1, config)
    {
      TablesAt(ts, config, j);
    }
  }

  /** A failed scan of a document carries the fault of its first failing table. */
  lemma {:induction false} DocumentFault(ts: seq<Table>, config: Config) returns (j: nat)
    requires ScanDocument(ts, config).Failure?
    ensures j < |ts| && ScanTable(ts[j], j + 1, config).Failure?
    ensures ScanDocument(ts, config).error == ScanTable(ts[j], j + 1, config).error
    ensures forall j' :: 0 <= j' < j ==> ScanTable(ts[j'], j' + 1, config).Success?
  {
    var rs := Tables(ts, config);
    assert Combine(rs).Failure? && ScanDocument(ts, config).error == Combine(rs).error;
    j := CombineFault(rs);
    forall j' | 0 <= j' <= j
      ensures rs[j'] == ScanTable(ts[j'], j' + 1, config)
    {
      TablesAt(ts, config, j');
    }
  }

  /** The document's records and time errors are in document order: by
      table, then by line. */
  lemma {:induction false} DocumentInOrder(ts: seq<Table>, config: Config)
    requires ScanDocument(ts, config).Success?
    ensures RecordsInOrder(ScanDocument(ts, config).value.records)
    ensures ErrorsInOrder(ScanDocument(ts, config).value.errors)
  {
    var rs := Tables(ts, config);
    TablesStamped(ts, config);
    CombineInOrder(rs, 0);
  }

  /** Every record of the document comes from a data row of the table it
      names, where its date is the one in force, its start matches `%H:%M`,
      and its procedure is non-empty and upper-case; its date is empty only
      when undated rows are allowed. */
  lemma {:induction false} DocumentRecord(ts: seq<Table>, config: Config, rec: Record)
    requires ScanDocument(ts, config).Success?
    requires rec in ScanDocument(ts, config).value.records
    ensures 1 <= rec.table <= |ts|
    ensures var t := ts[rec.table - 1];
            && ScanTable(t, rec.table, config).Success?
            && rec in Records(ScanTable(t, rec.table, config).value)
            && 2 <= rec.line <= |t|
    ensures ValidTime(rec.start) && rec.procedure != "" && IsUpper(rec.procedure)
    ensures rec.date != "" || config.allowUndated
  {
    var rs := Tables(ts, config);
    TablesStamped(ts, config);
    var j := CombineSource(rs, 0, rec);
    TablesAt(ts, config, j);
    TableRecordValid(ts[j], j + 1, config, rec);
  }
}
