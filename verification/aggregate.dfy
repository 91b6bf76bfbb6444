/** The two aggregation steps run after the stock statement exists: the
    merge of all its sheets into one de-duplicated table, and the merge of
    the per-bill toll tables with the `TollUniq` summary of the states each
    bill passed through. Tables are pandas frames: an ordered list of
    column names and rows that map column names to cells, where a column a
    row has no cell in stands for pandas' missing value. */
module Aggregate {
  import opened Wrappers
  import Text
  import Seqs

  /** A cell: an integer (the bill numbers) or a text. */
  datatype Cell = Num(n: int) | Txt(s: string)

  type Row = map<string, Cell>

  datatype Frame = Frame(columns: seq<string>, rows: seq<Row>)

  /** The cell of `column`, `None` when it is missing. */
  function Get(r: Row, column: string): Option<Cell> {
    if column in r then Some(r[column]) else None
  }

  /** pandas' `df[name] = value`: the column is appended unless it exists,
      and every row gets `value` in it. */
  function SetColumn(f: Frame, name: string, value: Cell): (g: Frame)
    ensures forall c :: c in g.columns <==> c in f.columns || c == name
    ensures |g.columns| == if name in f.columns then |f.columns| else |f.columns| + 1
    ensures |g.rows| == |f.rows|
  {
    Frame(if name in f.columns then f.columns else f.columns + [name],
          seq(|f.rows|, i requires 0 <= i < |f.rows| => f.rows[i][name := value]))
  }

  /** Every row of the result holds `value` in the set column and keeps all
      its other cells. */
  lemma SetColumnCells(f: Frame, name: string, value: Cell, i: nat, c: string)
    requires i < |f.rows|
    ensures i < |SetColumn(f, name, value).rows|
    ensures Get(SetColumn(f, name, value).rows[i], c) == if c == name then Some(value) else Get(f.rows[i], c)
  {
  }

  // ---------------------------------------------------------------------
  // Concatenation and duplicate removal

  /** The column lists of `frames`, one after the other. */
  function AllColumns(frames: seq<Frame>): (cs: seq<string>)
    ensures forall c :: c in cs <==> exists k :: 0 <= k < |frames| && c in frames[k].columns
  {
    if |frames| == 0 then []
    else
      var init := frames[..|frames| - 1];
      var cs := AllColumns(init) + frames[|frames| - 1].columns;
      assert forall k :: 0 <= k < |init| ==> init[k] == frames[k];
      cs
  }

  /** The number of rows of all frames together. */
  function RowCount(frames: seq<Frame>): nat {
    if |frames| == 0 then 0 else RowCount(frames[..|frames| - 1]) + |frames[|frames| - 1].rows|
  }

  /** The rows of `frames`, one frame after the other. */
  function AllRows(frames: seq<Frame>): (rs: seq<Row>)
    ensures forall r :: r in rs <==> exists k :: 0 <= k < |frames| && r in frames[k].rows
    ensures |rs| == RowCount(frames)
  {
    if |frames| == 0 then []
    else
      var init := frames[..|frames| - 1];
      var rs := AllRows(init) + frames[|frames| - 1].rows;
      assert forall k :: 0 <= k < |init| ==> init[k] == frames[k];
      rs
  }

  /** pandas' `concat(frames, ignore_index=True)`: the union of the columns
      in order of first appearance, and all rows in frame order; a row
      lacking one of the union's columns has a missing cell there. */
  function Concat(frames: seq<Frame>): (f: Frame)
    ensures forall c :: c in f.columns <==> exists k :: 0 <= k < |frames| && c in frames[k].columns
    ensures Seqs.NoDuplicates(f.columns)
    ensures forall r :: r in f.rows <==> exists k :: 0 <= k < |frames| && r in frames[k].rows
    ensures |f.rows| == RowCount(frames)
  {
    Frame(Seqs.Distinct(AllColumns(frames)), AllRows(frames))
  }

  /** Row `i` of frame `k` is row `i` of the concatenation once the rows of
      the frames before `k` are counted: the frames are laid out in order,
      each keeping its own row order and duplicates. */
  lemma {:induction false} ConcatRowsAt(frames: seq<Frame>, k: nat, i: nat)
    requires k < |frames| && i < |frames[k].rows|
    ensures RowCount(frames[..k]) + i < |Concat(frames).rows|
    ensures Concat(frames).rows[RowCount(frames[..k]) + i] == frames[k].rows[i]
  {
    var init := frames[..|frames| - 1];
    if k < |frames| - 1 {
      assert init[k] == frames[k];
      assert init[..k] == frames[..k];
      ConcatRowsAt(init, k, i);
    } else {
      assert frames[..k] == init;
    }
  }

  /** Position `j` of the concatenation is row `i` of frame `k`. */
  predicate RowPosition(frames: seq<Frame>, j: nat, k: nat, i: nat) {
    k < |frames| && i < |frames[k].rows| && j == RowCount(frames[..k]) + i
  }

  /** Every row of the concatenation comes from one position of one frame. */
  lemma {:induction false} ConcatRowOrigin(frames: seq<Frame>, j: nat)
    requires j < |Concat(frames).rows|
    ensures exists k: nat, i: nat :: RowPosition(frames, j, k, i)
  {
    var init := frames[..|frames| - 1];
    if j < RowCount(init) {
      ConcatRowOrigin(init, j);
      var k: nat, i: nat :| RowPosition(init, j, k, i);
      assert init[..k] == frames[..k] && init[k] == frames[k];
      assert RowPosition(frames, j, k, i);
    } else {
      var k := |frames| - 1;
      assert frames[..k] == init;
      assert RowPosition(frames, j, k, j - RowCount(init));
    }
  }

  /** pandas' `drop_duplicates()`: the first of every group of equal rows. */
  function DropDuplicates(f: Frame): (g: Frame)
    ensures g.columns == f.columns
    ensures Seqs.NoDuplicates(g.rows) && |g.rows| <= |f.rows|
    ensures forall r :: r in g.rows <==> r in f.rows
  {
    Frame(f.columns, Seqs.Distinct(f.rows))
  }

  /** Dropping duplicates a second time changes nothing. */
  lemma DropDuplicatesIdempotent(f: Frame)
    ensures DropDuplicates(DropDuplicates(f)) == DropDuplicates(f)
  {
    Seqs.DistinctIdempotent(f.rows);
  }

  // ---------------------------------------------------------------------
  // Sheet merge (`xlsxsheetmerge`)

  const SheetNameColumn := "SheetName"

  /** A sheet of the stock statement: its name and its table. */
  datatype NamedSheet = NamedSheet(name: string, table: Frame)

  /** The sheet's table with its name in the `SheetName` column. */
  function Tagged(s: NamedSheet): Frame {
    SetColumn(s.table, SheetNameColumn, Txt(s.name))
  }

  function TaggedAll(sheets: seq<NamedSheet>): (fs: seq<Frame>)
    ensures |fs| == |sheets|
    ensures forall k :: 0 <= k < |fs| ==> fs[k] == Tagged(sheets[k])
  {
    seq(|sheets|, k requires 0 <= k < |sheets| => Tagged(sheets[k]))
  }

  /** A row of `s` as it enters the merge. */
  function TaggedRow(s: NamedSheet, i: nat): Row
    requires i < |s.table.rows|
  {
    s.table.rows[i][SheetNameColumn := Txt(s.name)]
  }

  /** The merged table of all sheets, without duplicate rows; `None` when
      the workbook has no sheet to merge (the source then writes nothing). */
  function SheetMerge(sheets: seq<NamedSheet>): (r: Option<Frame>)
    ensures r.None? <==> |sheets| == 0
    ensures r.Some? ==> Seqs.NoDuplicates(r.value.rows)
    ensures r.Some? ==> |r.value.rows| <= |AllRows(TaggedAll(sheets))|
    ensures r.Some? ==> SheetNameColumn in r.value.columns
  {
    if |sheets| == 0 then None
    else
      assert SheetNameColumn in TaggedAll(sheets)[0].columns;
      Some(DropDuplicates(Concat(TaggedAll(sheets))))
  }

  /** Every row of every sheet, tagged with its sheet's name, is in the
      merged table. */
  lemma SheetMergeCovers(sheets: seq<NamedSheet>, k: nat, i: nat)
    requires k < |sheets| && i < |sheets[k].table.rows|
    ensures SheetMerge(sheets).Some?
    ensures TaggedRow(sheets[k], i) in SheetMerge(sheets).value.rows
  {
    var fs := TaggedAll(sheets);
    assert fs[k].rows[i] == TaggedRow(sheets[k], i);
    assert TaggedRow(sheets[k], i) in fs[k].rows;
  }

  /** Every row of the merged table is a tagged row of some sheet. */
  lemma SheetMergeSound(sheets: seq<NamedSheet>, r: Row)
    requires SheetMerge(sheets).Some? && r in SheetMerge(sheets).value.rows
    ensures exists k, i :: 0 <= k < |sheets| && 0 <= i < |sheets[k].table.rows| && r == TaggedRow(sheets[k], i)
  {
    var fs := TaggedAll(sheets);
    var k :| 0 <= k < |fs| && r in fs[k].rows;
    var i :| 0 <= i < |fs[k].rows| && fs[k].rows[i] == r;
    assert r == TaggedRow(sheets[k], i);
  }

  /** Merging is stable: de-duplicating the merged table again changes
      nothing. */
  lemma SheetMergeIdempotent(sheets: seq<NamedSheet>)
    requires |sheets| > 0
    ensures DropDuplicates(SheetMerge(sheets).value) == SheetMerge(sheets).value
  {
    DropDuplicatesIdempotent(Concat(TaggedAll(sheets)));
  }

  // ---------------------------------------------------------------------
  // Toll tables (`ewb_extract_toll_details`, `xlsx_mergejoinsort_toll_details`)

  const EwbColumn := "ewb"
  const StateColumn := "State"

  /** The toll table of one bill as saved: the page's table with the bill
      number in an `ewb` column, or nothing when that leaves two columns or
      fewer (a table without toll details). */
  function TollTable(table: Frame, ewb: int): (r: Option<Frame>)
    ensures r.Some? <==> |table.columns| >= 3 || (|table.columns| == 2 && EwbColumn !in table.columns)
    ensures r.Some? ==> EwbColumn in r.value.columns && |r.value.rows| == |table.rows|
  {
    var f := SetColumn(table, EwbColumn, Num(ewb));
    if |f.columns| <= 2 then None else Some(f)
  }

  /** Every row of a saved toll table carries its bill number. */
  lemma TollTableRows(table: Frame, ewb: int, i: nat)
    requires TollTable(table, ewb).Some? && i < |table.rows|
    ensures Get(TollTable(table, ewb).value.rows[i], EwbColumn) == Some(Num(ewb))
  {
    SetColumnCells(table, EwbColumn, Num(ewb), i, EwbColumn);
  }

  /** `xs` with its element at `i` moved to the front, the others keeping
      their order. */
  function MoveToFront<T>(xs: seq<T>, i: nat): (ys: seq<T>)
    requires i < |xs|
    ensures |ys| == |xs| && ys[0] == xs[i]
    ensures multiset(ys) == multiset(xs)
  {
    assert xs == xs[..i] + [xs[i]] + xs[i + 1..];
    [xs[i]] + xs[..i] + xs[i + 1..]
  }

  /** The inverse of `MoveToFront`: the first element goes back to `i`. */
  function MoveBack<T>(ys: seq<T>, i: nat): (xs: seq<T>)
    requires i < |ys|
    ensures |xs| == |ys| && xs[i] == ys[0]
  {
    ys[1..i + 1] + [ys[0]] + ys[i + 1..]
  }

  lemma MoveBackOfMoveToFront<T>(xs: seq<T>, i: nat)
    requires i < |xs|
    ensures MoveBack(MoveToFront(xs, i), i) == xs
  {
    var ys := MoveToFront(xs, i);
    assert ys[1..i + 1] == xs[..i];
    assert ys[i + 1..] == xs[i + 1..];
    assert xs == xs[..i] + [xs[i]] + xs[i + 1..];
  }

  lemma MoveToFrontOfMoveBack<T>(ys: seq<T>, i: nat)
    requires i < |ys|
    ensures MoveToFront(MoveBack(ys, i), i) == ys
  {
    var xs := MoveBack(ys, i);
    assert xs[..i] == ys[1..i + 1];
    assert xs[i + 1..] == ys[i + 1..];
    assert ys == [ys[0]] + ys[1..i + 1] + ys[i + 1..];
  }

  /** Moving an element to the front keeps every other element in its
      relative order. */
  lemma MoveToFrontKeepsOrder<T>(xs: seq<T>, i: nat, j: nat, k: nat)
    requires i < |xs| && j < k < |xs| && j != i && k != i
    ensures exists j', k' :: 1 <= j' < k' < |xs| && MoveToFront(xs, i)[j'] == xs[j] && MoveToFront(xs, i)[k'] == xs[k]
  {
    var ys := MoveToFront(xs, i);
    var j' := if j < i then j + 1 else j;
    var k' := if k < i then k + 1 else k;
    assert ys[j'] == xs[j] && ys[k'] == xs[k];
  }

  /** The toll table with its `ewb` column first; the rows are untouched and
      a table without that column is left as it is. */
  function EwbFirst(f: Frame): (g: Frame)
    ensures g.rows == f.rows
    ensures multiset(g.columns) == multiset(f.columns)
    ensures EwbColumn in f.columns ==> g.columns[0] == EwbColumn
    ensures EwbColumn !in f.columns ==> g == f
  {
    match Seqs.IndexOf(f.columns, EwbColumn)
    case None => f
    case Some(i) => Frame(MoveToFront(f.columns, i), f.rows)
  }

  /** Moving `ewb` to the front a second time changes nothing. */
  lemma EwbFirstIdempotent(f: Frame)
    ensures EwbFirst(EwbFirst(f)) == EwbFirst(f)
  {
    var g := EwbFirst(f);
    if EwbColumn in f.columns {
      assert EwbColumn in g.columns by {
        assert g.columns[0] == EwbColumn;
      }
      assert Seqs.IndexOf(g.columns, EwbColumn) == Some(0);
      assert MoveToFront(g.columns, 0) == g.columns;
    }
  }

  /** Moving `ewb` to the front loses nothing: putting it back at its old
      position restores the original column order. */
  lemma EwbFirstReversible(f: Frame)
    requires EwbColumn in f.columns
    ensures Seqs.IndexOf(f.columns, EwbColumn).Some?
    ensures MoveBack(EwbFirst(f).columns, Seqs.IndexOf(f.columns, EwbColumn).value) == f.columns
  {
    MoveBackOfMoveToFront(f.columns, Seqs.IndexOf(f.columns, EwbColumn).value);
  }

  /** The (bill, state) cell pair of every row. */
  function Pairs(rows: seq<Row>): (ps: seq<(Option<Cell>, Option<Cell>)>)
    ensures |ps| == |rows|
    ensures forall i :: 0 <= i < |ps| ==> ps[i] == (Get(rows[i], EwbColumn), Get(rows[i], StateColumn))
  {
    seq(|rows|, i requires 0 <= i < |rows| => (Get(rows[i], EwbColumn), Get(rows[i], StateColumn)))
  }

  /** A pair survives the filter when its state is present and not empty. */
  predicate HasState(p: (Option<Cell>, Option<Cell>)) {
    p.1.Some? && p.1.value.Txt? && p.1.value.s != ""
  }

  /** The distinct (bill, state) pairs with a state, in first-occurrence
      order. */
  function StatePairs(rows: seq<Row>): (ps: seq<(Option<Cell>, Option<Cell>)>)
    ensures Seqs.NoDuplicates(ps)
    ensures forall p :: p in ps <==> p in Pairs(rows) && HasState(p)
  {
    var d := Seqs.Distinct(Pairs(rows));
    FilterNoDuplicates(d, HasState);
    Seqs.Filter(d, HasState)
  }

  lemma FilterNoDuplicates<T(!new)>(xs: seq<T>, p: T -> bool)
    requires Seqs.NoDuplicates(xs)
    ensures Seqs.NoDuplicates(Seqs.Filter(xs, p))
  {
    Seqs.DistinctOfNoDuplicates(xs);
    Seqs.FilterDistinct(xs, p);
  }

  /** The bill numbers of the pairs whose bill cell is a number, in order. */
  function BillNumbers(ps: seq<(Option<Cell>, Option<Cell>)>): (ns: seq<int>)
    ensures forall e :: e in ns <==> exists p :: p in ps && p.0 == Some(Num(e))
  {
    if |ps| == 0 then []
    else
      var init := ps[..|ps| - 1];
      var last := ps[|ps| - 1];
      assert ps == init + [last];
      BillNumbers(init) + (if last.0.Some? && last.0.value.Num? then [last.0.value.n] else [])
  }

  /** The states paired with bill `e`, in the order of the pairs. */
  function StatesOf(ps: seq<(Option<Cell>, Option<Cell>)>, e: int): (ss: seq<string>)
    requires forall p :: p in ps ==> HasState(p)
    ensures forall s :: s in ss <==> (Some(Num(e)), Some(Txt(s))) in ps
    ensures Seqs.NoDuplicates(ps) ==> Seqs.NoDuplicates(ss)
  {
    if |ps| == 0 then []
    else
      var init := ps[..|ps| - 1];
      var last := ps[|ps| - 1];
      assert ps == init + [last];
      assert last in ps && HasState(last);
      var ss := StatesOf(init, e) + (if last.0 == Some(Num(e)) then [last.1.value.s] else []);
      assert Seqs.NoDuplicates(ps) ==> Seqs.NoDuplicates(ss) by {
        if Seqs.NoDuplicates(ps) {
          assert Seqs.NoDuplicates(init);
          assert last !in init;
          Seqs.NoDuplicatesAppend(StatesOf(init, e), if last.0 == Some(Num(e)) then [last.1.value.s] else []);
        }
      }
      ss
  }

  /** The `TollUniq` sheet of the merged toll rows: per bill number with a
      state, in ascending order, its distinct non-empty states joined by
      commas in order of appearance. */
  function TollUniqRows(rows: seq<Row>): (u: seq<(int, string)>)
  {
    var ps := StatePairs(rows);
    var keys := Seqs.SortedDistinct(BillNumbers(ps));
    seq(|keys|, k requires 0 <= k < |keys| => (keys[k], Text.Join(StatesOf(ps, keys[k]), ',')))
  }

  /** `TollUniq` has at most one entry per bill, in ascending bill order. */
  lemma TollUniqOneEntryPerBill(rows: seq<Row>, j: nat, k: nat)
    requires j < k < |TollUniqRows(rows)|
    ensures TollUniqRows(rows)[j].0 < TollUniqRows(rows)[k].0
  {
  }

  /** A row with bill `e` and a non-empty text state. */
  predicate BillHasState(rows: seq<Row>, e: int, s: string) {
    s != "" && exists i :: 0 <= i < |rows| && Get(rows[i], EwbColumn) == Some(Num(e)) && Get(rows[i], StateColumn) == Some(Txt(s))
  }

  /** A bill number appears among the state pairs exactly when one of its
      rows has a non-empty state. */
  lemma BilledExactly(rows: seq<Row>, e: int)
    ensures e in BillNumbers(StatePairs(rows)) <==> exists s :: BillHasState(rows, e, s)
  {
    var ps := StatePairs(rows);
    if exists s :: BillHasState(rows, e, s) {
      var s :| BillHasState(rows, e, s);
      var i :| 0 <= i < |rows| && Get(rows[i], EwbColumn) == Some(Num(e)) && Get(rows[i], StateColumn) == Some(Txt(s));
      assert Pairs(rows)[i] in Pairs(rows);
      assert (Some(Num(e)), Some(Txt(s))) in ps;
    }
    if e in BillNumbers(ps) {
      var p :| p in ps && p.0 == Some(Num(e));
      var i :| 0 <= i < |Pairs(rows)| && Pairs(rows)[i] == p;
      assert BillHasState(rows, e, p.1.value.s);
    }
  }

  /** A bill has a `TollUniq` entry exactly when one of its rows has a
      non-empty state. */
  lemma TollUniqBills(rows: seq<Row>, e: int)
    ensures (exists k :: 0 <= k < |TollUniqRows(rows)| && TollUniqRows(rows)[k].0 == e) <==>
            (exists s :: BillHasState(rows, e, s))
  {
    var keys := Seqs.SortedDistinct(BillNumbers(StatePairs(rows)));
    var u := TollUniqRows(rows);
    assert (exists k :: 0 <= k < |u| && u[k].0 == e) <==> e in keys by {
      if e in keys {
        var k :| 0 <= k < |keys| && keys[k] == e;
        assert u[k].0 == e;
      }
    }
    BilledExactly(rows, e);
  }

  /** A state text without commas survives the join as one piece. */
  predicate NoCommaStates(rows: seq<Row>) {
    forall i :: 0 <= i < |rows| ==> match Get(rows[i], StateColumn)
      case Some(Txt(s)) => ',' !in s
      case _ => true
  }

  /** Splitting a `TollUniq` entry at its commas gives back the bill's
      states: each once, exactly those of its rows that are non-empty. */
  lemma TollUniqStates(rows: seq<Row>, k: nat)
    requires NoCommaStates(rows)
    requires k < |TollUniqRows(rows)|
    ensures Seqs.NoDuplicates(Text.Split(TollUniqRows(rows)[k].1, ','))
    ensures forall s :: s in Text.Split(TollUniqRows(rows)[k].1, ',') <==> BillHasState(rows, TollUniqRows(rows)[k].0, s)
  {
    var ps := StatePairs(rows);
    var keys := Seqs.SortedDistinct(BillNumbers(ps));
    var e := keys[k];
    var ss := StatesOf(ps, e);
    assert TollUniqRows(rows)[k] == (e, Text.Join(ss, ','));
    assert |ss| >= 1 by {
      assert e in keys;
      var p :| p in ps && p.0 == Some(Num(e));
      assert p.1.value.s in ss;
    }
    StatesWithoutComma(rows, e);
    Text.SplitJoin(ss, ',');
    forall s
      ensures s in ss <==> BillHasState(rows, e, s)
    {
      StatesExactly(rows, e, s);
    }
  }

  lemma StatesWithoutComma(rows: seq<Row>, e: int)
    requires NoCommaStates(rows)
    ensures forall j :: 0 <= j < |StatesOf(StatePairs(rows), e)| ==> ',' !in StatesOf(StatePairs(rows), e)[j]
  {
    var ss := StatesOf(StatePairs(rows), e);
    forall j | 0 <= j < |ss|
      ensures ',' !in ss[j]
    {
      assert ss[j] in ss;
      assert (Some(Num(e)), Some(Txt(ss[j]))) in Pairs(rows);
    }
  }

  lemma StatesExactly(rows: seq<Row>, e: int, s: string)
    ensures s in StatesOf(StatePairs(rows), e) <==> BillHasState(rows, e, s)
  {
    if s in StatesOf(StatePairs(rows), e) {
      var i :| 0 <= i < |Pairs(rows)| && Pairs(rows)[i] == (Some(Num(e)), Some(Txt(s)));
    }
    if BillHasState(rows, e, s) {
      var i :| 0 <= i < |rows| && Get(rows[i], EwbColumn) == Some(Num(e)) && Get(rows[i], StateColumn) == Some(Txt(s));
      assert Pairs(rows)[i] in Pairs(rows);
    }
  }

  // ---------------------------------------------------------------------
  // The toll step as a whole

  datatype TollOutcome =
    | NoTollFiles                 // no `<ewb>_toll.xlsx` file: nothing is written
    | MissingStatement            // no stock statement to append to
    | Appended(tollData: Frame, tollUniq: Option<seq<(int, string)>>)

  /** The tables of the toll files that could be read, in file order. */
  function ReadTables(found: seq<Option<Frame>>): (fs: seq<Frame>)
    ensures forall f :: f in fs <==> Some(f) in found
  {
    if |found| == 0 then []
    else
      var init := found[..|found| - 1];
      var last := found[|found| - 1];
      assert found == init + [last];
      ReadTables(init) + (if last.Some? then [last.value] else [])
  }

  /** Reading one more file appends its table, if it could be read, after
      the tables read before it. */
  lemma ReadTablesAppend(found: seq<Option<Frame>>, next: Option<Frame>)
    ensures ReadTables(found + [next]) == ReadTables(found) + (if next.Some? then [next.value] else [])
  {
    assert (found + [next])[..|found|] == found;
  }

  /** `xlsx_mergejoinsort_toll_details`: `found` holds one entry per toll
      file, `None` for a file that could not be read; `statementExists`
      says whether the stock statement file is there. The `TollData` sheet
      is the concatenation with `ewb` first; `TollUniq` is written only
      when both the `ewb` and the `State` columns exist. */
  function MergeToll(found: seq<Option<Frame>>, statementExists: bool): (o: TollOutcome)
    ensures o == NoTollFiles <==> |found| == 0
    ensures o == MissingStatement <==> |found| > 0 && !statementExists
    ensures o.Appended? ==> forall r :: r in o.tollData.rows <==> exists f :: Some(f) in found && r in f.rows
    ensures o.Appended? && EwbColumn in o.tollData.columns ==> o.tollData.columns[0] == EwbColumn
    ensures o.Appended? ==> (o.tollUniq.Some? <==> EwbColumn in o.tollData.columns && StateColumn in o.tollData.columns)
    ensures o.Appended? ==> |o.tollData.rows| == RowCount(ReadTables(found))
    ensures o.Appended? && o.tollUniq.Some? ==> o.tollUniq.value == TollUniqRows(o.tollData.rows)
    ensures o.Appended? ==> o.tollData.rows == Concat(ReadTables(found)).rows
    ensures o.Appended? ==> forall c :: c in o.tollData.columns <==> exists f :: Some(f) in found && c in f.columns
  {
    if |found| == 0 then NoTollFiles
    else
      var merged := Concat(ReadTables(found));
      if !statementExists then MissingStatement
      else
        var uniq := if StateColumn in merged.columns && EwbColumn in merged.columns
                    then Some(TollUniqRows(merged.rows)) else None;
        assert forall c :: c in EwbFirst(merged).columns <==> c in merged.columns by {
          assert multiset(EwbFirst(merged).columns) == multiset(merged.columns);
        }
        Appended(EwbFirst(merged), uniq)
  }
}
