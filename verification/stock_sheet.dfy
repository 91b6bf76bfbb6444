/** The per-group sheets of the stock statement (`xlsx_mergejoinsort_stock_stmt`
    from the grouping on): rows are grouped by the first four characters of
    their HSN code, in order of first appearance; each group becomes one sheet
    with a serial number, running opening and closing balances, and two
    spreadsheet formulas that look the row's bill up in the toll sheets. */
module StockSheet {
  import opened Wrappers
  import Text
  import Seqs
  import Reconcile

  /** `str[:4]`: the first four characters, or the whole text when shorter. */
  function Hsn4(code: string): (r: string)
    ensures |r| == if |code| < 4 then |code| else 4
    ensures r == code[..|r|]
  {
    if |code| <= 4 then code else code[..4]
  }

  function RowKey(r: Reconcile.StockRow): string {
    Hsn4(r.hsnCode)
  }

  function Keys(rows: seq<Reconcile.StockRow>): (ks: seq<string>)
    ensures |ks| == |rows|
    ensures forall i :: 0 <= i < |rows| ==> ks[i] == RowKey(rows[i])
  {
    seq(|rows|, i requires 0 <= i < |rows| => RowKey(rows[i]))
  }

  /** The distinct HSN prefixes of the rows, each once, in order of first
      appearance. */
  function GroupKeys(rows: seq<Reconcile.StockRow>): seq<string> {
    Seqs.Distinct(Keys(rows))
  }

  /** The rows of one prefix, in row order. */
  function GroupOf(rows: seq<Reconcile.StockRow>, key: string): seq<Reconcile.StockRow> {
    Seqs.Filter(rows, (r: Reconcile.StockRow) => RowKey(r) == key)
  }

  /** The groups partition the rows: the prefixes are distinct, no group is
      empty, every row of a group has the group's prefix, every row lies in
      the group of its own prefix (and so in no other), with every copy of
      it, and a group of time-ordered rows is time-ordered. */
  lemma GroupsPartition(rows: seq<Reconcile.StockRow>)
    ensures Seqs.NoDuplicates(GroupKeys(rows))
    ensures forall k :: 0 <= k < |GroupKeys(rows)| ==>
              |GroupOf(rows, GroupKeys(rows)[k])| > 0
    ensures forall key, r :: r in GroupOf(rows, key) ==> RowKey(r) == key && r in rows
    ensures forall r :: r in rows ==> RowKey(r) in GroupKeys(rows) && r in GroupOf(rows, RowKey(r))
    ensures forall key, r :: multiset(GroupOf(rows, key))[r] == if RowKey(r) == key then multiset(rows)[r] else 0
    ensures Seqs.SortedBy(rows, Reconcile.StockRowTime) ==>
              forall key :: Seqs.SortedBy(GroupOf(rows, key), Reconcile.StockRowTime)
  {
    var ks := Keys(rows);
    forall key, r
      ensures multiset(GroupOf(rows, key))[r] == if RowKey(r) == key then multiset(rows)[r] else 0
    {
      Seqs.FilterCount(rows, (r: Reconcile.StockRow) => RowKey(r) == key, r);
    }
    forall k | 0 <= k < |GroupKeys(rows)|
      ensures |GroupOf(rows, GroupKeys(rows)[k])| > 0
    {
      var key := GroupKeys(rows)[k];
      assert key in ks;
      var i :| 0 <= i < |rows| && ks[i] == key;
      assert rows[i] in GroupOf(rows, key);
    }
    forall r | r in rows
      ensures RowKey(r) in GroupKeys(rows)
    {
      var i :| 0 <= i < |rows| && rows[i] == r;
      assert ks[i] == RowKey(r);
    }
    if Seqs.SortedBy(rows, Reconcile.StockRowTime) {
      forall key
        ensures Seqs.SortedBy(GroupOf(rows, key), Reconcile.StockRowTime)
      {
        Seqs.FilterSortedBy(rows, (r: Reconcile.StockRow) => RowKey(r) == key, Reconcile.StockRowTime);
      }
    }
  }

  /** The running sum of purchased minus sold quantity after `n` rows; 0
      before the first. */
  function CumNet(rows: seq<Reconcile.StockRow>, n: nat): real
    requires n <= |rows|
  {
    if n == 0 then 0.0 else CumNet(rows, n - 1) + Reconcile.Net(rows[n - 1])
  }

  function SumPurchases(rows: seq<Reconcile.StockRow>, n: nat): real
    requires n <= |rows|
  {
    if n == 0 then 0.0 else SumPurchases(rows, n - 1) + rows[n - 1].purchase.qty
  }

  function SumSales(rows: seq<Reconcile.StockRow>, n: nat): real
    requires n <= |rows|
  {
    if n == 0 then 0.0 else SumSales(rows, n - 1) + rows[n - 1].sale.qty
  }

  /** The stock after the first `n` rows is what they purchased minus what
      they sold. */
  lemma {:induction false} CumNetIsBalance(rows: seq<Reconcile.StockRow>, n: nat)
    requires n <= |rows|
    ensures CumNet(rows, n) == SumPurchases(rows, n) - SumSales(rows, n)
    decreases n
  {
    if n > 0 {
      CumNetIsBalance(rows, n - 1);
    }
  }

  /** A cell reference: a column letter and a 1-based row. */
  datatype CellRef = CellRef(column: char, row: int)

  function RefText(c: CellRef): string {
    [c.column] + Text.IntToString(c.row)
  }

  function ParseRef(s: string): Option<CellRef> {
    if |s| >= 1 && 'A' <= s[0] <= 'Z' then
      match Text.ParseInt(s[1..])
      case None => None
      case Some(n) => Some(CellRef(s[0], n))
    else None
  }

  /** A rendered integer has neither a comma nor a parenthesis in it. */
  lemma IntTextPunctuationFree(n: int)
    ensures ',' !in Text.IntToString(n) && ')' !in Text.IntToString(n)
  {
    Text.FormatIntChars(n, 0);
  }

  lemma RefTextRoundTrip(c: CellRef)
    requires 'A' <= c.column <= 'Z'
    ensures ParseRef(RefText(c)) == Some(c)
    ensures ',' !in RefText(c) && ')' !in RefText(c)
  {
    var digits := Text.IntToString(c.row);
    var t := [c.column] + digits;
    assert t[1..] == digits;
    Text.FormatIntRoundTrip(c.row, 0);
    IntTextPunctuationFree(c.row);
  }

  /** The column names of a statement sheet, in sheet order. */
  const StatementColumns: seq<string> := [
    "S.No", "DateTime", "0B", "EWB No.", "EWB Toll", "HSN Code", "Trans",
    "Purchase from", "From", "Pur_Qty", "Pur_Value", "Pur_TaxVal", "Pur_Vehicle",
    "Total Stock", " ", "Sale To", "To", "Sale_Qty", "Sale_Value", "Sale_TaxVal",
    "Sale_Vehicle", "CB", "Dist", "States in which vehicle movement exists"
  ]

  /** The letter of the `k`-th spreadsheet column (0-based), for the first 26. */
  function ColumnLetter(k: nat): char
    requires k < 26
  {
    (('A' as int) + k) as char
  }

  /** The formulas refer to column D: it holds the bill number. */
  lemma BillColumnIsD()
    ensures Seqs.IndexOf(StatementColumns, "EWB No.") == Some(3)
    ensures ColumnLetter(3) == 'D'
  {
    assert StatementColumns[3] == "EWB No.";
    assert "EWB No." !in StatementColumns[..3];
  }

  /** The first data row of a sheet: row 1 holds the column names. */
  const StartRow := 2

  /** An exact-match lookup: the key cell, the range searched and the
      1-based index of the column returned. */
  datatype Lookup = Lookup(key: CellRef, table: string, column: int)

  /** A lookup whose parts can be told apart in its formula text. */
  predicate WellFormedLookup(l: Lookup) {
    'A' <= l.key.column <= 'Z' && ',' !in l.table
  }

  const VlookupHead := "=VLOOKUP("
  const VlookupTail := "FALSE)"

  /** The comma-separated pieces of a VLOOKUP formula, from the texts of
      its key cell, range and column index. */
  function VlookupPieces(key: string, table: string, column: string): seq<string> {
    [VlookupHead + key, table, column, VlookupTail]
  }

  /** `=VLOOKUP(<key>,<table>,<column>,FALSE)`. */
  function VlookupFormula(l: Lookup): string {
    Text.Join(VlookupPieces(RefText(l.key), l.table, Text.IntToString(l.column)), ',')
  }

  /** The lookup a VLOOKUP formula text stands for, if it is one. */
  function ParseVlookup(f: string): Option<Lookup> {
    ParseVlookupParts(Text.Split(f, ','))
  }

  function ParseVlookupParts(parts: seq<string>): Option<Lookup> {
    if |parts| == 4 && |parts[0]| >= |VlookupHead| && parts[0][..|VlookupHead|] == VlookupHead
       && parts[3] == VlookupTail then
      match (ParseRef(parts[0][|VlookupHead|..]), Text.ParseInt(parts[2]))
      case (Some(key), Some(column)) => Some(Lookup(key, parts[1], column))
      case _ => None
    else None
  }

  lemma HeadCommaFree(head: string, rest: string)
    requires ',' !in head && ',' !in rest
    ensures ',' !in head + rest
  {
  }

  lemma VlookupPiecesSplit(key: string, table: string, column: string)
    requires ',' !in key && ',' !in table && ',' !in column
    ensures Text.Split(Text.Join(VlookupPieces(key, table, column), ','), ',') == VlookupPieces(key, table, column)
  {
    HeadCommaFree(VlookupHead, key);
    Text.FourPiecesWithout(VlookupHead + key, table, column, VlookupTail, ',');
    Text.SplitJoin(VlookupPieces(key, table, column), ',');
  }

  lemma ParseVlookupPieces(key: string, table: string, column: string, k: CellRef, c: int)
    requires ParseRef(key) == Some(k) && Text.ParseInt(column) == Some(c)
    ensures ParseVlookupParts(VlookupPieces(key, table, column)) == Some(Lookup(k, table, c))
  {
    var parts := VlookupPieces(key, table, column);
    assert parts[0][..|VlookupHead|] == VlookupHead;
    assert parts[0][|VlookupHead|..] == key;
  }

  /** A well-formed lookup's formula text reads back as that lookup. */
  lemma VlookupRoundTrip(l: Lookup)
    requires WellFormedLookup(l)
    ensures ParseVlookup(VlookupFormula(l)) == Some(l)
  {
    RefTextRoundTrip(l.key);
    IntTextPunctuationFree(l.column);
    Text.FormatIntRoundTrip(l.column, 0);
    VlookupPiecesSplit(RefText(l.key), l.table, Text.IntToString(l.column));
    ParseVlookupPieces(RefText(l.key), l.table, Text.IntToString(l.column), l.key, l.column);
  }

  /** The range the states are looked up in: the two columns A:B of the
      `TollUniq` sheet, bill number then states. */
  const TollUniqRange := "TollUniq!A:B"
  const TollUniqWidth := 2

  /** A VLOOKUP into `TollUniq` returns a value of the range only for a
      column index from 1 to the range's width; any other index gives an
      error value instead of the states. */
  predicate InRange(l: Lookup) {
    l.table == TollUniqRange && 1 <= l.column <= TollUniqWidth
  }

  /** The states lookup as the source writes it: the column index is the
      spreadsheet row number. */
  function StatesLookupAsWritten(row: int): (l: Lookup)
    ensures WellFormedLookup(l)
  {
    Lookup(CellRef('D', row), TollUniqRange, row)
  }

  /** From the second data row on, the as-written formula asks for a column
      the two-column range does not have. */
  lemma StatesLookupAsWrittenOutOfRange(row: int)
    requires row > StartRow
    ensures ParseVlookup(VlookupFormula(StatesLookupAsWritten(row))) == Some(StatesLookupAsWritten(row))
    ensures !InRange(StatesLookupAsWritten(row))
  {
    VlookupRoundTrip(StatesLookupAsWritten(row));
  }

  /** Row 3, the second data row, gets the formula text with column index
      3 into `TollUniq!A:B`. */
  lemma StatesLookupAsWrittenRow3()
    ensures ParseVlookup(VlookupFormula(StatesLookupAsWritten(3))) == Some(Lookup(CellRef('D', 3), TollUniqRange, 3))
    ensures !InRange(StatesLookupAsWritten(3))
  {
    VlookupRoundTrip(StatesLookupAsWritten(3));
  }

  /** The states lookup with the states column of the range. */
  function StatesLookup(row: int): (l: Lookup)
    ensures WellFormedLookup(l)
  {
    Lookup(CellRef('D', row), TollUniqRange, TollUniqWidth)
  }

  /** Every row's states lookup stays inside `TollUniq!A:B` and returns its
      states column, whatever the row. */
  lemma StatesLookupInRange(row: int)
    ensures InRange(StatesLookup(row)) && StatesLookup(row).column == TollUniqWidth
    ensures ParseVlookup(VlookupFormula(StatesLookup(row))) == Some(StatesLookup(row))
  {
    VlookupRoundTrip(StatesLookup(row));
  }

  const LinkHead := "=HYPERLINK(\"#\"&CELL(\"address\""
  const LinkIndex := "INDEX(TollData!A:A"
  const LinkMatch := "MATCH("
  const LinkRange := "TollData!A:A"
  const LinkTail := "0)))"

  /** The comma-separated pieces of a toll link to the cell with text `ref`. */
  function TollLinkPieces(ref: string): seq<string> {
    [LinkHead, LinkIndex, LinkMatch + ref, LinkRange, LinkTail, ref + ")"]
  }

  /** `=HYPERLINK("#"&CELL("address",INDEX(TollData!A:A,MATCH(<r>,TollData!A:A,0))),<r>)`:
      a link to the first `TollData` row of the bill in cell `r`, labelled
      with that bill. */
  function TollLinkFormula(ref: CellRef): string {
    Text.Join(TollLinkPieces(RefText(ref)), ',')
  }

  /** The two references of a toll link: the looked-up value and the label. */
  function ParseTollLink(f: string): Option<(CellRef, CellRef)> {
    ParseTollLinkParts(Text.Split(f, ','))
  }

  function ParseTollLinkParts(parts: seq<string>): Option<(CellRef, CellRef)> {
    if |parts| == 6 && parts[0] == LinkHead && parts[1] == LinkIndex
       && |parts[2]| >= |LinkMatch| && parts[2][..|LinkMatch|] == LinkMatch
       && parts[3] == LinkRange && parts[4] == LinkTail
       && |parts[5]| >= 1 && parts[5][|parts[5]| - 1] == ')' then
      match (ParseRef(parts[2][|LinkMatch|..]), ParseRef(parts[5][..|parts[5]| - 1]))
      case (Some(a), Some(b)) => Some((a, b))
      case _ => None
    else None
  }

  lemma TollLinkPiecesSplit(ref: string)
    requires ',' !in ref
    ensures Text.Split(Text.Join(TollLinkPieces(ref), ','), ',') == TollLinkPieces(ref)
  {
    HeadCommaFree(LinkMatch, ref);
    HeadCommaFree(ref, ")");
    Text.SixPiecesWithout(LinkHead, LinkIndex, LinkMatch + ref, LinkRange, LinkTail, ref + ")", ',');
    Text.SplitJoin(TollLinkPieces(ref), ',');
  }

  lemma ParseTollLinkPieces(ref: string, c: CellRef)
    requires ParseRef(ref) == Some(c)
    ensures ParseTollLinkParts(TollLinkPieces(ref)) == Some((c, c))
  {
    var parts := TollLinkPieces(ref);
    assert parts[2][..|LinkMatch|] == LinkMatch;
    assert parts[2][|LinkMatch|..] == ref;
    assert parts[5][..|parts[5]| - 1] == ref;
  }

  /** Both references of a toll link read back as the linked cell. */
  lemma TollLinkRoundTrip(ref: CellRef)
    requires 'A' <= ref.column <= 'Z'
    ensures ParseTollLink(TollLinkFormula(ref)) == Some((ref, ref))
  {
    RefTextRoundTrip(ref);
    TollLinkPiecesSplit(RefText(ref));
    ParseTollLinkPieces(RefText(ref), ref);
  }

  /** One row of a statement sheet; the blank separator column is left out.
      `tollLink` is the cell the `EWB Toll` formula (`TollLinkFormula`)
      refers to, and `states` the lookup of the last column's formula
      (`VlookupFormula`). */
  datatype StatementRow = StatementRow(
    sno: nat, time: int, ob: real, ewb: nat, tollLink: CellRef, hsnCode: string, trans: string,
    purchaseFrom: string, fromAddr: Option<string>, purchase: Reconcile.Side, total: real,
    saleTo: string, toAddr: Option<string>, sale: Reconcile.Side, cb: real, dist: string,
    states: Lookup)

  /** The statement row at position `i` of a group with the states lookup
      `states`: serial number `i + 1`, opening balance the cumulative net
      before it (0 for the first row), closing balance the cumulative net
      including it, total stock the opening balance plus the purchase, and
      the toll link for spreadsheet row `i + 2`. */
  function StatementRowAt(group: seq<Reconcile.StockRow>, i: nat, states: Lookup): (s: StatementRow)
    requires i < |group|
    ensures s.ewb == group[i].ewb && s.time == group[i].time
    ensures s.purchase == group[i].purchase && s.sale == group[i].sale && s.states == states
  {
    var r := group[i];
    var ob := CumNet(group, i);
    StatementRow(i + 1, r.time, ob, r.ewb, CellRef('D', StartRow + i), r.hsnCode, r.trans,
                 r.purchaseFrom, r.fromAddr, r.purchase, ob + r.purchase.qty,
                 r.saleTo, r.toAddr, r.sale, CumNet(group, i + 1), r.dist, states)
  }

  /** The rows of a group's sheet as the source writes them, with the
      states lookup whose column index is the row number. */
  function SheetRows(group: seq<Reconcile.StockRow>): (out: seq<StatementRow>)
    ensures |out| == |group|
    ensures forall i :: 0 <= i < |group| ==>
              out[i].ewb == group[i].ewb && out[i].time == group[i].time
              && out[i].purchase == group[i].purchase && out[i].sale == group[i].sale
  {
    var out := seq(|group|, i requires 0 <= i < |group| => StatementRowAt(group, i, StatesLookupAsWritten(StartRow + i)));
    assert forall i :: 0 <= i < |group| ==> out[i] == StatementRowAt(group, i, StatesLookupAsWritten(StartRow + i));
    out
  }

  /** The rows of a group's sheet with the states lookup corrected to the
      states column: every other cell as the source writes it, and every
      lookup inside `TollUniq!A:B`. */
  function CorrectedSheetRows(group: seq<Reconcile.StockRow>): (out: seq<StatementRow>)
    ensures |out| == |group|
    ensures forall i :: 0 <= i < |group| ==>
              out[i].ewb == group[i].ewb && out[i].time == group[i].time
              && out[i].purchase == group[i].purchase && out[i].sale == group[i].sale
    ensures forall i :: 0 <= i < |group| ==> InRange(out[i].states)
  {
    var out := seq(|group|, i requires 0 <= i < |group| => StatementRowAt(group, i, StatesLookup(StartRow + i)));
    forall i | 0 <= i < |group|
      ensures out[i] == StatementRowAt(group, i, StatesLookup(StartRow + i)) && InRange(out[i].states)
    {
      StatesLookupInRange(StartRow + i);
    }
    out
  }

  /** Serial numbers count from 1 and the total stock is the opening
      balance plus the purchased quantity. */
  lemma SerialAndTotal(group: seq<Reconcile.StockRow>)
    ensures forall i :: 0 <= i < |group| ==> SheetRows(group)[i].sno == i + 1
    ensures forall i :: 0 <= i < |group| ==>
              SheetRows(group)[i].total == SheetRows(group)[i].ob + SheetRows(group)[i].purchase.qty
  {
    forall i | 0 <= i < |group|
      ensures SheetRows(group)[i].sno == i + 1
      ensures SheetRows(group)[i].total == SheetRows(group)[i].ob + SheetRows(group)[i].purchase.qty
    {
      RowAtBalances(group, i);
    }
  }

  /** The first opening balance is 0 and every later opening balance is the
      closing balance of the row before. */
  lemma OpeningBalances(group: seq<Reconcile.StockRow>)
    requires |group| > 0
    ensures SheetRows(group)[0].ob == 0.0
    ensures forall i :: 0 <= i < |group| - 1 ==> SheetRows(group)[i + 1].ob == SheetRows(group)[i].cb
  {
    RowAtBalances(group, 0);
    forall i | 0 <= i < |group| - 1
      ensures SheetRows(group)[i + 1].ob == SheetRows(group)[i].cb
    {
      OpeningFollowsClosing(group, i);
    }
  }

  lemma OpeningFollowsClosing(group: seq<Reconcile.StockRow>, i: nat)
    requires i + 1 < |group|
    ensures SheetRows(group)[i + 1].ob == SheetRows(group)[i].cb
  {
    RowAtBalances(group, i);
    RowAtBalances(group, i + 1);
  }

  /** Each closing balance is the opening balance plus purchases minus
      sales, and the group's last closing balance is all its purchases
      minus all its sales. */
  lemma ClosingBalances(group: seq<Reconcile.StockRow>)
    requires |group| > 0
    ensures forall i :: 0 <= i < |group| ==>
              SheetRows(group)[i].cb
              == SheetRows(group)[i].ob + SheetRows(group)[i].purchase.qty - SheetRows(group)[i].sale.qty
    ensures SheetRows(group)[|group| - 1].cb == SumPurchases(group, |group|) - SumSales(group, |group|)
  {
    forall i | 0 <= i < |group|
      ensures SheetRows(group)[i].cb
              == SheetRows(group)[i].ob + SheetRows(group)[i].purchase.qty - SheetRows(group)[i].sale.qty
    {
      RowAtBalances(group, i);
      assert CumNet(group, i + 1) == CumNet(group, i) + Reconcile.Net(group[i]);
    }
    RowAtBalances(group, |group| - 1);
    CumNetIsBalance(group, |group|);
  }

  lemma RowAtBalances(group: seq<Reconcile.StockRow>, i: nat)
    requires i < |group|
    ensures SheetRows(group)[i].sno == i + 1
    ensures SheetRows(group)[i].ob == CumNet(group, i) && SheetRows(group)[i].cb == CumNet(group, i + 1)
    ensures SheetRows(group)[i].total == CumNet(group, i) + group[i].purchase.qty
  {
    assert SheetRows(group)[i] == StatementRowAt(group, i, StatesLookupAsWritten(StartRow + i));
  }

  /** Every row's formulas refer to the row's own bill-number cell in
      column D: the toll link into `TollData`, and the states lookup into
      `TollUniq`. As written, the lookup's column index is the row number,
      so only the first data row's lookup stays inside the two-column
      range. */
  lemma FormulasReferToOwnRow(group: seq<Reconcile.StockRow>, i: nat)
    requires i < |group|
    ensures SheetRows(group)[i].tollLink == CellRef(ColumnLetter(3), StartRow + i)
    ensures SheetRows(group)[i].states == Lookup(CellRef(ColumnLetter(3), StartRow + i), TollUniqRange, StartRow + i)
    ensures ParseTollLink(TollLinkFormula(SheetRows(group)[i].tollLink))
            == Some((CellRef(ColumnLetter(3), StartRow + i), CellRef(ColumnLetter(3), StartRow + i)))
    ensures ParseVlookup(VlookupFormula(SheetRows(group)[i].states)) == Some(SheetRows(group)[i].states)
    ensures InRange(SheetRows(group)[i].states) <==> i == 0
  {
    assert SheetRows(group)[i] == StatementRowAt(group, i, StatesLookupAsWritten(StartRow + i));
    TollLinkRoundTrip(CellRef('D', StartRow + i));
    VlookupRoundTrip(StatesLookupAsWritten(StartRow + i));
  }

  /** With the corrected lookup every row's states formula reads back as a
      lookup of its own bill cell in the states column of `TollUniq`, and
      nothing else on the row changes. */
  lemma CorrectedFormulasInRange(group: seq<Reconcile.StockRow>, i: nat)
    requires i < |group|
    ensures CorrectedSheetRows(group)[i].states == Lookup(CellRef(ColumnLetter(3), StartRow + i), TollUniqRange, TollUniqWidth)
    ensures ParseVlookup(VlookupFormula(CorrectedSheetRows(group)[i].states)) == Some(CorrectedSheetRows(group)[i].states)
    ensures InRange(CorrectedSheetRows(group)[i].states)
    ensures CorrectedSheetRows(group)[i].(states := SheetRows(group)[i].states) == SheetRows(group)[i]
  {
    assert CorrectedSheetRows(group)[i] == StatementRowAt(group, i, StatesLookup(StartRow + i));
    assert SheetRows(group)[i] == StatementRowAt(group, i, StatesLookupAsWritten(StartRow + i));
    StatesLookupInRange(StartRow + i);
  }

  /** One worksheet: its name and rows. */
  datatype Sheet = Sheet(name: string, rows: seq<StatementRow>)

  /** Without joined rows the step raises before any sheet is written:
      splitting the empty bill column yields no columns for the two-key
      assignment (scraper_worker.py:497). */
  const EmptyJoinError := "Columns must be same length as key"

  /** The statement workbook as the source writes it: one sheet per HSN
      prefix, named by it, in order of first appearance. Without rows the
      step fails. */
  function Statement(rows: seq<Reconcile.StockRow>): (r: Result<seq<Sheet>, string>)
    ensures r.Failure? <==> |rows| == 0
    ensures r.Success? ==> |r.value| == |GroupKeys(rows)|
    ensures r.Success? ==> forall k :: 0 <= k < |r.value| ==>
              r.value[k].name == GroupKeys(rows)[k]
              && r.value[k].rows == SheetRows(GroupOf(rows, GroupKeys(rows)[k]))
  {
    if |rows| == 0 then Failure(EmptyJoinError)
    else
      var ks := GroupKeys(rows);
      Success(seq(|ks|, k requires 0 <= k < |ks| => Sheet(ks[k], SheetRows(GroupOf(rows, ks[k])))))
  }

  /** The workbook with the corrected states lookup on every row. */
  function CorrectedStatement(rows: seq<Reconcile.StockRow>): (r: Result<seq<Sheet>, string>)
    ensures r.Failure? <==> |rows| == 0
    ensures r.Success? ==> |r.value| == |GroupKeys(rows)|
    ensures r.Success? ==> forall k :: 0 <= k < |r.value| ==>
              r.value[k].name == GroupKeys(rows)[k]
              && r.value[k].rows == CorrectedSheetRows(GroupOf(rows, GroupKeys(rows)[k]))
  {
    if |rows| == 0 then Failure(EmptyJoinError)
    else
      var ks := GroupKeys(rows);
      Success(seq(|ks|, k requires 0 <= k < |ks| => Sheet(ks[k], CorrectedSheetRows(GroupOf(rows, ks[k])))))
  }

  /** The corrected workbook has the sheets of the written one, row for
      row, differing only in the states lookup, which stays inside
      `TollUniq!A:B` on every row. */
  lemma CorrectedStatementOnlyFixesStates(rows: seq<Reconcile.StockRow>, k: nat, i: nat)
    requires Statement(rows).Success? && k < |Statement(rows).value|
    requires i < |Statement(rows).value[k].rows|
    ensures CorrectedStatement(rows).Success? && |CorrectedStatement(rows).value| == |Statement(rows).value|
    ensures CorrectedStatement(rows).value[k].name == Statement(rows).value[k].name
    ensures |CorrectedStatement(rows).value[k].rows| == |Statement(rows).value[k].rows|
    ensures CorrectedStatement(rows).value[k].rows[i].(states := Statement(rows).value[k].rows[i].states)
            == Statement(rows).value[k].rows[i]
    ensures InRange(CorrectedStatement(rows).value[k].rows[i].states)
    ensures i > 0 ==> !InRange(Statement(rows).value[k].rows[i].states)
  {
    var group := GroupOf(rows, GroupKeys(rows)[k]);
    FormulasReferToOwnRow(group, i);
    CorrectedFormulasInRange(group, i);
  }

  /** Every row of the input is on exactly one sheet: the sheet named by its
      HSN prefix, which no other sheet shares. */
  lemma StatementCoversRows(rows: seq<Reconcile.StockRow>, r: Reconcile.StockRow)
    requires r in rows
    ensures Statement(rows).Success?
    ensures exists k :: 0 <= k < |Statement(rows).value| && Statement(rows).value[k].name == RowKey(r)
              && r in GroupOf(rows, RowKey(r))
    ensures forall k, k' :: 0 <= k < k' < |Statement(rows).value| ==>
              Statement(rows).value[k].name != Statement(rows).value[k'].name
  {
    GroupsPartition(rows);
    var k :| 0 <= k < |GroupKeys(rows)| && GroupKeys(rows)[k] == RowKey(r);
    assert Statement(rows).value[k].name == RowKey(r);
  }
}
