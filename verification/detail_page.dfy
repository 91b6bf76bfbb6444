/** The detail page of one e-way bill (`ewbextract_stock_stmt`): which of the
    page's shapes was found, the spreadsheet it is saved to, and how the
    stock-statement step collects those spreadsheets again by file-name
    pattern. What the browser sees is given as a `PageView`. */
module DetailPage {
  import opened Wrappers
  import Text

  /** What the page shows: the item table, the IRN button, whether clicking
      the button raised a dialog, and the IRN item table. */
  datatype PageView = PageView(itemTable: bool, irnButton: bool, dialog: bool, irnTable: bool)

  /** The outcome of a detail page. */
  datatype Shape =
    | Primary         // item table saved as `<ewb>.xlsx`
    | IrnTable        // IRN item table saved as `<ewb>_irn.xlsx`
    | IrnPlaceholder  // IRN alert dialog: one placeholder row in `<ewb>_dist.xlsx`
    | NothingFound    // nothing saved

  /** The branch of `ewbextract_stock_stmt`: the item table wins; without it
      the IRN button is clicked, and a dialog means placeholder data while
      no dialog means the IRN table is looked for. */
  function Classify(v: PageView): (s: Shape)
    ensures s == Primary <==> v.itemTable
    ensures s == IrnPlaceholder <==> !v.itemTable && v.irnButton && v.dialog
    ensures s == IrnTable <==> !v.itemTable && v.irnButton && !v.dialog && v.irnTable
  {
    if v.itemTable then Primary
    else if !v.irnButton then NothingFound
    else if v.dialog then IrnPlaceholder
    else if v.irnTable then IrnTable
    else NothingFound
  }

  /** A page yields a file exactly when it shows the item table, or the IRN
      button with either a dialog or the IRN table behind it. */
  lemma ClassifySavesFile(v: PageView)
    ensures Classify(v) != NothingFound <==> v.itemTable || (v.irnButton && (v.dialog || v.irnTable))
  {
  }

  /** The text after the bill number in the saved file's name. */
  function Suffix(s: Shape): string
    requires s != NothingFound
  {
    match s
    case Primary => ".xlsx"
    case IrnTable => "_irn.xlsx"
    case IrnPlaceholder => "_dist.xlsx"
  }

  function FileName(ewb: nat, s: Shape): string
    requires s != NothingFound
  {
    Text.NatToString(ewb) + Suffix(s)
  }

  /** The three patterns the stock-statement step collects files with:
      twelve digits followed by `.xlsx`, `_irn.xlsx` or `_dist.xlsx`. */
  function MatchFileName(name: string): (r: Option<(nat, Shape)>)
    ensures r.Some? ==> r.value.1 != NothingFound && r.value.0 < Text.Pow10(12)
  {
    if |name| >= 12 && Text.AllDigits(name[..12]) then
      var ewb := Text.ParseNat(name[..12]);
      var rest := name[12..];
      ParseNatBound(name[..12]);
      if rest == ".xlsx" then Some((ewb, Primary))
      else if rest == "_irn.xlsx" then Some((ewb, IrnTable))
      else if rest == "_dist.xlsx" then Some((ewb, IrnPlaceholder))
      else None
    else None
  }

  lemma {:induction false} ParseNatBound(s: string)
    requires Text.AllDigits(s)
    ensures Text.ParseNat(s) < Text.Pow10(|s|)
    decreases |s|
  {
    if |s| > 0 {
      ParseNatBound(s[..|s| - 1]);
    }
  }

  /** A twelve-digit bill number has a twelve-character decimal text. */
  lemma TwelveDigits(ewb: nat)
    requires Text.Pow10(11) <= ewb < Text.Pow10(12)
    ensures |Text.NatToString(ewb)| == 12
  {
    Text.NatToStringLength(ewb, 12);
    Text.NatToStringLength(ewb, 11);
  }

  /** The saved file of a twelve-digit bill is collected again under its
      bill number and shape. */
  lemma FileNameRoundTrip(ewb: nat, s: Shape)
    requires s != NothingFound
    requires Text.Pow10(11) <= ewb < Text.Pow10(12)
    ensures MatchFileName(FileName(ewb, s)) == Some((ewb, s))
  {
    var digits := Text.NatToString(ewb);
    var name := FileName(ewb, s);
    TwelveDigits(ewb);
    assert name[..12] == digits && name[12..] == Suffix(s);
    Text.ParseNatOfNatToString(ewb);
  }

  /** The file of a bill number with fewer than twelve digits is never
      collected: a suffix character takes a digit's place. */
  lemma ShortNumberNotCollected(ewb: nat, s: Shape)
    requires s != NothingFound
    requires ewb < Text.Pow10(11)
    ensures MatchFileName(FileName(ewb, s)).None?
  {
    var digits := Text.NatToString(ewb);
    var name := FileName(ewb, s);
    Text.NatToStringLength(ewb, 11);
    if |name| >= 12 {
      assert name[|digits|] == Suffix(s)[0];
      assert !Text.IsDigit(name[..12][|digits|]);
    }
  }

  /** The file of a bill number with more than twelve digits is never
      collected: a digit stands where the suffix has to begin. */
  lemma LongNumberNotCollected(ewb: nat, s: Shape)
    requires s != NothingFound
    requires Text.Pow10(12) <= ewb
    ensures MatchFileName(FileName(ewb, s)).None?
  {
    var digits := Text.NatToString(ewb);
    var name := FileName(ewb, s);
    Text.NatToStringLength(ewb, 12);
    assert name[12] == digits[12];
    assert name[12..][0] == digits[12];
  }

  /** The text cells of the page's header, attached to every saved row. */
  datatype PageHeader = PageHeader(dist: string, trans: string, fromAddr: string, toAddr: string)

  /** One row of an item table: the quantity cell and, in the IRN table, the
      unit cell; `None` is an empty cell, which the saved spreadsheet gives
      back as a missing value. */
  datatype TableRow = TableRow(quantity: Option<string>, unit: Option<string>)

  /** The placeholder row: its quantity is written as an empty cell. */
  const PlaceholderRow := TableRow(None, None)

  /** A saved detail spreadsheet: the bill, its shape, the header cells and
      the item rows (the placeholder's single row has empty cells). */
  datatype DetailFile = DetailFile(ewb: nat, shape: Shape, header: PageHeader, items: seq<TableRow>)

  /** The file a detail page is saved to, if any; `items` and `irnItems`
      are the two tables' rows when they are shown. */
  function Extract(ewb: nat, v: PageView, header: PageHeader, items: seq<TableRow>, irnItems: seq<TableRow>)
    : (r: Option<DetailFile>)
    ensures r.None? <==> Classify(v) == NothingFound
    ensures r.Some? ==> r.value.ewb == ewb && r.value.shape == Classify(v) && r.value.header == header
    ensures r.Some? && r.value.shape == Primary ==> r.value.items == items
    ensures r.Some? && r.value.shape == IrnTable ==> r.value.items == irnItems
    ensures r.Some? && r.value.shape == IrnPlaceholder ==> r.value.items == [PlaceholderRow]
  {
    match Classify(v)
    case NothingFound => None
    case Primary => Some(DetailFile(ewb, Primary, header, items))
    case IrnTable => Some(DetailFile(ewb, IrnTable, header, irnItems))
    case IrnPlaceholder => Some(DetailFile(ewb, IrnPlaceholder, header, [PlaceholderRow]))
  }

  function SavedName(f: DetailFile): string
    requires f.shape != NothingFound
  {
    FileName(f.ewb, f.shape)
  }

  /** A detail row as the stock-statement step reads it back: the bill, the
      quantity text, the header cells, and the addresses, which IRN tables
      lack. */
  datatype DetailRow = DetailRow(ewb: nat, quantity: string, dist: string, trans: string,
                                 fromAddr: Option<string>, toAddr: Option<string>)

  /** The text pandas makes of a missing value. */
  const NaNText := "nan"

  /** A cell as text (`astype(str)`): a missing cell becomes "nan". */
  function CellText(c: Option<string>): string {
    match c
    case None => NaNText
    case Some(t) => t
  }

  /** The quantity text of a saved row once read back: the quantity cell as
      text for the item table and the placeholder; for the IRN table the
      quantity as text, a space and the unit, where a missing unit makes the
      joined cell missing and so "nan" again. */
  function QuantityText(s: Shape, row: TableRow): string {
    if s != IrnTable then CellText(row.quantity)
    else if row.unit.None? then NaNText
    else CellText(row.quantity) + " " + row.unit.value
  }

  function RowsOf(f: DetailFile): (rows: seq<DetailRow>)
    ensures |rows| == |f.items|
    ensures forall i :: 0 <= i < |rows| ==> rows[i].ewb == f.ewb
  {
    var addr := f.shape != IrnTable;
    seq(|f.items|, i requires 0 <= i < |f.items| =>
      DetailRow(f.ewb, QuantityText(f.shape, f.items[i]), f.header.dist, f.header.trans,
                if addr then Some(f.header.fromAddr) else None,
                if addr then Some(f.header.toAddr) else None))
  }

  /** Whether the stock-statement step collects `f` in the group of shape `s`. */
  predicate CollectedAs(f: DetailFile, s: Shape) {
    f.shape != NothingFound && MatchFileName(SavedName(f)) == Some((f.ewb, s))
  }

  /** The rows of the files collected as shape `s`, in file order. */
  function RowsOfShape(files: seq<DetailFile>, s: Shape): (rows: seq<DetailRow>)
    ensures forall r :: r in rows ==> exists i :: 0 <= i < |files| && CollectedAs(files[i], s) && r in RowsOf(files[i])
  {
    if |files| == 0 then []
    else
      var last := files[|files| - 1];
      var init := RowsOfShape(files[..|files| - 1], s);
      assert forall i :: 0 <= i < |files| - 1 ==> files[..|files| - 1][i] == files[i];
      init + (if CollectedAs(last, s) then RowsOf(last) else [])
  }

  /** Every row of a collected file is among the collected rows. */
  lemma {:induction false} RowsOfShapeComplete(files: seq<DetailFile>, s: Shape, i: nat)
    requires i < |files| && CollectedAs(files[i], s)
    ensures forall r :: r in RowsOf(files[i]) ==> r in RowsOfShape(files, s)
    decreases |files|
  {
    if i < |files| - 1 {
      RowsOfShapeComplete(files[..|files| - 1], s, i);
    }
  }

  /** The detail rows of the stock-statement step: item-table files, then
      IRN-table files, then placeholder files. */
  function CollectRows(files: seq<DetailFile>): seq<DetailRow> {
    RowsOfShape(files, Primary) + RowsOfShape(files, IrnTable) + RowsOfShape(files, IrnPlaceholder)
  }

  /** For twelve-digit bill numbers every saved row is collected, and every
      collected row comes from a saved file. */
  lemma CollectRowsExact(files: seq<DetailFile>)
    requires forall i :: 0 <= i < |files| ==> Text.Pow10(11) <= files[i].ewb < Text.Pow10(12)
    ensures forall i, r :: 0 <= i < |files| && files[i].shape != NothingFound && r in RowsOf(files[i]) ==>
              r in CollectRows(files)
    ensures forall r :: r in CollectRows(files) ==>
              exists i :: 0 <= i < |files| && files[i].shape != NothingFound && r in RowsOf(files[i])
  {
    forall i, r | 0 <= i < |files| && files[i].shape != NothingFound && r in RowsOf(files[i])
      ensures r in CollectRows(files)
    {
      FileNameRoundTrip(files[i].ewb, files[i].shape);
      RowsOfShapeComplete(files, files[i].shape, i);
    }
  }
}
