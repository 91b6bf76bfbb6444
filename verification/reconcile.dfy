/** The row logic of the stock-statement step (`xlsx_mergejoinsort_stock_stmt`
    up to the per-group sheets): quantity texts are split into a number and a
    unit, detail rows are inner-joined with the portal report on the bill
    number, rows are put in time order, implausibly large quantities are
    scaled down, and each row's purchase and sale sides are filled from the
    report and emptied on the side that names the GSTIN itself. */
module Reconcile {
  import opened Wrappers
  import Text
  import Seqs
  import DetailPage

  /** One row of the merged portal report. `time` stands for the bill's
      generation timestamp, ordered as the timestamps are. */
  datatype ReportRow = ReportRow(ewb: nat, time: int, fromParty: string, toParty: string,
                                 assessVal: real, taxVal: real, hsnCode: string, vehicle: string)

  /** The number before the first space of an upper-cased quantity text and
      the unit after it. */
  datatype QtyText = QtyText(token: string, unit: string)

  /** The quantity text upper-cased, with a space appended, split at
      spaces: the first piece is the number, the second the unit. */
  function SplitQuantity(text: string): (r: QtyText)
    ensures ' ' !in r.token && ' ' !in r.unit
    ensures |r.token| + |r.unit| <= |text|
  {
    var up := Text.Upper(text) + " ";
    assert up[|text|] == ' ';
    Text.SplitAtLeastTwo(up, ' ');
    var parts := Text.Split(up, ' ');
    Text.JoinSplit(up, ' ');
    JoinPrefixLength(parts);
    QtyText(parts[0], parts[1])
  }

  lemma JoinPrefixLength(parts: seq<string>)
    requires |parts| >= 2
    ensures |parts[0]| + |parts[1]| + 1 <= |Text.Join(parts, ' ')|
  {
    if |parts| > 2 {
      assert Text.Join(parts[1..], ' ') == parts[1] + [' '] + Text.Join(parts[2..], ' ');
    }
  }

  /** A quantity written as a number, one space and a unit splits into the
      upper-cased number and unit. */
  lemma SplitQuantityOfPair(q: string, u: string)
    requires ' ' !in q && ' ' !in u
    ensures SplitQuantity(q + " " + u) == QtyText(Text.Upper(q), Text.Upper(u))
  {
    var up := Text.Upper(q + " " + u) + " ";
    var uq := Text.Upper(q);
    var uu := Text.Upper(u);
    assert ' ' !in uq by {
      forall i | 0 <= i < |uq| ensures uq[i] != ' ' { assert q[i] != ' '; }
    }
    assert ' ' !in uu by {
      forall i | 0 <= i < |uu| ensures uu[i] != ' ' { assert u[i] != ' '; }
    }
    Text.UpperAppend(q + " ", u);
    Text.UpperAppend(q, " ");
    assert Text.Upper(" ") == " ";
    assert up == uq + " " + uu + " ";
    assert Text.Join([uq, uu, ""], ' ') == uq + [' '] + Text.Join([uu, ""], ' ');
    assert up == Text.Join([uq, uu, ""], ' ');
    Text.SplitJoin([uq, uu, ""], ' ');
  }

  /** A quantity without a unit splits into the upper-cased number and an
      empty unit. */
  lemma SplitQuantityBare(q: string)
    requires ' ' !in q
    ensures SplitQuantity(q) == QtyText(Text.Upper(q), "")
  {
    var uq := Text.Upper(q);
    assert ' ' !in uq by {
      forall i | 0 <= i < |uq| ensures uq[i] != ' ' { assert q[i] != ' '; }
    }
    assert Text.Upper(q) + " " == Text.Join([uq, ""], ' ');
    Text.SplitJoin([uq, ""], ' ');
  }

  /** A quantity cell: a number, or missing (`NaN`). */
  datatype Qty = Value(v: real) | Missing

  /** A non-empty run of digits with at most one '.' somewhere, read as a
      decimal number. */
  function ParseUnsigned(s: string): Option<real> {
    match Text.SplitFirst(s, '.')
    case None =>
      if |s| >= 1 && Text.AllDigits(s) then Some(Text.ParseNat(s) as real) else None
    case Some((whole, frac)) =>
      if |whole| + |frac| >= 1 && Text.AllDigits(whole) && Text.AllDigits(frac) then
        Some(Text.ParseNat(whole) as real + Fraction(frac))
      else None
  }

  /** The value of the digits after a decimal point. */
  function Fraction(frac: string): real
    requires Text.AllDigits(frac)
  {
    Text.ParseNat(frac) as real / Text.Pow10(|frac|) as real
  }

  /** Python's `float` on an upper-cased number token: an optional sign and a
      decimal number, or "NAN" for a missing value; `None` where `float`
      raises. */
  function ParseToken(t: string): (r: Option<Qty>)
    ensures t == "NAN" ==> r == Some(Missing)
    ensures t == "" ==> r.None?
  {
    if t == "NAN" || t == "+NAN" || t == "-NAN" then Some(Missing)
    else if |t| > 0 && t[0] == '-' then
      match ParseUnsigned(t[1..])
      case None => None
      case Some(v) => Some(Value(-v))
    else if |t| > 0 && t[0] == '+' then
      match ParseUnsigned(t[1..])
      case None => None
      case Some(v) => Some(Value(v))
    else
      match ParseUnsigned(t)
      case None => None
      case Some(v) => Some(Value(v))
  }

  /** A whole number's decimal text reads back as that number. */
  lemma ParseTokenOfNat(n: nat)
    ensures ParseToken(Text.NatToString(n)) == Some(Value(n as real))
  {
    var s := Text.NatToString(n);
    Text.ParseNatOfNatToString(n);
    assert '.' !in s by {
      forall i | 0 <= i < |s| ensures s[i] != '.' { assert Text.IsDigit(s[i]); }
    }
  }

  /** `w.f` reads back as `w` plus the fraction `f / 10^|f|`. */
  lemma ParseTokenOfDecimal(w: nat, frac: string)
    requires Text.AllDigits(frac)
    ensures ParseToken(Text.NatToString(w) + "." + frac) == Some(Value(w as real + Fraction(frac)))
  {
    var ws := Text.NatToString(w);
    var s := ws + "." + frac;
    ParseUnsignedOfDecimal(w, frac);
    assert s[0] == ws[0] && Text.IsDigit(ws[0]);
    assert s != "NAN" && s != "+NAN" && s != "-NAN" by {
      assert s[0] != 'N' && s[0] != '+' && s[0] != '-';
    }
  }

  lemma ParseUnsignedOfDecimal(w: nat, frac: string)
    requires Text.AllDigits(frac)
    ensures ParseUnsigned(Text.NatToString(w) + "." + frac) == Some(w as real + Fraction(frac))
  {
    var ws := Text.NatToString(w);
    Text.ParseNatOfNatToString(w);
    assert '.' !in ws by {
      forall i | 0 <= i < |ws| ensures ws[i] != '.' { assert Text.IsDigit(ws[i]); }
    }
    Text.SplitFirstOfJoin(ws, '.', frac);
    assert ws + "." + frac == ws + ['.'] + frac;
  }

  /** A detail row with its quantity split and parsed. */
  datatype Prepared = Prepared(ewb: nat, qty: Qty, unit: string, dist: string, trans: string,
                               fromAddr: Option<string>, toAddr: Option<string>)

  /** One detail row's quantity and unit; `None` where `float` raises. */
  function Prepare(d: DetailPage.DetailRow): (r: Option<Prepared>)
    ensures r.Some? ==> r.value.ewb == d.ewb && r.value.unit == SplitQuantity(d.quantity).unit
  {
    var q := SplitQuantity(d.quantity);
    match ParseToken(q.token)
    case None => None
    case Some(v) => Some(Prepared(d.ewb, v, q.unit, d.dist, d.trans, d.fromAddr, d.toAddr))
  }

  /** All detail rows prepared; one unparseable quantity makes `astype(float)`
      raise and the whole step fail. */
  function PrepareAll(rows: seq<DetailPage.DetailRow>): (r: Result<seq<Prepared>, string>)
    ensures r.Success? <==> forall i :: 0 <= i < |rows| ==> Prepare(rows[i]).Some?
    ensures r.Success? ==> |r.value| == |rows| && forall i :: 0 <= i < |rows| ==> r.value[i] == Prepare(rows[i]).value
  {
    if |rows| == 0 then Success([])
    else
      match Prepare(rows[0])
      case None => Failure("could not convert string to float: " + SplitQuantity(rows[0].quantity).token)
      case Some(p) =>
        match PrepareAll(rows[1..])
        case Failure(e) => Failure(e)
        case Success(ps) =>
          assert forall i :: 1 <= i < |rows| ==> rows[i] == rows[1..][i - 1];
          Success([p] + ps)
  }

  /** A report row paired with one of its bill's detail rows. */
  datatype Joined = Joined(report: ReportRow, detail: Prepared)

  function Matches(r: ReportRow, details: seq<Prepared>): (js: seq<Joined>)
    ensures forall j :: j in js <==> j.report == r && j.detail in details && j.detail.ewb == r.ewb
  {
    if |details| == 0 then []
    else
      var last := details[|details| - 1];
      var init := Matches(r, details[..|details| - 1]);
      assert details == details[..|details| - 1] + [last];
      init + (if last.ewb == r.ewb then [Joined(r, last)] else [])
  }

  /** The inner join of the report and the detail rows on the bill number:
      every pair of a report row and a detail row of the same bill, in
      report-row order. */
  function InnerJoin(report: seq<ReportRow>, details: seq<Prepared>): (js: seq<Joined>)
    ensures forall j :: j in js <==> j.report in report && j.detail in details && j.report.ewb == j.detail.ewb
  {
    if |report| == 0 then []
    else
      var last := report[|report| - 1];
      assert report == report[..|report| - 1] + [last];
      InnerJoin(report[..|report| - 1], details) + Matches(last, details)
  }

  /** A bill missing from either side contributes no joined row. */
  lemma InnerJoinDropsUnmatched(report: seq<ReportRow>, details: seq<Prepared>, ewb: nat)
    requires (forall i :: 0 <= i < |report| ==> report[i].ewb != ewb)
             || (forall i :: 0 <= i < |details| ==> details[i].ewb != ewb)
    ensures forall j :: j in InnerJoin(report, details) ==> j.report.ewb != ewb
  {
  }

  /** How often a pair occurs in the matches of one report row: once per
      copy of the detail row when the pair is that report row with a detail
      row of its bill, never otherwise. */
  lemma {:induction false} MatchesMultiplicity(r: ReportRow, details: seq<Prepared>, j: Joined)
    ensures multiset(Matches(r, details))[j]
            == if j.report == r && j.detail.ewb == r.ewb then multiset(details)[j.detail] else 0
    decreases |details|
  {
    if |details| > 0 {
      var init := details[..|details| - 1];
      var last := details[|details| - 1];
      assert details == init + [last];
      MatchesMultiplicity(r, init, j);
      assert Matches(r, details) == Matches(r, init) + (if last.ewb == r.ewb then [Joined(r, last)] else []);
      assert multiset(details)[j.detail] == multiset(init)[j.detail] + (if last == j.detail then 1 else 0);
    }
  }

  /** The inner join keeps duplicates on both sides: a pair of a report row
      and a detail row of the same bill occurs once for every copy of the
      report row times every copy of the detail row, and a pair of
      different bills never occurs. */
  lemma {:induction false} InnerJoinMultiplicity(report: seq<ReportRow>, details: seq<Prepared>, j: Joined)
    ensures multiset(InnerJoin(report, details))[j]
            == if j.report.ewb == j.detail.ewb then multiset(report)[j.report] * multiset(details)[j.detail] else 0
    decreases |report|
  {
    if |report| > 0 {
      var init := report[..|report| - 1];
      var last := report[|report| - 1];
      assert report == init + [last];
      InnerJoinMultiplicity(init, details, j);
      MatchesMultiplicity(last, details, j);
      assert InnerJoin(report, details) == InnerJoin(init, details) + Matches(last, details);
      var a := multiset(init)[j.report];
      var b := multiset(details)[j.detail];
      assert multiset(InnerJoin(report, details))[j]
             == multiset(InnerJoin(init, details))[j] + multiset(Matches(last, details))[j];
      assert multiset(report)[j.report] == a + (if last == j.report then 1 else 0);
      if j.report.ewb == j.detail.ewb && last == j.report {
        MulSucc(a, b);
      }
    }
  }

  lemma MulSucc(a: nat, b: nat)
    ensures (a + 1) * b == a * b + b
  {
  }

  /** One pass of the correction: a quantity above 100 is divided by 1000;
      a missing value fails the comparison and stays missing. */
  function CorrectOnce(q: Qty): Qty {
    match q
    case Missing => Missing
    case Value(v) => if v > 100.0 then Value(v / 1000.0) else Value(v)
  }

  /** The correction as the step runs it: twice in a row. */
  function CorrectQty(q: Qty): Qty {
    CorrectOnce(CorrectOnce(q))
  }

  /** Quantities up to 100 stay; up to 100000 they are divided by 1000;
      above that, by 10^6; missing ones stay missing. So 150 becomes 0.15,
      200000 becomes 0.2, and 100 stays 100. */
  lemma CorrectQtyCases(q: Qty)
    ensures q.Missing? ==> CorrectQty(q) == Missing
    ensures q.Value? && q.v <= 100.0 ==> CorrectQty(q) == q
    ensures q.Value? && 100.0 < q.v <= 100000.0 ==> CorrectQty(q) == Value(q.v / 1000.0)
    ensures q.Value? && 100000.0 < q.v ==> CorrectQty(q) == Value(q.v / 1000000.0)
  {
  }

  /** Quantity, value, tax and vehicle of one side of a bill. */
  datatype Side = Side(qty: real, value: real, taxVal: real, vehicle: string)

  const EmptySide := Side(0.0, 0.0, 0.0, "")

  /** A missing quantity counts as 0 (`fillna(0)`). */
  function QtyOrZero(q: Qty): real {
    match q
    case Missing => 0.0
    case Value(v) => v
  }

  /** A joined row ready for the statement: report fields, detail fields, and
      the purchase and sale sides. */
  datatype StockRow = StockRow(ewb: nat, time: int, hsnCode: string, trans: string, dist: string,
                               fromAddr: Option<string>, toAddr: Option<string>,
                               purchaseFrom: string, saleTo: string, purchase: Side, sale: Side)

  /** The corrected quantity of a joined row, a missing one counting as 0. */
  function RowQty(j: Joined): real {
    QtyOrZero(CorrectQty(j.detail.qty))
  }

  /** Both sides start as the row's corrected quantity and the report's
      values; a side whose party text contains the GSTIN is emptied. */
  function ToStockRow(j: Joined, gstin: string): (s: StockRow)
    ensures s.ewb == j.report.ewb && s.time == j.report.time
  {
    var full := Side(RowQty(j), j.report.assessVal, j.report.taxVal, j.report.vehicle);
    StockRow(j.report.ewb, j.report.time, j.report.hsnCode, j.detail.trans, j.detail.dist,
             j.detail.fromAddr, j.detail.toAddr, j.report.fromParty, j.report.toParty,
             if Text.Contains(j.report.fromParty, gstin) then EmptySide else full,
             if Text.Contains(j.report.toParty, gstin) then EmptySide else full)
  }

  /** What a row adds to the stock: purchased minus sold quantity. */
  function Net(r: StockRow): real {
    r.purchase.qty - r.sale.qty
  }

  /** A bill received by the GSTIN (only the recipient text names it) adds
      its quantity to the stock, a bill sent by it (only the supplier text
      names it) takes the quantity away, and a bill both or neither name
      leaves the stock unchanged. A side named by the GSTIN carries nothing;
      a side not named carries the report's value, tax and vehicle. */
  lemma SidesByParty(j: Joined, gstin: string)
    ensures Net(ToStockRow(j, gstin))
            == if Text.Contains(j.report.toParty, gstin) && !Text.Contains(j.report.fromParty, gstin) then RowQty(j)
               else if Text.Contains(j.report.fromParty, gstin) && !Text.Contains(j.report.toParty, gstin) then -RowQty(j)
               else 0.0
    ensures Text.Contains(j.report.fromParty, gstin) ==> ToStockRow(j, gstin).purchase == EmptySide
    ensures Text.Contains(j.report.toParty, gstin) ==> ToStockRow(j, gstin).sale == EmptySide
    ensures !Text.Contains(j.report.fromParty, gstin) ==>
              ToStockRow(j, gstin).purchase.value == j.report.assessVal
              && ToStockRow(j, gstin).purchase.taxVal == j.report.taxVal
              && ToStockRow(j, gstin).purchase.vehicle == j.report.vehicle
    ensures !Text.Contains(j.report.toParty, gstin) ==>
              ToStockRow(j, gstin).sale.value == j.report.assessVal
              && ToStockRow(j, gstin).sale.taxVal == j.report.taxVal
              && ToStockRow(j, gstin).sale.vehicle == j.report.vehicle
  {
  }

  /** An inward bill (recipient is the GSTIN, supplier is not) keeps only its
      purchase side; an outward bill keeps only its sale side. */
  lemma OneSidedBills(j: Joined, gstin: string)
    ensures Text.Contains(j.report.toParty, gstin) && !Text.Contains(j.report.fromParty, gstin) ==>
              ToStockRow(j, gstin).sale == EmptySide
              && ToStockRow(j, gstin).purchase.qty == RowQty(j)
    ensures Text.Contains(j.report.fromParty, gstin) && !Text.Contains(j.report.toParty, gstin) ==>
              ToStockRow(j, gstin).purchase == EmptySide
              && ToStockRow(j, gstin).sale.qty == RowQty(j)
  {
  }

  function JoinedTime(j: Joined): int {
    j.report.time
  }

  function StockRowTime(s: StockRow): int {
    s.time
  }

  function ToStockRows(js: seq<Joined>, gstin: string): (rs: seq<StockRow>)
    ensures |rs| == |js|
    ensures forall i :: 0 <= i < |js| ==> rs[i] == ToStockRow(js[i], gstin)
  {
    seq(|js|, i requires 0 <= i < |js| => ToStockRow(js[i], gstin))
  }

  /** The rows of the step: details prepared, joined with the report, sorted
      by time and turned into stock rows. Fails when a quantity does not
      parse. */
  function StockRows(report: seq<ReportRow>, details: seq<DetailPage.DetailRow>, gstin: string)
    : (r: Result<seq<StockRow>, string>)
    ensures r.Success? <==> forall i :: 0 <= i < |details| ==> Prepare(details[i]).Some?
  {
    match PrepareAll(details)
    case Failure(e) => Failure(e)
    case Success(ps) =>
      var sorted := Seqs.SortBy(InnerJoin(report, ps), JoinedTime);
      Success(ToStockRows(sorted, gstin))
  }

  /** The rows come in time order and are the stock rows of the joined
      pairs, each pair giving exactly one row: a permutation of the joined
      pairs' stock rows. */
  lemma StockRowsJoin(report: seq<ReportRow>, details: seq<DetailPage.DetailRow>, gstin: string)
    requires StockRows(report, details, gstin).Success?
    ensures |StockRows(report, details, gstin).value| == |InnerJoin(report, PrepareAll(details).value)|
    ensures Seqs.SortedBy(StockRows(report, details, gstin).value, StockRowTime)
    ensures multiset(StockRows(report, details, gstin).value)
            == multiset(ToStockRows(InnerJoin(report, PrepareAll(details).value), gstin))
  {
    var js := InnerJoin(report, PrepareAll(details).value);
    var sorted := Seqs.SortBy(js, JoinedTime);
    StockRowsValue(report, details, gstin);
    StockRowsInTimeOrder(sorted, gstin);
    ToStockRowsPermutation(sorted, js, gstin);
  }

  lemma StockRowsValue(report: seq<ReportRow>, details: seq<DetailPage.DetailRow>, gstin: string)
    requires StockRows(report, details, gstin).Success?
    ensures PrepareAll(details).Success?
    ensures StockRows(report, details, gstin).value
            == ToStockRows(Seqs.SortBy(InnerJoin(report, PrepareAll(details).value), JoinedTime), gstin)
  {
  }

  /** Stock rows of time-ordered pairs are in time order. */
  lemma StockRowsInTimeOrder(sorted: seq<Joined>, gstin: string)
    requires Seqs.SortedBy(sorted, JoinedTime)
    ensures Seqs.SortedBy(ToStockRows(sorted, gstin), StockRowTime)
  {
    var rs := ToStockRows(sorted, gstin);
    forall a, b | 0 <= a < b < |rs|
      ensures StockRowTime(rs[a]) <= StockRowTime(rs[b])
    {
      assert JoinedTime(sorted[a]) <= JoinedTime(sorted[b]);
    }
  }

  lemma ToStockRowsAppend(a: seq<Joined>, b: seq<Joined>, gstin: string)
    ensures ToStockRows(a + b, gstin) == ToStockRows(a, gstin) + ToStockRows(b, gstin)
  {
    var l := ToStockRows(a + b, gstin);
    var r := ToStockRows(a, gstin) + ToStockRows(b, gstin);
    forall i | 0 <= i < |l|
      ensures l[i] == r[i]
    {
      if i >= |a| {
        assert (a + b)[i] == b[i - |a|];
      }
    }
  }

  /** Rearranging the pairs rearranges their stock rows the same way. */
  lemma {:induction false} ToStockRowsPermutation(xs: seq<Joined>, ys: seq<Joined>, gstin: string)
    requires multiset(xs) == multiset(ys)
    ensures multiset(ToStockRows(xs, gstin)) == multiset(ToStockRows(ys, gstin))
    decreases |xs|
  {
    if |xs| > 0 {
      var x := xs[0];
      assert x in multiset(ys);
      var i :| 0 <= i < |ys| && ys[i] == x;
      var front, back := ys[..i], ys[i + 1..];
      assert ys == front + [x] + back;
      assert xs == [x] + xs[1..];
      assert multiset(xs) == multiset{x} + multiset(xs[1..]);
      assert multiset(ys) == multiset(front) + multiset{x} + multiset(back);
      assert multiset(front + back) == multiset(front) + multiset(back);
      forall z
        ensures multiset(xs[1..])[z] == multiset(front + back)[z]
      {
        assert multiset(xs)[z] == multiset(ys)[z];
      }
      assert multiset(xs[1..]) == multiset(front + back);
      ToStockRowsPermutation(xs[1..], front + back, gstin);
      ToStockRowsAppend([x], xs[1..], gstin);
      ToStockRowsAppend(front, back, gstin);
      ToStockRowsAppend(front + [x], back, gstin);
      ToStockRowsAppend(front, [x], gstin);
    }
  }

  // ---------------------------------------------------------------------
  // Empty cells of the saved detail tables

  /** A text starting with "nan" and then a space, or nothing, has the
      number token "NAN". */
  lemma NaNToken(rest: string)
    requires rest == "" || rest[0] == ' '
    ensures SplitQuantity(DetailPage.NaNText + rest).token == "NAN"
  {
    var up := Text.Upper(DetailPage.NaNText + rest) + " ";
    Text.UpperAppend(DetailPage.NaNText, rest);
    assert Text.Upper(DetailPage.NaNText) == "NAN";
    var t := (Text.Upper(rest) + " ")[1..];
    assert up == "NAN" + [' '] + t;
    Text.SplitAfterPiece("NAN", ' ', t);
  }

  /** An empty quantity cell, or an empty unit cell of an IRN row, reads
      back as a missing quantity, which the statement counts as 0. */
  lemma EmptyCellIsMissing(s: DetailPage.Shape, row: DetailPage.TableRow)
    requires row.quantity.None? || (s == DetailPage.IrnTable && row.unit.None?)
    ensures ParseToken(SplitQuantity(DetailPage.QuantityText(s, row)).token) == Some(Missing)
    ensures QtyOrZero(CorrectQty(Missing)) == 0.0
  {
    var t := DetailPage.QuantityText(s, row);
    if t == DetailPage.NaNText {
      NaNToken("");
      assert DetailPage.NaNText + "" == t;
    } else {
      assert s == DetailPage.IrnTable && row.unit.Some?;
      NaNToken(" " + row.unit.value);
      assert t == DetailPage.NaNText + (" " + row.unit.value);
    }
  }

  /** Filled cells without spaces read back as their upper-cased number and
      unit; an item-table quantity has no unit. */
  lemma FilledCellsSplit(q: string, u: string)
    requires ' ' !in q && ' ' !in u
    ensures SplitQuantity(DetailPage.QuantityText(DetailPage.IrnTable, DetailPage.TableRow(Some(q), Some(u))))
            == QtyText(Text.Upper(q), Text.Upper(u))
    ensures SplitQuantity(DetailPage.QuantityText(DetailPage.Primary, DetailPage.TableRow(Some(q), None)))
            == QtyText(Text.Upper(q), "")
  {
    SplitQuantityOfPair(q, u);
    SplitQuantityBare(q);
  }
}
