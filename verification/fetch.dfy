/** The portal search of the scraper worker: the direction radio button, the
    date range typed into the form, the state groups queried, and the names
    of the files a GSTIN's searches save (`download_EWB_for_gstin` and its
    helpers). The browser is not modelled: whether the export button shows
    up for a search is a parameter. */
module Fetch {
  import opened Wrappers
  import Text
  import Seqs
  import Calendar

  const InRadioButton: string := "input[id=\"ctl00_ContentPlaceHolder1_RBL_OutInward_1\"]"
  const OutRadioButton: string := "input[id=\"ctl00_ContentPlaceHolder1_RBL_OutInward_0\"]"

  /** Inward (purchase) or outward (sale) e-way bills. */
  datatype Direction = Inward | Outward

  /** The prefixes `main` passes for the two directions (`_IN_`, `_OUT_`). */
  const InPrefix := "In"
  const OutPrefix := "Out"

  /** The prefix the worker passes around for a direction. */
  function Prefix(d: Direction): string {
    match d
    case Inward => InPrefix
    case Outward => OutPrefix
  }

  function ParseDirection(s: string): (r: Option<Direction>)
    ensures r.Some? ==> Prefix(r.value) == s
    ensures forall d :: Prefix(d) == s ==> r == Some(d)
  {
    if s == "In" then Some(Inward)
    else if s == "Out" then Some(Outward)
    else None
  }

  /** The message of the `ValueError` an unknown direction prefix raises,
      led by a cross-mark emoji. */
  const InvalidRadioMessage := "\U{274C} Invalid radio button type: "

  /** `_get_radio_button_selector`: the radio button of a direction prefix;
      any other text raises `ValueError`. */
  function RadioSelector(radioType: string): (r: Result<string, string>)
    ensures r.Success? <==> ParseDirection(radioType).Some?
    ensures r.Success? && ParseDirection(radioType) == Some(Inward) ==> r.value == InRadioButton
    ensures r.Success? && ParseDirection(radioType) == Some(Outward) ==> r.value == OutRadioButton
    ensures r.Failure? ==> r.error == InvalidRadioMessage + radioType
  {
    if radioType == "Out" then Success(OutRadioButton)
    else if radioType == "In" then Success(InRadioButton)
    else Failure(InvalidRadioMessage + radioType)
  }

  /** The two directions click different radio buttons. */
  lemma RadioSelectorSeparatesDirections(d1: Direction, d2: Direction)
    ensures RadioSelector(Prefix(d1)).Success? && RadioSelector(Prefix(d2)).Success?
    ensures RadioSelector(Prefix(d1)) == RadioSelector(Prefix(d2)) <==> d1 == d2
  {
  }

  /** `_get_month_number`: the month number of a name, January when the
      name is unknown. */
  function MonthNumberOrJanuary(name: string): (m: int)
    ensures 1 <= m <= 12
    ensures name in Calendar.MonthNames ==> Calendar.MonthNames[m - 1] == name
    ensures name !in Calendar.MonthNames ==> m == 1
  {
    Calendar.MonthNumber(name).GetOr(1)
  }

  /** A `dd/mm/yyyy` date as the form's date fields take it. */
  function DateText(day: int, month: int, year: int): string {
    Text.FormatInt(day, 2) + "/" + Text.FormatInt(month, 2) + "/" + Text.IntToString(year)
  }

  /** The "from" field of a period's search: its first day. */
  function FromDate(p: Calendar.Period): string {
    DateText(1, MonthNumberOrJanuary(p.monthName), p.year)
  }

  /** The "to" field of a period's search: `lastDay` of the period's month. */
  function ToDate(lastDay: int, p: Calendar.Period): string {
    DateText(lastDay, MonthNumberOrJanuary(p.monthName), p.year)
  }

  lemma TwoDigitWidth(n: int)
    requires 0 <= n < 100
    ensures |Text.FormatInt(n, 2)| == 2
  {
    Text.NatToStringLength(n, 2);
    assert Text.Pow10(2) == 100 by {
      assert Text.Pow10(1) == 10;
    }
  }

  lemma ThreeFields(a: string, b: string, c: string)
    requires |a| == 2 && |b| == 2
    ensures var t := a + "/" + b + "/" + c;
            && |t| >= 6 && t[2] == '/' && t[5] == '/'
            && t[..2] == a && t[3..5] == b && t[6..] == c
            && t[2..] == "/" + b + "/" + c
  {
  }

  /** A two-digit day and month give a text with the separators at
      positions 2 and 5 whose three fields read back as day, month and
      year. */
  lemma DateTextFields(day: int, month: int, year: int)
    requires 0 <= day < 100 && 0 <= month < 100
    ensures var t := DateText(day, month, year);
            && |t| >= 7 && t[2] == '/' && t[5] == '/'
            && Text.ParseInt(t[..2]) == Some(day)
            && Text.ParseInt(t[3..5]) == Some(month)
            && Text.ParseInt(t[6..]) == Some(year)
  {
    var d := Text.FormatInt(day, 2);
    var m := Text.FormatInt(month, 2);
    var y := Text.IntToString(year);
    TwoDigitWidth(day);
    TwoDigitWidth(month);
    Text.FormatIntRoundTrip(day, 2);
    Text.FormatIntRoundTrip(month, 2);
    Text.FormatIntRoundTrip(year, 0);
    ThreeFields(d, m, y);
  }

  /** The date fields of a search cover the first day of the period's month
      (January for an unknown name) to `lastDay` of it. */
  lemma SearchDateFields(lastDay: int, p: Calendar.Period)
    requires 1 <= lastDay <= 31
    ensures var f := FromDate(p);
            var t := ToDate(lastDay, p);
            var m := MonthNumberOrJanuary(p.monthName);
            && f[..2] == "01" && f[2..] == t[2..]
            && Text.ParseInt(t[..2]) == Some(lastDay)
            && Text.ParseInt(t[3..5]) == Some(m)
            && Text.ParseInt(t[6..]) == Some(p.year)
  {
    var m := MonthNumberOrJanuary(p.monthName);
    var one := Text.FormatInt(1, 2);
    var last := Text.FormatInt(lastDay, 2);
    var mm := Text.FormatInt(m, 2);
    var y := Text.IntToString(p.year);
    DateTextFields(lastDay, m, p.year);
    TwoDigitWidth(1);
    TwoDigitWidth(lastDay);
    TwoDigitWidth(m);
    ThreeFields(one, mm, y);
    ThreeFields(last, mm, y);
    FirstDayText();
  }

  lemma FirstDayText()
    ensures Text.FormatInt(1, 2) == "01"
  {
    assert Text.NatToString(1) == "1";
  }

  /** The state-group drop-down of the portal: option value and the group
      name used in file names. */
  const StateOptions: seq<(string, string)> := [
    ("0", "Select State"),
    ("1", "Andhra_Pradesh_Goa_Karnataka_Telangana"),
    ("2", "Maharashtra"),
    ("3", "Chandigarh_Haryana_HimachalPradesh_JammuKashmir_Punjab_Uttarakhand"),
    ("4", "Jharkhand_UttarPradesh"),
    ("5", "Kerala_Lakshadweep_Puducherry_TamilNadu"),
    ("6", "DadraNagarHaveli_Daman_Diu_Gujarat_MadhyaPradesh_Chhattisgarh"),
    ("7", "Delhi_Rajasthan")
  ]

  /** The value of the drop-down's "Select State" entry, never searched. */
  const PlaceholderState: string := "0"

  function IsQueried(option: (string, string)): bool {
    option.0 != PlaceholderState
  }

  /** The options a period is searched for, in drop-down order. */
  function QueriedStates(options: seq<(string, string)>): (r: seq<(string, string)>)
    ensures forall o :: o in r <==> o in options && o.0 != PlaceholderState
  {
    Seqs.Filter(options, IsQueried)
  }

  /** The portal's drop-down yields seven state groups, every option but the
      first. */
  lemma PortalStateGroups()
    ensures QueriedStates(StateOptions) == StateOptions[1..]
    ensures |QueriedStates(StateOptions)| == 7
  {
    var s := StateOptions;
    forall i | 1 <= i < 8
      ensures IsQueried(s[i])
    {
      assert s[i].0[0] != '0';
    }
    Seqs.FilterTail(s, IsQueried);
  }

  /** The state groups' names are pairwise different. */
  lemma StateNamesDistinct()
    ensures forall i, j :: 1 <= i < j < 8 ==> StateOptions[i].1 != StateOptions[j].1
  {
    var s := StateOptions;
    forall i, j | 1 <= i < j < 8
      ensures s[i].1 != s[j].1
    {
      assert |s[i].1| != |s[j].1|;
    }
  }

  /** What identifies one downloaded search result. */
  datatype DownloadKey = DownloadKey(direction: Direction, gstin: string, period: Calendar.Period, stateName: string)

  /** The base name of a saved search: `<In|Out>_<gstin>_<year>_<month>_<state>`. */
  function DownloadName(k: DownloadKey): string {
    Prefix(k.direction) + "_" + k.gstin + "_" + Text.IntToString(k.period.year) + "_"
    + k.period.monthName + "_" + k.stateName
  }

  const XlsSuffix := ".xls"

  /** Where the search result is saved. */
  function DownloadPath(downloadsDir: string, k: DownloadKey): string {
    downloadsDir + "/" + DownloadName(k) + XlsSuffix
  }

  /** The key of a saved search's path in `downloadsDir`, if it is one. */
  function DecodeDownloadPath(downloadsDir: string, path: string): Option<DownloadKey> {
    var head := downloadsDir + "/";
    if |path| >= |head| + |XlsSuffix| && path[..|head|] == head && path[|path| - |XlsSuffix|..] == XlsSuffix then
      DecodeDownloadName(path[|head|..|path| - |XlsSuffix|])
    else None
  }

  /** The first four '_'-separated fields of a text and the rest after
      them. */
  function Fields(s: string): Option<(string, string, string, string, string)> {
    match Text.SplitFirst(s, '_')
    case None => None
    case Some((f1, r1)) =>
      match Text.SplitFirst(r1, '_')
      case None => None
      case Some((f2, r2)) =>
        match Text.SplitFirst(r2, '_')
        case None => None
        case Some((f3, r3)) =>
          match Text.SplitFirst(r3, '_')
          case None => None
          case Some((f4, rest)) => Some((f1, f2, f3, f4, rest))
  }

  lemma FieldsOfJoin(a: string, b: string, c: string, d: string, e: string)
    requires '_' !in a && '_' !in b && '_' !in c && '_' !in d
    ensures Fields(a + "_" + b + "_" + c + "_" + d + "_" + e) == Some((a, b, c, d, e))
  {
    var r3 := d + "_" + e;
    var r2 := c + "_" + r3;
    var r1 := b + "_" + r2;
    assert a + "_" + b + "_" + c + "_" + d + "_" + e == a + ['_'] + r1;
    Text.SplitFirstOfJoin(a, '_', r1);
    Text.SplitFirstOfJoin(b, '_', r2);
    Text.SplitFirstOfJoin(c, '_', r3);
    Text.SplitFirstOfJoin(d, '_', e);
  }

  /** Reads a base name back into its key: the first four '_'-separated
      fields are direction, GSTIN, year and month, the rest is the state
      group (whose names contain '_'). */
  function DecodeDownloadName(s: string): Option<DownloadKey> {
    match Fields(s)
    case None => None
    case Some((dir, gstin, year, month, state)) =>
      match (ParseDirection(dir), Text.ParseInt(year))
      case (Some(d), Some(y)) => Some(DownloadKey(d, gstin, Calendar.Period(month, y), state))
      case _ => None
  }

  /** GSTINs and month names contain no '_'. */
  predicate Underscoreless(k: DownloadKey) {
    '_' !in k.gstin && '_' !in k.period.monthName
  }

  lemma NoUnderscoreInYear(year: int)
    ensures '_' !in Text.IntToString(year)
  {
    Text.FormatIntChars(year, 0);
  }

  /** The base name of a download determines its key. */
  lemma DownloadNameRoundTrip(k: DownloadKey)
    requires Underscoreless(k)
    ensures DecodeDownloadName(DownloadName(k)) == Some(k)
  {
    var p := Prefix(k.direction);
    var y := Text.IntToString(k.period.year);
    NoUnderscoreInYear(k.period.year);
    assert '_' !in p;
    FieldsOfJoin(p, k.gstin, y, k.period.monthName, k.stateName);
    Text.FormatIntRoundTrip(k.period.year, 0);
    DecodeOfFields(DownloadName(k), p, y, k);
  }

  lemma DecodeOfFields(s: string, p: string, y: string, k: DownloadKey)
    requires Fields(s) == Some((p, k.gstin, y, k.period.monthName, k.stateName))
    requires ParseDirection(p) == Some(k.direction)
    requires Text.ParseInt(y) == Some(k.period.year)
    ensures DecodeDownloadName(s) == Some(k)
  {
  }

  /** Different searches never overwrite each other's files. */
  lemma DownloadNameInjective(k1: DownloadKey, k2: DownloadKey)
    requires Underscoreless(k1) && Underscoreless(k2)
    ensures DownloadName(k1) == DownloadName(k2) <==> k1 == k2
  {
    DownloadNameRoundTrip(k1);
    DownloadNameRoundTrip(k2);
  }

  /** One search of the portal: form contents and the key of its file. */
  datatype Search = Search(fromDate: string, toDate: string, stateValue: string, key: DownloadKey)

  /** The searches for one period, one per state group in `groups` order;
      `None` when the period's month name is unknown (the last-day lookup
      raises). */
  function PeriodSearches(groups: seq<(string, string)>, d: Direction, gstin: string, p: Calendar.Period, today: Calendar.Date)
    : (r: Option<seq<Search>>)
    ensures r.None? <==> p.monthName !in Calendar.MonthNames
    ensures r.Some? ==> |r.value| == |groups|
    ensures r.Some? ==> forall i :: 0 <= i < |r.value| ==>
              r.value[i].stateValue == groups[i].0
              && r.value[i].key == DownloadKey(d, gstin, p, groups[i].1)
  {
    match Calendar.LastDayOfPeriod(p, today)
    case None => None
    case Some(lastDay) =>
      Some(seq(|groups|, i requires 0 <= i < |groups| =>
        Search(FromDate(p), ToDate(lastDay, p), groups[i].0, DownloadKey(d, gstin, p, groups[i].1))))
  }

  /** Every search of a period submits the period's date range: the first of
      its month, and its last day as the portal may be asked for it. */
  lemma PeriodSearchesDates(groups: seq<(string, string)>, d: Direction, gstin: string, p: Calendar.Period,
                            today: Calendar.Date, i: nat)
    requires PeriodSearches(groups, d, gstin, p, today).Some?
    requires i < |PeriodSearches(groups, d, gstin, p, today).value|
    ensures Calendar.LastDayOfPeriod(p, today).Some?
    ensures PeriodSearches(groups, d, gstin, p, today).value[i].fromDate == FromDate(p)
    ensures PeriodSearches(groups, d, gstin, p, today).value[i].toDate
            == ToDate(Calendar.LastDayOfPeriod(p, today).value, p)
  {
  }

  /** Read back, the dates a period's search submits are the first and the
      last day of the period's own month and year; for a valid `today` the
      last day is a real day of that month. */
  lemma PeriodSearchesDateFields(groups: seq<(string, string)>, d: Direction, gstin: string, p: Calendar.Period,
                                 today: Calendar.Date, i: nat)
    requires Calendar.ValidDate(today)
    requires PeriodSearches(groups, d, gstin, p, today).Some?
    requires i < |PeriodSearches(groups, d, gstin, p, today).value|
    ensures var s := PeriodSearches(groups, d, gstin, p, today).value[i];
            var m := Calendar.MonthNumber(p.monthName).value;
            var last := Calendar.LastDayOfPeriod(p, today).value;
            && s.fromDate[..2] == "01" && s.fromDate[2..] == s.toDate[2..]
            && Text.ParseInt(s.toDate[..2]) == Some(last)
            && Text.ParseInt(s.toDate[3..5]) == Some(m)
            && Text.ParseInt(s.toDate[6..]) == Some(p.year)
            && Calendar.ValidDate(Calendar.Date(p.year, m, last))
  {
    PeriodSearchesDates(groups, d, gstin, p, today, i);
    Calendar.LastDayOfPeriodInMonth(p, today);
    SearchDateFields(Calendar.LastDayOfPeriod(p, today).value, p);
  }

  /** The searches `download_EWB_for_gstin` runs, and whether it stopped
      early: an invalid prefix stops it before any search, an unknown month
      name stops it at that period. */
  function GstinSearches(prefix: string, gstin: string, periods: seq<Calendar.Period>, today: Calendar.Date): (r: (seq<Search>, bool))
    ensures ParseDirection(prefix).None? ==> r == ([], true)
    ensures ParseDirection(prefix).Some? ==>
              r == PeriodsSearches(QueriedStates(StateOptions), ParseDirection(prefix).value, gstin, periods, today)
  {
    match ParseDirection(prefix)
    case None => ([], true)
    case Some(d) => PeriodsSearches(QueriedStates(StateOptions), d, gstin, periods, today)
  }

  /** The searches for a list of periods, stopping at the first unknown
      month name (the second component then holds). */
  function PeriodsSearches(groups: seq<(string, string)>, d: Direction, gstin: string, periods: seq<Calendar.Period>, today: Calendar.Date)
    : (r: (seq<Search>, bool))
    ensures forall i :: 0 <= i < |r.0| ==> r.0[i].key.direction == d && r.0[i].key.gstin == gstin
  {
    if |periods| == 0 then ([], false)
    else
      match PeriodSearches(groups, d, gstin, periods[0], today)
      case None => ([], true)
      case Some(ss) =>
        var rest := PeriodsSearches(groups, d, gstin, periods[1..], today);
        (ss + rest.0, rest.1)
  }

  predicate AllMonthsKnown(periods: seq<Calendar.Period>) {
    forall i :: 0 <= i < |periods| ==> periods[i].monthName in Calendar.MonthNames
  }

  /** The searches stop early exactly when some period has an unknown month
      name. */
  lemma {:induction false} PeriodsSearchesStop(groups: seq<(string, string)>, d: Direction, gstin: string,
                                               periods: seq<Calendar.Period>, today: Calendar.Date)
    ensures PeriodsSearches(groups, d, gstin, periods, today).1 <==> !AllMonthsKnown(periods)
    decreases |periods|
  {
    if |periods| > 0 {
      var tail := periods[1..];
      PeriodsSearchesStop(groups, d, gstin, tail, today);
      assert forall i :: 1 <= i < |periods| ==> periods[i] == tail[i - 1];
    }
  }

  /** Without an early stop there is one search per group and period. */
  lemma {:induction false} PeriodsSearchesCount(groups: seq<(string, string)>, d: Direction, gstin: string,
                                                periods: seq<Calendar.Period>, today: Calendar.Date)
    ensures var r := PeriodsSearches(groups, d, gstin, periods, today);
            !r.1 ==> |r.0| == |groups| * |periods|
    decreases |periods|
  {
    if |periods| > 0 {
      var tail := periods[1..];
      PeriodsSearchesCount(groups, d, gstin, tail, today);
      match PeriodSearches(groups, d, gstin, periods[0], today)
      case None =>
      case Some(ss) =>
        var rest := PeriodsSearches(groups, d, gstin, tail, today);
        MulStep(|groups|, |periods|, |tail|);
    }
  }

  /** Every search is for one of the listed periods. */
  lemma {:induction false} PeriodsSearchesPeriods(groups: seq<(string, string)>, d: Direction, gstin: string,
                                                  periods: seq<Calendar.Period>, today: Calendar.Date)
    ensures forall i :: 0 <= i < |PeriodsSearches(groups, d, gstin, periods, today).0| ==>
              PeriodsSearches(groups, d, gstin, periods, today).0[i].key.period in periods
    decreases |periods|
  {
    if |periods| > 0 {
      var p := periods[0];
      var tail := periods[1..];
      PeriodsSearchesPeriods(groups, d, gstin, tail, today);
      match PeriodSearches(groups, d, gstin, p, today)
      case None =>
      case Some(ss) =>
        var rest := PeriodsSearches(groups, d, gstin, tail, today).0;
        assert PeriodsSearches(groups, d, gstin, periods, today).0 == ss + rest;
        forall i | 0 <= i < |ss + rest|
          ensures (ss + rest)[i].key.period in periods
        {
          if i < |ss| {
            assert ss[i].key.period == p;
          } else {
            assert (ss + rest)[i] == rest[i - |ss|];
            assert rest[i - |ss|].key.period in tail;
          }
        }
    }
  }

  lemma MulStep(a: nat, n: nat, m: nat)
    requires n == m + 1
    ensures a * n == a + a * m
  {
  }

  /** With a valid prefix and known month names a GSTIN gets seven searches
      per period. */
  lemma GstinSearchCount(prefix: string, gstin: string, periods: seq<Calendar.Period>, today: Calendar.Date)
    requires prefix == "In" || prefix == "Out"
    requires AllMonthsKnown(periods)
    ensures !GstinSearches(prefix, gstin, periods, today).1
    ensures |GstinSearches(prefix, gstin, periods, today).0| == 7 * |periods|
  {
    PortalStateGroups();
    PeriodsSearchesStop(QueriedStates(StateOptions), ParseDirection(prefix).value, gstin, periods, today);
    PeriodsSearchesCount(QueriedStates(StateOptions), ParseDirection(prefix).value, gstin, periods, today);
  }

  function Keys(ss: seq<Search>): (ks: seq<DownloadKey>)
    ensures |ks| == |ss|
  {
    seq(|ss|, i requires 0 <= i < |ss| => ss[i].key)
  }

  predicate DistinctNames(groups: seq<(string, string)>) {
    forall i, j :: 0 <= i < j < |groups| ==> groups[i].1 != groups[j].1
  }

  lemma KeysAppend(a: seq<Search>, b: seq<Search>)
    ensures Keys(a + b) == Keys(a) + Keys(b)
  {
  }

  /** The searches of one period have pairwise different keys, all for
      that period. */
  lemma PeriodKeysDistinct(groups: seq<(string, string)>, d: Direction, gstin: string, p: Calendar.Period,
                           today: Calendar.Date)
    requires DistinctNames(groups)
    requires PeriodSearches(groups, d, gstin, p, today).Some?
    ensures var ks := Keys(PeriodSearches(groups, d, gstin, p, today).value);
            Seqs.NoDuplicates(ks) && forall i :: 0 <= i < |ks| ==> ks[i].period == p
  {
    var ss := PeriodSearches(groups, d, gstin, p, today).value;
    var ks := Keys(ss);
    forall i, j | 0 <= i < j < |ks|
      ensures ks[i] != ks[j]
    {
      assert ks[i].stateName == groups[i].1;
      assert ks[j].stateName == groups[j].1;
    }
  }

  /** With distinct periods and distinct group names every search of a
      GSTIN and direction has its own key. */
  lemma {:induction false} SearchKeysDistinct(groups: seq<(string, string)>, d: Direction, gstin: string,
                                              periods: seq<Calendar.Period>, today: Calendar.Date)
    requires DistinctNames(groups)
    requires Seqs.NoDuplicates(periods)
    ensures Seqs.NoDuplicates(Keys(PeriodsSearches(groups, d, gstin, periods, today).0))
    decreases |periods|
  {
    if |periods| > 0 {
      var p := periods[0];
      var tail := periods[1..];
      if PeriodSearches(groups, d, gstin, p, today).Some? {
        var ss := PeriodSearches(groups, d, gstin, p, today).value;
        var rest := PeriodsSearches(groups, d, gstin, tail, today).0;
        assert PeriodsSearches(groups, d, gstin, periods, today).0 == ss + rest;
        assert Seqs.NoDuplicates(tail);
        SearchKeysDistinct(groups, d, gstin, tail, today);
        PeriodKeysDistinct(groups, d, gstin, p, today);
        PeriodsSearchesPeriods(groups, d, gstin, tail, today);
        var a := Keys(ss);
        var b := Keys(rest);
        assert p !in tail;
        forall i, j | 0 <= i < |a| && 0 <= j < |b|
          ensures a[i] != b[j]
        {
          assert rest[j].key.period in tail;
        }
        Seqs.NoDuplicatesAppend(a, b);
        KeysAppend(ss, rest);
      }
    }
  }

  lemma PortalGroupNamesDistinct()
    ensures DistinctNames(QueriedStates(StateOptions))
  {
    var groups := QueriedStates(StateOptions);
    PortalStateGroups();
    StateNamesDistinct();
    forall i, j | 0 <= i < j < |groups|
      ensures groups[i].1 != groups[j].1
    {
      assert groups[i] == StateOptions[i + 1] && groups[j] == StateOptions[j + 1];
    }
  }

  /** Over distinct periods the searches of a GSTIN and direction never
      share a file name, provided the GSTIN and the month names hold no '_'. */
  lemma GstinSearchFilesDistinct(prefix: string, gstin: string, periods: seq<Calendar.Period>, today: Calendar.Date)
    requires Seqs.NoDuplicates(periods)
    requires '_' !in gstin
    requires forall i :: 0 <= i < |periods| ==> '_' !in periods[i].monthName
    ensures var ss := GstinSearches(prefix, gstin, periods, today).0;
            forall i, j :: 0 <= i < j < |ss| ==> DownloadName(ss[i].key) != DownloadName(ss[j].key)
  {
    if ParseDirection(prefix).Some? {
      var groups := QueriedStates(StateOptions);
      var d := ParseDirection(prefix).value;
      var ss := PeriodsSearches(groups, d, gstin, periods, today).0;
      PortalGroupNamesDistinct();
      SearchKeysDistinct(groups, d, gstin, periods, today);
      PeriodsSearchesPeriods(groups, d, gstin, periods, today);
      forall i, j | 0 <= i < j < |ss|
        ensures DownloadName(ss[i].key) != DownloadName(ss[j].key)
      {
        var ki := ss[i].key;
        var kj := ss[j].key;
        assert Keys(ss)[i] == ki && Keys(ss)[j] == kj;
        assert ki.period in periods && kj.period in periods;
        DownloadNameInjective(ki, kj);
      }
    }
  }

  /** `_click_go_and_download_excel`: the file a search saves, if the
      result page shows the export button. */
  function SearchDownload(downloadsDir: string, s: Search, exportVisible: bool): (r: Option<string>)
    ensures r.Some? <==> exportVisible
    ensures r.Some? ==> r.value == DownloadPath(downloadsDir, s.key)
  {
    if exportVisible then Some(DownloadPath(downloadsDir, s.key)) else None
  }

  /** A search whose result page shows the export button saves its file
      under a path that reads back as the search's key; without the button
      nothing is saved. */
  lemma SearchDownloadRoundTrip(downloadsDir: string, s: Search, exportVisible: bool)
    requires Underscoreless(s.key)
    ensures SearchDownload(downloadsDir, s, exportVisible).Some? <==> exportVisible
    ensures exportVisible ==>
              DecodeDownloadPath(downloadsDir, SearchDownload(downloadsDir, s, exportVisible).value) == Some(s.key)
  {
    DecodePathOfName(downloadsDir, DownloadName(s.key));
    DownloadNameRoundTrip(s.key);
  }

  lemma DecodePathOfName(downloadsDir: string, name: string)
    ensures DecodeDownloadPath(downloadsDir, downloadsDir + "/" + name + XlsSuffix) == DecodeDownloadName(name)
  {
    var head := downloadsDir + "/";
    var path := head + name + XlsSuffix;
    assert path[..|head|] == head;
    assert path[|path| - |XlsSuffix|..] == XlsSuffix;
    assert path[|head|..|path| - |XlsSuffix|] == name;
  }

  // ---------------------------------------------------------------------
  // Failures before the period loop, and the caller's sequence of runs

  /** A label for the `UnboundLocalError` the handler of
      `download_EWB_for_gstin` raises when the function fails before its
      period loop: the log message names the loop variable, which is not
      bound yet. The exact wording depends on the Python version, and the
      caller's log line carries only the message, without the class name. */
  const UnboundMonthYear := "UnboundLocalError: local variable 'month_year' referenced before assignment"

  /** `download_EWB_for_gstin` as written. `setupOk` says whether the radio
      button and the GSTIN box were found in time. A failure before the loop
      (an invalid prefix or a setup that timed out) raises out of the
      function; otherwise the loop's searches are run. */
  function GstinRunAsWritten(prefix: string, setupOk: bool, gstin: string, periods: seq<Calendar.Period>,
                             today: Calendar.Date): (r: Result<(seq<Search>, bool), string>)
    ensures r.Failure? <==> ParseDirection(prefix).None? || !setupOk
    ensures r.Success? ==> r.value == GstinSearches(prefix, gstin, periods, today)
  {
    if ParseDirection(prefix).None? || !setupOk then Failure(UnboundMonthYear)
    else Success(GstinSearches(prefix, gstin, periods, today))
  }

  /** `download_EWB_for_gstin` with a handler that logs without the loop
      variable: a failure before the loop ends the run, logged, with no
      search. */
  function GstinRun(prefix: string, setupOk: bool, gstin: string, periods: seq<Calendar.Period>,
                    today: Calendar.Date): (r: (seq<Search>, bool))
    ensures !setupOk ==> r == ([], true)
    ensures setupOk ==> r == GstinSearches(prefix, gstin, periods, today)
  {
    if setupOk then GstinSearches(prefix, gstin, periods, today) else ([], true)
  }

  /** One GSTIN's extraction in `main` with the function as written: the
      inward run, then the outward run, then the conversion and merge of the
      downloads. An exception escaping a run ends the GSTIN's extraction
      (the caller logs it). The result holds the searches run and whether
      the merge step is reached. */
  function ExtractionAsWritten(gstin: string, inOk: bool, outOk: bool, periods: seq<Calendar.Period>,
                               today: Calendar.Date): (r: (seq<Search>, bool))
  {
    match GstinRunAsWritten(InPrefix, inOk, gstin, periods, today)
    case Failure(_) => ([], false)
    case Success(a) =>
      match GstinRunAsWritten(OutPrefix, outOk, gstin, periods, today)
      case Failure(_) => (a.0, false)
      case Success(b) => (a.0 + b.0, true)
  }

  /** One GSTIN's extraction with the corrected handler: both runs, then
      the merge. */
  function Extraction(gstin: string, inOk: bool, outOk: bool, periods: seq<Calendar.Period>,
                      today: Calendar.Date): (r: (seq<Search>, bool))
  {
    (GstinRun(InPrefix, inOk, gstin, periods, today).0 + GstinRun(OutPrefix, outOk, gstin, periods, today).0, true)
  }

  /** As written, an inward run whose setup times out raises, so the
      outward reports are never searched and the downloads are never
      merged, although the outward setup would have succeeded; with the
      corrected handler the outward run still makes its seven searches per
      period and the merge is reached. */
  lemma InwardSetupFailureSkipsOutward(gstin: string, periods: seq<Calendar.Period>, today: Calendar.Date)
    requires AllMonthsKnown(periods) && |periods| > 0
    ensures ExtractionAsWritten(gstin, false, true, periods, today) == ([], false)
    ensures |Extraction(gstin, false, true, periods, today).0| == 7 * |periods|
    ensures Extraction(gstin, false, true, periods, today).1
  {
    GstinSearchCount(OutPrefix, gstin, periods, today);
  }

  /** With the corrected handler every direction whose setup succeeds runs
      all its searches, whatever happened to the other direction, and the
      merge step is always reached. */
  lemma ExtractionRunsEachDirection(gstin: string, inOk: bool, outOk: bool, periods: seq<Calendar.Period>,
                                    today: Calendar.Date)
    ensures Extraction(gstin, inOk, outOk, periods, today).1
    ensures inOk ==> forall s :: s in GstinSearches(InPrefix, gstin, periods, today).0 ==>
                                   s in Extraction(gstin, inOk, outOk, periods, today).0
    ensures outOk ==> forall s :: s in GstinSearches(OutPrefix, gstin, periods, today).0 ==>
                                    s in Extraction(gstin, inOk, outOk, periods, today).0
  {
  }
}
