/** The job form of the web front end: the saved configuration it starts
    from, the GSTIN text box, the year and month choices, the date range it
    shows and the checks the start button makes before the job's
    configuration is written and the worker launched. The current date is a
    parameter. */
module JobForm {
  import opened Wrappers
  import Text
  import Calendar

  // ---------------------------------------------------------------------
  // GSTIN list

  /** The text with every newline replaced by a comma. */
  function NewlinesToCommas(text: string): (r: string)
    ensures |r| == |text| && '\n' !in r
    ensures forall i :: 0 <= i < |r| ==> r[i] == if text[i] == '\n' then ',' else text[i]
  {
    seq(|text|, i requires 0 <= i < |text| => if text[i] == '\n' then ',' else text[i])
  }

  lemma NewlinesToCommasAppend(a: string, b: string)
    ensures NewlinesToCommas(a + b) == NewlinesToCommas(a) + NewlinesToCommas(b)
  {
  }

  /** Text without newlines is left alone. */
  lemma NewlinesToCommasNoNewline(a: string)
    requires '\n' !in a
    ensures NewlinesToCommas(a) == a
  {
  }

  /** A list joined by newlines reads as the same list joined by commas. */
  lemma {:induction false} NewlinesToCommasJoin(gs: seq<string>)
    requires forall i :: 0 <= i < |gs| ==> '\n' !in gs[i]
    ensures NewlinesToCommas(Text.Join(gs, '\n')) == Text.Join(gs, ',')
    decreases |gs|
  {
    if |gs| == 1 {
      NewlinesToCommasNoNewline(gs[0]);
    } else if |gs| > 1 {
      NewlinesToCommasJoin(gs[1..]);
      NewlinesToCommasAppend(gs[0] + ['\n'], Text.Join(gs[1..], '\n'));
      NewlinesToCommasAppend(gs[0], ['\n']);
      NewlinesToCommasNoNewline(gs[0]);
    }
  }

  /** The pieces stripped, in order, with the ones that strip to nothing
      dropped. */
  function StrippedNonEmpty(pieces: seq<string>): (r: seq<string>)
    ensures |r| <= |pieces|
  {
    if |pieces| == 0 then []
    else
      var s := Text.Strip(pieces[0]);
      (if s != "" then [s] else []) + StrippedNonEmpty(pieces[1..])
  }

  lemma {:induction false} StrippedNonEmptyAppend(a: seq<string>, b: seq<string>)
    ensures StrippedNonEmpty(a + b) == StrippedNonEmpty(a) + StrippedNonEmpty(b)
    decreases |a|
  {
    if |a| > 0 {
      var head := if Text.Strip(a[0]) != "" then [Text.Strip(a[0])] else [];
      assert (a + b)[0] == a[0] && (a + b)[1..] == a[1..] + b;
      assert StrippedNonEmpty(a + b) == head + StrippedNonEmpty(a[1..] + b);
      assert StrippedNonEmpty(a) == head + StrippedNonEmpty(a[1..]);
      StrippedNonEmptyAppend(a[1..], b);
    } else {
      assert a + b == b;
    }
  }

  /** `g` is one of the pieces once stripped. */
  predicate IsStrippedPiece(pieces: seq<string>, g: string) {
    exists j :: 0 <= j < |pieces| && Text.Strip(pieces[j]) == g
  }

  /** The kept entries are exactly the non-empty stripped pieces. */
  lemma {:induction false} StrippedNonEmptyMembers(pieces: seq<string>, g: string)
    ensures g in StrippedNonEmpty(pieces) <==> g != "" && IsStrippedPiece(pieces, g)
    decreases |pieces|
  {
    if |pieces| > 0 {
      var s := Text.Strip(pieces[0]);
      var tail := StrippedNonEmpty(pieces[1..]);
      StrippedNonEmptyMembers(pieces[1..], g);
      StrippedPieceStep(pieces, g);
      assert StrippedNonEmpty(pieces) == (if s != "" then [s] else []) + tail;
    }
  }

  /** A text is a stripped piece exactly when it is the first piece stripped
      or a stripped piece of the rest. */
  lemma StrippedPieceStep(pieces: seq<string>, g: string)
    requires |pieces| > 0
    ensures IsStrippedPiece(pieces, g) <==> Text.Strip(pieces[0]) == g || IsStrippedPiece(pieces[1..], g)
  {
    var rest := pieces[1..];
    if IsStrippedPiece(rest, g) {
      var k :| 0 <= k < |rest| && Text.Strip(rest[k]) == g;
      assert Text.Strip(pieces[k + 1]) == g;
    }
    if IsStrippedPiece(pieces, g) && Text.Strip(pieces[0]) != g {
      var k :| 0 <= k < |pieces| && Text.Strip(pieces[k]) == g;
      assert Text.Strip(rest[k - 1]) == g;
    }
  }

  /** The characters of every piece of a split come from the split text. */
  lemma {:induction false} SplitChars(s: string, sep: char)
    ensures forall i, c :: 0 <= i < |Text.Split(s, sep)| && c in Text.Split(s, sep)[i] ==> c in s
    decreases |s|
  {
    if |s| > 0 {
      SplitChars(s[1..], sep);
      var rest := Text.Split(s[1..], sep);
      var parts := Text.Split(s, sep);
      forall i, c | 0 <= i < |parts| && c in parts[i]
        ensures c in s
      {
        if s[0] != sep {
          if i == 0 {
            assert parts[0] == [s[0]] + rest[0];
            if c != s[0] {
              InTail(s, c);
            }
          } else {
            assert parts[i] == rest[i];
            InTail(s, c);
          }
        } else {
          assert parts[i] == ([""] + rest)[i];
          InTail(s, c);
        }
      }
    }
  }

  lemma InTail(s: string, c: char)
    requires |s| > 0 && c in s[1..]
    ensures c in s
  {
    var k :| 0 <= k < |s[1..]| && s[1..][k] == c;
    assert s[k + 1] == c;
  }

  /** A GSTIN as the list holds it: not empty, without commas or newlines,
      and without whitespace at either end. */
  predicate WellFormedGstin(g: string) {
    g != "" && ',' !in g && '\n' !in g && !Text.IsSpace(g[0]) && !Text.IsSpace(g[|g| - 1])
  }

  /** The GSTINs of the text box (comma or newline separated): the pieces
      between separators, stripped, with empty pieces dropped, in input
      order. */
  function ParseGstins(text: string): (gs: seq<string>)
    ensures forall i :: 0 <= i < |gs| ==> WellFormedGstin(gs[i])
  {
    PiecesWellFormed(NewlinesToCommas(text));
    StrippedNonEmpty(Text.Split(NewlinesToCommas(text), ','))
  }

  /** A comma or a newline between two texts separates their GSTINs: the
      list of the whole is the list of each, in order, repeats kept. */
  lemma ParseGstinsAppend(a: string, b: string)
    ensures ParseGstins(a + "," + b) == ParseGstins(a) + ParseGstins(b)
    ensures ParseGstins(a + "\n" + b) == ParseGstins(a) + ParseGstins(b)
  {
    var na, nb := NewlinesToCommas(a), NewlinesToCommas(b);
    NewlinesToCommasAppend(a + ",", b);
    NewlinesToCommasAppend(a, ",");
    NewlinesToCommasAppend(a + "\n", b);
    NewlinesToCommasAppend(a, "\n");
    assert NewlinesToCommas(",") == "," && NewlinesToCommas("\n") == ",";
    assert NewlinesToCommas(a + "," + b) == na + [','] + nb;
    assert NewlinesToCommas(a + "\n" + b) == na + [','] + nb;
    Text.SplitAppend(na, nb, ',');
    StrippedNonEmptyAppend(Text.Split(na, ','), Text.Split(nb, ','));
  }

  /** A text without separators holds one GSTIN, stripped, or none when it
      is all whitespace. With `ParseGstinsAppend` this fixes the list of
      every text. */
  lemma ParseGstinsOnePiece(p: string)
    requires ',' !in p && '\n' !in p
    ensures ParseGstins(p) == if Text.Strip(p) == "" then [] else [Text.Strip(p)]
  {
    NewlinesToCommasNoNewline(p);
    Text.SplitWithoutSep(p, ',');
    assert StrippedNonEmpty([p]) == (if Text.Strip(p) != "" then [Text.Strip(p)] else []) + StrippedNonEmpty([]);
  }

  /** Every stripped non-empty piece of a newline-free text is a
      well-formed GSTIN. */
  lemma PiecesWellFormed(s: string)
    requires '\n' !in s
    ensures forall i :: 0 <= i < |StrippedNonEmpty(Text.Split(s, ','))| ==>
              WellFormedGstin(StrippedNonEmpty(Text.Split(s, ','))[i])
  {
    var pieces := Text.Split(s, ',');
    var gs := StrippedNonEmpty(pieces);
    forall i | 0 <= i < |gs|
      ensures WellFormedGstin(gs[i])
    {
      assert gs[i] in gs;
      StrippedNonEmptyMembers(pieces, gs[i]);
      var j :| 0 <= j < |pieces| && Text.Strip(pieces[j]) == gs[i];
      PieceWellFormed(s, j);
    }
  }

  lemma PieceWellFormed(s: string, j: nat)
    requires '\n' !in s
    requires j < |Text.Split(s, ',')|
    requires Text.Strip(Text.Split(s, ',')[j]) != ""
    ensures WellFormedGstin(Text.Strip(Text.Split(s, ',')[j]))
  {
    var p := Text.Split(s, ',')[j];
    var g := Text.Strip(p);
    SplitChars(s, ',');
    Text.StripChars(p);
    Text.StripEnds(p);
    assert ',' !in g by {
      assert forall k :: 0 <= k < |g| ==> g[k] in p;
    }
    assert '\n' !in g by {
      assert forall k :: 0 <= k < |g| ==> g[k] in p && g[k] in s;
    }
  }

  /** A GSTIN is in the list exactly when it is a non-empty stripped piece
      of the text. */
  lemma ParseGstinsExactly(text: string, g: string)
    ensures g in ParseGstins(text) <==> g != "" && IsStrippedPiece(Text.Split(NewlinesToCommas(text), ','), g)
  {
    var pieces := Text.Split(NewlinesToCommas(text), ',');
    assert ParseGstins(text) == StrippedNonEmpty(pieces);
    StrippedNonEmptyMembers(pieces, g);
  }

  /** Well-formed GSTINs are their own stripped non-empty pieces. */
  lemma {:induction false} StrippedNonEmptyOfWellFormed(gs: seq<string>)
    requires forall i :: 0 <= i < |gs| ==> WellFormedGstin(gs[i])
    ensures StrippedNonEmpty(gs) == gs
    decreases |gs|
  {
    if |gs| > 0 {
      Text.StripUnchanged(gs[0]);
      StrippedNonEmptyOfWellFormed(gs[1..]);
      assert [gs[0]] + gs[1..] == gs;
    }
  }

  /** A list of well-formed GSTINs joined by commas or by newlines (as the
      text box is pre-filled from the saved configuration) reads back as
      the same list. */
  lemma ParseGstinsOfJoin(gs: seq<string>, sep: char)
    requires sep == ',' || sep == '\n'
    requires forall i :: 0 <= i < |gs| ==> WellFormedGstin(gs[i])
    ensures ParseGstins(Text.Join(gs, sep)) == gs
  {
    CommasOfJoin(gs, sep);
    StrippedPiecesOfJoin(gs);
  }

  lemma CommasOfJoin(gs: seq<string>, sep: char)
    requires sep == ',' || sep == '\n'
    requires forall i :: 0 <= i < |gs| ==> '\n' !in gs[i]
    ensures NewlinesToCommas(Text.Join(gs, sep)) == Text.Join(gs, ',')
  {
    if sep == ',' {
      JoinWithoutNewline(gs);
      NewlinesToCommasNoNewline(Text.Join(gs, ','));
    } else {
      NewlinesToCommasJoin(gs);
    }
  }

  lemma StrippedPiecesOfJoin(gs: seq<string>)
    requires forall i :: 0 <= i < |gs| ==> WellFormedGstin(gs[i])
    ensures StrippedNonEmpty(Text.Split(Text.Join(gs, ','), ',')) == gs
  {
    if |gs| == 0 {
      assert Text.Split("", ',') == [""];
      assert Text.Strip("") == "";
    } else {
      Text.SplitJoin(gs, ',');
      StrippedNonEmptyOfWellFormed(gs);
    }
  }

  lemma {:induction false} JoinWithoutNewline(gs: seq<string>)
    requires forall i :: 0 <= i < |gs| ==> '\n' !in gs[i]
    ensures '\n' !in Text.Join(gs, ',')
    decreases |gs|
  {
    if |gs| > 1 {
      JoinWithoutNewline(gs[1..]);
    }
  }

  // ---------------------------------------------------------------------
  // Years, months and the date range

  const FirstYear := 2017

  /** The years offered: 2017 up to the current year. */
  function YearOptions(today: Calendar.Date): (ys: seq<int>)
    ensures |ys| == if today.year >= FirstYear then today.year - FirstYear + 1 else 0
    ensures forall y :: y in ys <==> FirstYear <= y <= today.year
    ensures forall i, j :: 0 <= i < j < |ys| ==> ys[i] < ys[j]
  {
    if today.year < FirstYear then []
    else
      var ys := seq(today.year - FirstYear + 1, i requires 0 <= i < today.year - FirstYear + 1 => FirstYear + i);
      forall y | FirstYear <= y <= today.year
        ensures y in ys
      {
        assert ys[y - FirstYear] == y;
      }
      ys
  }

  /** The months offered for `year`: all twelve before the current year,
      January up to the current month otherwise. */
  function MonthOptions(year: int, today: Calendar.Date): (ms: seq<string>)
    requires 1 <= today.month <= 12
    ensures |ms| == if year < today.year then 12 else today.month
    ensures ms == Calendar.MonthNames[..|ms|]
  {
    if year < today.year then Calendar.MonthNames else Calendar.MonthNames[..today.month]
  }

  /** For a year on offer, a month is offered exactly when it does not lie
      after the current month. */
  lemma MonthOptionsNotInFuture(year: int, today: Calendar.Date, m: string)
    requires 1 <= today.month <= 12 && year <= today.year
    ensures m in MonthOptions(year, today) <==>
            Calendar.MonthNumber(m).Some? && (year < today.year || Calendar.MonthNumber(m).value <= today.month)
  {
    var ms := MonthOptions(year, today);
    if m in ms {
      var i :| 0 <= i < |ms| && ms[i] == m;
      Calendar.MonthNumberOfName(i + 1);
    }
    if Calendar.MonthNumber(m).Some? && (year < today.year || Calendar.MonthNumber(m).value <= today.month) {
      assert ms[Calendar.MonthNumber(m).value - 1] == m;
    }
  }

  /** The first day of a month. */
  function MonthStart(month: int, year: int): (d: Calendar.Date)
    requires 1 <= month <= 12
    ensures Calendar.ValidDate(d) && d.year == year && d.month == month
    ensures forall day :: 1 <= day < d.day ==> !Calendar.ValidDate(Calendar.Date(year, month, day))
  {
    Calendar.Date(year, month, 1)
  }

  /** The last day of a month. */
  function MonthEnd(month: int, year: int): (d: Calendar.Date)
    requires 1 <= month <= 12
    ensures Calendar.ValidDate(d) && d.year == year && d.month == month
    ensures !Calendar.ValidDate(Calendar.Date(year, month, d.day + 1))
  {
    Calendar.Date(year, month, Calendar.DaysInMonth(month, year))
  }

  /** The first day of the start month and the last day of the end month;
      `None` for a name that is not a month (the source's `KeyError`). */
  function SelectedRange(startMonth: string, startYear: int, endMonth: string, endYear: int)
    : (r: Option<(Calendar.Date, Calendar.Date)>)
    ensures r.Some? <==> startMonth in Calendar.MonthNames && endMonth in Calendar.MonthNames
    ensures r.Some? ==> r.value.0.day == 1 && Calendar.ValidDate(r.value.0) && Calendar.ValidDate(r.value.1)
    ensures r.Some? ==> r.value.0.year == startYear && r.value.0.month == Calendar.MonthNumber(startMonth).value
    ensures r.Some? ==> r.value.1.year == endYear && r.value.1.month == Calendar.MonthNumber(endMonth).value
    ensures r.Some? ==> !Calendar.ValidDate(Calendar.Date(endYear, r.value.1.month, r.value.1.day + 1))
  {
    match (Calendar.MonthNumber(startMonth), Calendar.MonthNumber(endMonth))
    case (Some(s), Some(e)) => Some((MonthStart(s, startYear), MonthEnd(e, endYear)))
    case _ => None
  }

  /** The end date lies before the start date exactly when the end month
      precedes the start month. */
  lemma RangeInvalidExactly(startMonth: string, startYear: int, endMonth: string, endYear: int)
    requires startMonth in Calendar.MonthNames && endMonth in Calendar.MonthNames
    ensures SelectedRange(startMonth, startYear, endMonth, endYear).Some?
    ensures Calendar.DateBefore(SelectedRange(startMonth, startYear, endMonth, endYear).value.1,
                                SelectedRange(startMonth, startYear, endMonth, endYear).value.0) <==>
            Calendar.Precedes(Calendar.Period(endMonth, endYear), Calendar.Period(startMonth, startYear))
  {
  }

  // ---------------------------------------------------------------------
  // Configuration

  const LoginUrl := "https://gstsso.nic.in/"

  /** The configuration the form starts from and the job runs with. */
  datatype Config = Config(
    url: string, username: string, password: string, gstins: seq<string>,
    startMonth: string, endMonth: string, startYear: int, endYear: int,
    extractEwb: bool, prepareStock: bool, checkToll: bool)

  /** The fields found in a saved configuration file, each possibly absent. */
  datatype SavedFields = SavedFields(
    username: Option<string>, password: Option<string>, gstins: Option<seq<string>>,
    startMonth: Option<string>, endMonth: Option<string>, startYear: Option<int>, endYear: Option<int>,
    extractEwb: Option<bool>, prepareStock: Option<bool>, checkToll: Option<bool>)

  const NoFields := SavedFields(None, None, None, None, None, None, None, None, None, None)

  /** What a file holding every field of `c` reads back as. */
  function Saved(c: Config): SavedFields {
    SavedFields(Some(c.username), Some(c.password), Some(c.gstins), Some(c.startMonth), Some(c.endMonth),
                Some(c.startYear), Some(c.endYear), Some(c.extractEwb), Some(c.prepareStock), Some(c.checkToll))
  }

  /** `load_config`: `None` stands for a missing or unparseable file. Every
      absent field takes its default: no credentials and no GSTINs, the
      current month as start and end, last year as start year and this year
      as end year, and all three stages on. The login URL is always the
      fixed one. */
  function LoadConfig(file: Option<SavedFields>, today: Calendar.Date): (c: Config)
    requires 1 <= today.month <= 12
    ensures c.url == LoginUrl
    ensures file.None? ==> c.username == "" && c.password == "" && c.gstins == []
    ensures file.None? ==> c.startMonth == c.endMonth == Calendar.MonthNames[today.month - 1]
    ensures file.None? ==> c.startYear == today.year - 1 && c.endYear == today.year
    ensures file.None? ==> c.extractEwb && c.prepareStock && c.checkToll
  {
    var f := file.GetOr(NoFields);
    var month := Calendar.MonthNames[today.month - 1];
    Config(LoginUrl, f.username.GetOr(""), f.password.GetOr(""), f.gstins.GetOr([]),
           f.startMonth.GetOr(month), f.endMonth.GetOr(month),
           f.startYear.GetOr(today.year - 1), f.endYear.GetOr(today.year),
           f.extractEwb.GetOr(true), f.prepareStock.GetOr(true), f.checkToll.GetOr(true))
  }

  /** A file without any of the fields loads like a missing file. */
  lemma LoadEmptyIsDefault(today: Calendar.Date)
    requires 1 <= today.month <= 12
    ensures LoadConfig(Some(NoFields), today) == LoadConfig(None, today)
  {
  }

  /** A saved configuration loads back unchanged, apart from the login URL. */
  lemma LoadSavedRoundTrip(c: Config, today: Calendar.Date)
    requires 1 <= today.month <= 12
    ensures LoadConfig(Some(Saved(c)), today) == c.(url := LoginUrl)
  {
  }

  /** The default years and months are among the choices the form offers,
      so the form can pre-select them. */
  lemma DefaultsSelectable(today: Calendar.Date)
    requires 1 <= today.month <= 12 && today.year > FirstYear
    ensures LoadConfig(None, today).startYear in YearOptions(today)
    ensures LoadConfig(None, today).endYear in YearOptions(today)
    ensures LoadConfig(None, today).startMonth in MonthOptions(today.year - 1, today)
    ensures LoadConfig(None, today).endMonth in MonthOptions(today.year, today)
  {
    var ms := MonthOptions(today.year, today);
    assert ms[today.month - 1] == Calendar.MonthNames[today.month - 1];
  }

  // ---------------------------------------------------------------------
  // Start button

  /** The form's current values. */
  datatype Form = Form(
    url: string, username: string, password: string, gstinsText: string,
    startMonth: string, startYear: int, endMonth: string, endYear: int,
    extractEwb: bool, prepareStock: bool, checkToll: bool)

  /** The configuration file written for a job: the form's values with the
      parsed GSTIN list, and the two dates of the range. */
  datatype Job = Job(config: Config, startDate: Calendar.Date, endDate: Calendar.Date)

  datatype StartOutcome =
    | MissingFields    // username, password or GSTIN list empty
    | EndBeforeStart   // the range is reversed
    | Started(job: Job)

  /** The start button's checks, in the order the source makes them; the
      month names come from the form's choices. */
  function Start(f: Form): (o: StartOutcome)
    requires f.startMonth in Calendar.MonthNames && f.endMonth in Calendar.MonthNames
    ensures o == MissingFields <==> f.username == "" || f.password == "" || ParseGstins(f.gstinsText) == []
    ensures o == EndBeforeStart <==>
              f.username != "" && f.password != "" && ParseGstins(f.gstinsText) != [] &&
              Calendar.Precedes(Calendar.Period(f.endMonth, f.endYear), Calendar.Period(f.startMonth, f.startYear))
    ensures o.Started? ==> o.job.config.gstins != []
    ensures o.Started? ==> o.job.config == Config(f.url, f.username, f.password, ParseGstins(f.gstinsText),
                                                  f.startMonth, f.endMonth, f.startYear, f.endYear,
                                                  f.extractEwb, f.prepareStock, f.checkToll)
    ensures o.Started? ==> (o.job.startDate, o.job.endDate)
                           == SelectedRange(f.startMonth, f.startYear, f.endMonth, f.endYear).value
    ensures o.Started? ==> !Calendar.DateBefore(o.job.endDate, o.job.startDate)
  {
    var gstins := ParseGstins(f.gstinsText);
    RangeInvalidExactly(f.startMonth, f.startYear, f.endMonth, f.endYear);
    var range := SelectedRange(f.startMonth, f.startYear, f.endMonth, f.endYear).value;
    if f.username == "" || f.password == "" || gstins == [] then MissingFields
    else if Calendar.DateBefore(range.1, range.0) then EndBeforeStart
    else
      Started(Job(Config(f.url, f.username, f.password, gstins, f.startMonth, f.endMonth, f.startYear, f.endYear,
                         f.extractEwb, f.prepareStock, f.checkToll),
                  range.0, range.1))
  }

  /** A started job's configuration file pre-fills the next form with the
      same values: it loads back unchanged apart from the URL, and its
      GSTINs, put in the text box one per line, parse back to the list the
      form gave. */
  lemma StartedJobReloads(f: Form, today: Calendar.Date)
    requires f.startMonth in Calendar.MonthNames && f.endMonth in Calendar.MonthNames
    requires 1 <= today.month <= 12
    requires Start(f).Started?
    ensures LoadConfig(Some(Saved(Start(f).job.config)), today) == Start(f).job.config.(url := LoginUrl)
    ensures ParseGstins(Text.Join(LoadConfig(Some(Saved(Start(f).job.config)), today).gstins, '\n'))
            == ParseGstins(f.gstinsText)
  {
    LoadSavedRoundTrip(Start(f).job.config, today);
    ParseGstinsOfJoin(ParseGstins(f.gstinsText), '\n');
  }
}
