/** The date resolver of the earlier service revision (`get_holiday_info` and `check_holiday`
    in main.py), and how its answers relate to the current resolver's. */
module LegacyResolver {
  import opened Wrappers
  import opened JsonValues
  import opened Dates
  import opened Records
  import opened Http
  import opened Store
  import Seqs
  import App = AppResolver

  /** The years the earlier endpoints accept. */
  const YearMin := 2000
  const YearMax := 3000

  const InvalidDateMessage := "invalid date"
  const MissingYearMessage := "requested year not available"

  /** `strptime(record[k], "%Y-%m-%d").date()` with nothing caught: a record that is not an
      object cannot be indexed by a string (TypeError), a missing key is a KeyError, a value
      that is not a string a TypeError and a string that is not a date a ValueError. */
  function ReadBound(rec: Json, k: string): (r: Outcome<Date>)
    ensures r.Returned? <==> rec.JObj? && ReadDate(rec.fields, k).Parsed?
    ensures r.Returned? ==> r.value == ReadDate(rec.fields, k).date && Valid(r.value)
    ensures r == Raised(KeyError) <==> rec.JObj? && k !in rec.fields
    ensures r == Raised(ValueError) <==> rec.JObj? && ReadDate(rec.fields, k).Unparsed?
  {
    match rec
    case JObj(o) =>
      (match ReadDate(o, k)
       case Absent => Raised(KeyError)
       case NotText => Raised(TypeError)
       case Unparsed => Raised(ValueError)
       case Parsed(d) => Returned(d))
    case _ => Raised(TypeError)
  }

  /** One turn of the loop: read `start`, then `end`, then test `start <= d < end`. */
  function Probe(rec: Json, d: Date): (r: Outcome<bool>)
    ensures r.Returned? <==> WellDated(rec)
    ensures r == Returned(true) <==> App.Covers(rec, d)
  {
    match ReadBound(rec, "start")
    case Raised(e) => Raised(e)
    case Returned(start) =>
      match ReadBound(rec, "end")
      case Raised(e) => Raised(e)
      case Returned(end) => Returned(InInterval(start, end, d))
  }

  /** The loop over the records: the first one whose interval holds `d`, or None; the first
      record that cannot be read stops it with the exception. */
  function Scan(ds: Dataset, d: Date): (r: Outcome<Option<Json>>)
    ensures r.Returned? && r.value.Some? ==> r.value.value in ds && App.Covers(r.value.value, d)
    ensures r.Returned? && r.value.None? ==> forall i :: 0 <= i < |ds| ==> !App.Covers(ds[i], d)
    decreases |ds|
  {
    if ds == [] then Returned(None)
    else match Probe(ds[0], d)
      case Raised(e) => Raised(e)
      case Returned(true) => Returned(Some(ds[0]))
      case Returned(false) =>
        var r := Scan(ds[1..], d);
        assert forall i :: 1 <= i < |ds| ==> ds[i] == ds[1..][i - 1];
        r
  }

  /** On a dataset the earlier loop reads without trouble, it answers with the first record
      the current loop selects. */
  lemma {:induction false} ScanFindsFirstCovering(ds: Dataset, d: Date)
    requires forall i :: 0 <= i < |ds| ==> WellDated(ds[i])
    ensures var covering := Seqs.Filter(App.Covering(d), ds);
      Scan(ds, d) == Returned(if covering == [] then None else Some(covering[0]))
    decreases |ds|
  {
    if ds != [] {
      assert App.Covering(d)(ds[0]) == App.Covers(ds[0], d);
      assert Seqs.Filter(App.Covering(d), ds) ==
        (if App.Covers(ds[0], d) then [ds[0]] else []) + Seqs.Filter(App.Covering(d), ds[1..]);
      if !App.Covers(ds[0], d) {
        forall i | 0 <= i < |ds[1..]| ensures WellDated(ds[1..][i]) {
          assert ds[1..][i] == ds[i + 1];
        }
        ScanFindsFirstCovering(ds[1..], d);
      }
    }
  }

  /** Once a record matches, the records after it are never read: appending anything, even
      records the loop would choke on, leaves the answer unchanged. */
  lemma {:induction false} ScanStopsAtMatch(ds: Dataset, d: Date, later: Dataset)
    requires Scan(ds, d).Returned? && Scan(ds, d).value.Some?
    ensures Scan(ds + later, d) == Scan(ds, d)
    decreases |ds|
  {
    assert (ds + later)[0] == ds[0];
    if Probe(ds[0], d) != Returned(true) {
      assert (ds + later)[1..] == ds[1..] + later;
      ScanStopsAtMatch(ds[1..], d, later);
    }
  }

  /** The loop reaches a record it cannot read: one that is not well dated, with no record
      before it covering `d`. */
  predicate ChokesBeforeMatch(ds: Dataset, d: Date) {
    exists i :: 0 <= i < |ds| && !WellDated(ds[i]) && forall j :: 0 <= j < i ==> !App.Covers(ds[j], d)
  }

  /** The earlier loop raises exactly when a record it cannot read comes before the first
      match; records after the match may be malformed. */
  lemma {:induction false} ScanRaisesIff(ds: Dataset, d: Date)
    ensures Scan(ds, d).Raised? <==> ChokesBeforeMatch(ds, d)
    decreases |ds|
  {
    if ds != [] {
      if !WellDated(ds[0]) {
        assert Probe(ds[0], d).Raised?;
      } else if App.Covers(ds[0], d) {
        assert Scan(ds, d) == Returned(Some(ds[0]));
      } else {
        assert Scan(ds, d) == Scan(ds[1..], d);
        ScanRaisesIff(ds[1..], d);
        if ChokesBeforeMatch(ds, d) {
          var i :| 0 <= i < |ds| && !WellDated(ds[i]) && forall j :: 0 <= j < i ==> !App.Covers(ds[j], d);
          assert i != 0;
          assert ds[1..][i - 1] == ds[i];
          forall j | 0 <= j < i - 1 ensures !App.Covers(ds[1..][j], d) {
            assert ds[1..][j] == ds[j + 1];
          }
        }
        if ChokesBeforeMatch(ds[1..], d) {
          var i :| 0 <= i < |ds[1..]| && !WellDated(ds[1..][i]) && forall j :: 0 <= j < i ==> !App.Covers(ds[1..][j], d);
          assert ds[1..][i] == ds[i + 1];
          forall j | 0 <= j < i + 1 ensures !App.Covers(ds[j], d) {
            if j > 0 {
              assert ds[j] == ds[1..][j - 1];
            }
          }
        }
      }
    }
  }

  /** Whatever the data, a record the earlier loop answers with is the first record the
      current loop selects, and "none" means the current loop selects none. */
  lemma {:induction false} ScanFindsFirst(ds: Dataset, d: Date)
    ensures var covering := Seqs.Filter(App.Covering(d), ds);
      Scan(ds, d).Returned? ==> Scan(ds, d).value == (if covering == [] then None else Some(covering[0]))
    decreases |ds|
  {
    if ds != [] && Scan(ds, d).Returned? {
      var rest := Seqs.Filter(App.Covering(d), ds[1..]);
      assert App.Covering(d)(ds[0]) == App.Covers(ds[0], d);
      assert Seqs.Filter(App.Covering(d), ds) == (if App.Covers(ds[0], d) then [ds[0]] else []) + rest;
      if !App.Covers(ds[0], d) {
        assert Probe(ds[0], d) == Returned(false);
        assert Scan(ds, d) == Scan(ds[1..], d);
        assert [] + rest == rest;
        ScanFindsFirst(ds[1..], d);
      }
    }
  }

  /** A record of a well-dated dataset never stops the loop. */
  lemma WellDatedNeverChokes(ds: Dataset, d: Date)
    requires forall i :: 0 <= i < |ds| ==> WellDated(ds[i])
    ensures !ChokesBeforeMatch(ds, d)
  {
  }

  /** The record has every key the earlier answer reads with `[]`. */
  predicate Answerable(rec: Json) {
    rec.JObj? && "uid" in rec.fields && "summary" in rec.fields && "catagories" in rec.fields
    && "start" in rec.fields && "end" in rec.fields
  }

  /** The answer for a match: the day fields and the record's `uid`, `summary`, `catagories`,
      `start` and `end`, each read with `[]`, so a missing one is a KeyError. */
  function Described(d: Date, rec: Json): (r: Outcome<Object>)
    requires Valid(d)
    ensures r.Raised? <==> !Answerable(rec)
    ensures r.Raised? ==> r.error == (if rec.JObj? then KeyError else TypeError)
    ensures r.Returned? ==> r.value.Keys == App.DayFields + {"is_holiday", "id", "holiday", "type", "holiday_start", "holiday_end"}
  {
    match rec
    case JObj(o) =>
      if "uid" in o && "summary" in o && "catagories" in o && "start" in o && "end" in o then
        Returned(map["day" := JStr(DayName(d)), "week" := JStr(WeekString(d)), "month" := JStr(MonthName(d)),
                     "is_holiday" := JBool(true), "id" := o["uid"], "holiday" := o["summary"],
                     "type" := o["catagories"], "holiday_start" := o["start"], "holiday_end" := o["end"]])
      else Raised(KeyError)
    case _ => Raised(TypeError)
  }

  /** The payload for what the loop found: the record's description, or "no holiday". */
  function Answer(d: Date, found: Option<Json>): (r: Outcome<Object>)
    requires Valid(d)
    ensures r.Returned? ==> "is_holiday" in r.value && r.value["is_holiday"] == JBool(found.Some?)
    ensures found.None? ==> r == Returned(map["is_holiday" := JBool(false)])
  {
    match found
    case None => Returned(map["is_holiday" := JBool(false)])
    case Some(rec) => Described(d, rec)
  }

  /** `get_holiday_info(year, month, day)` of the earlier revision: no cache and no path guard;
      a file that is not JSON raises. */
  function Resolve(year: int, month: int, day: int, file: YearFile): (r: Outcome<Info>)
    ensures !Valid(Date(year, month, day)) ==> r == Returned(Info(None, BadRequest, ErrorBody(InvalidDateMessage)))
    ensures Valid(Date(year, month, day)) && file.load.FileMissing? ==>
      r == Returned(Info(Some(Date(year, month, day)), NotFound, ErrorBody(MissingYearMessage)))
    ensures Valid(Date(year, month, day)) && file.load.Corrupt? ==> r == Raised(ValueError)
    ensures r.Returned? && r.value.date.Some? ==> Valid(r.value.date.value)
    ensures r.Returned? && r.value.status == StatusOk ==> "is_holiday" in r.value.payload && r.value.payload["is_holiday"].JBool?
  {
    var date := Date(year, month, day);
    if !Valid(date) then Returned(Info(None, BadRequest, ErrorBody(InvalidDateMessage)))
    else match file.load
      case FileMissing => Returned(Info(Some(date), NotFound, ErrorBody(MissingYearMessage)))
      case Corrupt => Raised(ValueError)
      case Loaded(ds) =>
        match Scan(ds, date)
        case Raised(e) => Raised(e)
        case Returned(found) =>
          match Answer(date, found)
          case Raised(e) => Raised(e)
          case Returned(p) => Returned(Info(Some(date), StatusOk, p))
  }

  /** The earlier revision opens a file whose path leaves the data directory; the current one
      refuses it as a bad request. */
  lemma EscapingPathReadOnlyByEarlier(year: int, month: int, day: int, c: Cache, ds: Dataset)
    requires Valid(Date(year, month, day)) && CacheGet(c, CacheKey(year)).None?
    ensures var file := YearFile(true, Loaded(ds));
      && App.Resolve(year, month, day, c, file).outcome ==
         Returned(Info(Some(Date(year, month, day)), BadRequest, ErrorBody(App.InvalidPathMessage)))
      && Resolve(year, month, day, file) == Resolve(year, month, day, YearFile(false, Loaded(ds)))
  {
  }

  /** Every record of a well-dated dataset gets past the current loop as well. */
  lemma WellDatedUnbroken(ds: Dataset)
    requires forall i :: 0 <= i < |ds| ==> WellDated(ds[i])
    ensures forall i :: 0 <= i < |ds| ==> !App.Breaks(ds[i])
  {
    forall i | 0 <= i < |ds| ensures !App.Breaks(ds[i]) {
      assert WellDated(ds[i]);
    }
  }

  /** On well-dated records the earlier revision answers from the first record the current
      loop selects, and says "no holiday" when it selects none. */
  lemma EarlierAnswer(year: int, month: int, day: int, ds: Dataset)
    requires Valid(Date(year, month, day))
    requires !ChokesBeforeMatch(ds, Date(year, month, day))
    ensures var d := Date(year, month, day);
      var covering := Seqs.Filter(App.Covering(d), ds);
      var r := Resolve(year, month, day, YearFile(false, Loaded(ds)));
      && (covering == [] ==> r == Returned(Info(Some(d), StatusOk, map["is_holiday" := JBool(false)])))
      && (covering != [] && Described(d, covering[0]).Raised? ==> r == Raised(Described(d, covering[0]).error))
      && (covering != [] && Described(d, covering[0]).Returned? ==> r == Returned(Info(Some(d), StatusOk, Described(d, covering[0]).value)))
  {
    ScanRaisesIff(ds, Date(year, month, day));
    ScanFindsFirst(ds, Date(year, month, day));
  }

  /** The earlier revision raises exactly when its loop meets an unreadable record before the
      first match, or when the first match lacks a key its answer reads. */
  lemma EarlierRaisesIff(year: int, month: int, day: int, file: YearFile, ds: Dataset)
    requires Valid(Date(year, month, day)) && file.load == Loaded(ds)
    ensures var d := Date(year, month, day);
      var covering := Seqs.Filter(App.Covering(d), ds);
      Resolve(year, month, day, file).Raised? <==>
        ChokesBeforeMatch(ds, d) || (covering != [] && !Answerable(covering[0]))
  {
    var d := Date(year, month, day);
    var covering := Seqs.Filter(App.Covering(d), ds);
    var r := Resolve(year, month, day, file);
    ScanRaisesIff(ds, d);
    if ChokesBeforeMatch(ds, d) {
      assert r == Raised(Scan(ds, d).error);
    } else {
      ScanFindsFirst(ds, d);
      if covering == [] {
        assert r == Returned(Info(Some(d), StatusOk, map["is_holiday" := JBool(false)]));
      } else {
        var a := Described(d, covering[0]);
        assert Scan(ds, d) == Returned(Some(covering[0]));
        assert r.Raised? <==> a.Raised?;
      }
    }
  }

  /** The first record the current loop selects from a well-dated dataset is an object. */
  lemma CoveringWellDated(ds: Dataset, d: Date)
    requires forall i :: 0 <= i < |ds| ==> WellDated(ds[i])
    requires Seqs.Filter(App.Covering(d), ds) != []
    ensures Seqs.Filter(App.Covering(d), ds)[0].JObj?
  {
    var rec := Seqs.Filter(App.Covering(d), ds)[0];
    assert rec in Seqs.Filter(App.Covering(d), ds);
    var i :| 0 <= i < |ds| && ds[i] == rec;
    assert WellDated(ds[i]);
  }

  /** A description copies the record's fields under the answer's names. */
  lemma DescribedFields(d: Date, rec: Json)
    requires Valid(d) && Described(d, rec).Returned?
    ensures var p := Described(d, rec).value;
      && Answerable(rec)
      && p["day"] == JStr(DayName(d)) && p["week"] == JStr(WeekString(d)) && p["month"] == JStr(MonthName(d))
      && p["is_holiday"] == JBool(true)
      && p["id"] == rec.fields["uid"]
      && p["holiday"] == rec.fields["summary"]
      && p["type"] == rec.fields["catagories"]
      && p["holiday_start"] == rec.fields["start"]
      && p["holiday_end"] == rec.fields["end"]
  {
  }

  /** The earlier revision's verdict on well-dated records: a holiday exactly when the current
      loop selects some record, and an exception only then, a KeyError. */
  lemma EarlierVerdict(year: int, month: int, day: int, ds: Dataset)
    requires Valid(Date(year, month, day))
    requires forall i :: 0 <= i < |ds| ==> WellDated(ds[i])
    ensures var covering := Seqs.Filter(App.Covering(Date(year, month, day)), ds);
      var r := Resolve(year, month, day, YearFile(false, Loaded(ds)));
      && (r.Raised? ==> r.error == KeyError && covering != [])
      && (r.Returned? ==> r.value.status == StatusOk && r.value.payload["is_holiday"] == JBool(covering != []))
  {
    var d := Date(year, month, day);
    var covering := Seqs.Filter(App.Covering(d), ds);
    var r := Resolve(year, month, day, YearFile(false, Loaded(ds)));
    WellDatedNeverChokes(ds, Date(year, month, day));
    EarlierAnswer(year, month, day, ds);
    if covering != [] {
      CoveringWellDated(ds, d);
      var a := Described(d, covering[0]);
      if a.Raised? {
        assert r == Raised(KeyError);
      } else {
        DescribedFields(d, covering[0]);
        assert r == Returned(Info(Some(d), StatusOk, a.value));
      }
    }
  }

  /** Where both revisions read the same well-dated records (the current one from its cache or
      the file), both answer 200 and agree on whether the date is a holiday; the earlier one can
      only fail for a matching record that lacks a key it reads with `[]`. */
  lemma SameVerdict(year: int, month: int, day: int, c: Cache, file: YearFile, ds: Dataset)
    requires Valid(Date(year, month, day)) && FetchYear(year, c, file).result == Got(ds)
    requires forall i :: 0 <= i < |ds| ==> WellDated(ds[i])
    ensures var app := App.Resolve(year, month, day, c, file).outcome;
      var earlier := Resolve(year, month, day, YearFile(false, Loaded(ds)));
      && app.Returned? && app.value.status == StatusOk
      && (earlier.Raised? ==> earlier.error == KeyError && app.value.payload["is_holiday"] == JBool(true))
      && (earlier.Returned? ==> earlier.value.status == StatusOk && earlier.value.payload["is_holiday"] == app.value.payload["is_holiday"])
  {
    var d := Date(year, month, day);
    WellDatedUnbroken(ds);
    App.IsHolidayIff(year, month, day, c, file, ds);
    App.FilterEmptyIff(ds, d);
    EarlierVerdict(year, month, day, ds);
  }

  /** The fields the earlier revision copies from the record it answers with. */
  lemma EarlierMatchFields(year: int, month: int, day: int, ds: Dataset)
    requires Valid(Date(year, month, day))
    requires forall i :: 0 <= i < |ds| ==> WellDated(ds[i])
    requires Resolve(year, month, day, YearFile(false, Loaded(ds))).Returned?
    requires Resolve(year, month, day, YearFile(false, Loaded(ds))).value.payload["is_holiday"] == JBool(true)
    ensures var d := Date(year, month, day);
      var covering := Seqs.Filter(App.Covering(d), ds);
      var p := Resolve(year, month, day, YearFile(false, Loaded(ds))).value.payload;
      && covering != [] && covering[0].JObj?
      && Answerable(covering[0])
      && "id" in p && "holiday" in p && "type" in p && "holiday_start" in p && "holiday_end" in p
      && p["id"] == covering[0].fields["uid"]
      && p["holiday"] == covering[0].fields["summary"]
      && p["type"] == covering[0].fields["catagories"]
      && p["holiday_start"] == covering[0].fields["start"]
      && p["holiday_end"] == covering[0].fields["end"]
  {
    var d := Date(year, month, day);
    var covering := Seqs.Filter(App.Covering(d), ds);
    var r := Resolve(year, month, day, YearFile(false, Loaded(ds)));
    EarlierVerdict(year, month, day, ds);
    assert JBool(covering != []) == JBool(true);
    WellDatedNeverChokes(ds, Date(year, month, day));
    EarlierAnswer(year, month, day, ds);
    var a := Described(d, covering[0]);
    assert a.Returned?;
    assert r.value.payload == a.value;
    DescribedFields(d, covering[0]);
  }

  /** The first entry of the current `holidays` list is the match of the first covering record. */
  lemma AppFirstHoliday(year: int, month: int, day: int, c: Cache, file: YearFile, ds: Dataset)
    requires Valid(Date(year, month, day)) && FetchYear(year, c, file).result == Got(ds)
    requires forall i :: 0 <= i < |ds| ==> WellDated(ds[i])
    requires Seqs.Filter(App.Covering(Date(year, month, day)), ds) != []
    ensures var d := Date(year, month, day);
      var covering := Seqs.Filter(App.Covering(d), ds);
      var app := App.Resolve(year, month, day, c, file).outcome;
      && app.Returned? && "holidays" in app.value.payload
      && app.value.payload["holidays"].JArr? && |app.value.payload["holidays"].items| >= 1
      && app.value.payload["holidays"].items[0] == JObj(App.MatchOf(covering[0]))
  {
    var d := Date(year, month, day);
    var covering := Seqs.Filter(App.Covering(d), ds);
    WellDatedUnbroken(ds);
    App.ResolvedPayload(year, month, day, c, file, ds);
    App.ShapeFirstHoliday(d, covering);
  }

  /** The earlier revision's holiday answer names the date's weekday, week and month. */
  lemma EarlierDayFields(year: int, month: int, day: int, ds: Dataset)
    requires Valid(Date(year, month, day))
    requires forall i :: 0 <= i < |ds| ==> WellDated(ds[i])
    requires Resolve(year, month, day, YearFile(false, Loaded(ds))).Returned?
    requires Resolve(year, month, day, YearFile(false, Loaded(ds))).value.payload["is_holiday"] == JBool(true)
    ensures var d := Date(year, month, day);
      var p := Resolve(year, month, day, YearFile(false, Loaded(ds))).value.payload;
      && App.DayFields <= p.Keys
      && p["day"] == JStr(DayName(d)) && p["week"] == JStr(WeekString(d)) && p["month"] == JStr(MonthName(d))
  {
    var d := Date(year, month, day);
    var covering := Seqs.Filter(App.Covering(d), ds);
    var r := Resolve(year, month, day, YearFile(false, Loaded(ds)));
    EarlierVerdict(year, month, day, ds);
    assert JBool(covering != []) == JBool(true);
    WellDatedNeverChokes(ds, Date(year, month, day));
    EarlierAnswer(year, month, day, ds);
    var a := Described(d, covering[0]);
    assert a.Returned?;
    assert r.value.payload == a.value;
    DescribedFields(d, covering[0]);
  }

  /** On the same well-dated data with a holiday, both revisions give the same weekday, week
      and month. */
  lemma SameDayFields(year: int, month: int, day: int, c: Cache, file: YearFile, ds: Dataset)
    requires Valid(Date(year, month, day)) && FetchYear(year, c, file).result == Got(ds)
    requires forall i :: 0 <= i < |ds| ==> WellDated(ds[i])
    requires Resolve(year, month, day, YearFile(false, Loaded(ds))).Returned?
    requires Resolve(year, month, day, YearFile(false, Loaded(ds))).value.payload["is_holiday"] == JBool(true)
    ensures var app := App.Resolve(year, month, day, c, file).outcome;
      var earlier := Resolve(year, month, day, YearFile(false, Loaded(ds))).value.payload;
      && app.Returned? && App.DayFields <= app.value.payload.Keys * earlier.Keys
      && app.value.payload["day"] == earlier["day"]
      && app.value.payload["week"] == earlier["week"]
      && app.value.payload["month"] == earlier["month"]
  {
    var d := Date(year, month, day);
    EarlierDayFields(year, month, day, ds);
    EarlierVerdict(year, month, day, ds);
    WellDatedUnbroken(ds);
    var covering := Seqs.Filter(App.Covering(d), ds);
    App.ResolvedPayload(year, month, day, c, file, ds);
    App.ShapeDayFields(d, App.MatchesOf(covering));
  }

  /** The first entry of the current `holidays` list describes the record the earlier revision
      answers with: same identifier, title and interval strings. */
  lemma FirstHolidayIsEarlierMatch(year: int, month: int, day: int, c: Cache, file: YearFile, ds: Dataset)
    requires Valid(Date(year, month, day)) && FetchYear(year, c, file).result == Got(ds)
    requires forall i :: 0 <= i < |ds| ==> WellDated(ds[i])
    requires Resolve(year, month, day, YearFile(false, Loaded(ds))).Returned?
    requires Resolve(year, month, day, YearFile(false, Loaded(ds))).value.payload["is_holiday"] == JBool(true)
    ensures var app := App.Resolve(year, month, day, c, file).outcome;
      var earlier := Resolve(year, month, day, YearFile(false, Loaded(ds))).value.payload;
      && app.Returned? && "holidays" in app.value.payload
      && app.value.payload["holidays"].JArr? && |app.value.payload["holidays"].items| >= 1
      && var first := app.value.payload["holidays"].items[0];
      && first.JObj?
      && "id" in first.fields && "holiday" in first.fields && "holiday_start" in first.fields && "holiday_end" in first.fields
      && "id" in earlier && "holiday" in earlier && "holiday_start" in earlier && "holiday_end" in earlier
      && first.fields["id"] == earlier["id"]
      && first.fields["holiday"] == earlier["holiday"]
      && first.fields["holiday_start"] == earlier["holiday_start"]
      && first.fields["holiday_end"] == earlier["holiday_end"]
  {
    var d := Date(year, month, day);
    EarlierMatchFields(year, month, day, ds);
    AppFirstHoliday(year, month, day, c, file, ds);
  }

  /** The two revisions read the record type from different keys: a record that spells it
      `catagories` only gives the current revision a null type and the earlier one its value. */
  lemma TypeKeysDiffer(d: Date, rec: Json)
    requires Valid(d) && Answerable(rec)
    requires "categories" !in rec.fields
    ensures App.MatchOf(rec)["type"] == JNull
    ensures Described(d, rec).value["type"] == rec.fields["catagories"]
  {
  }

  /** When the first matching record has no `uid`, the earlier revision raises a KeyError,
      while the current one's match for it (the first entry of `holidays`, see `AppFirstHoliday`)
      carries a null identifier. */
  lemma MissingUidSplitsRevisions(year: int, month: int, day: int, ds: Dataset)
    requires Valid(Date(year, month, day))
    requires forall i :: 0 <= i < |ds| ==> WellDated(ds[i])
    requires var covering := Seqs.Filter(App.Covering(Date(year, month, day)), ds);
      covering != [] && "uid" !in Fields(covering[0])
    ensures Resolve(year, month, day, YearFile(false, Loaded(ds))) == Raised(KeyError)
    ensures App.MatchOf(Seqs.Filter(App.Covering(Date(year, month, day)), ds)[0])["id"] == JNull
  {
    var d := Date(year, month, day);
    var rec := Seqs.Filter(App.Covering(d), ds)[0];
    WellDatedNeverChokes(ds, Date(year, month, day));
    EarlierAnswer(year, month, day, ds);
    CoveringWellDated(ds, d);
    DescribedWithoutUid(d, rec);
  }

  /** A record the current loop raises on, placed after the earlier loop's match, is never read
      by the earlier revision but is read by the current one: the earlier answer is unchanged
      while the current revision raises a TypeError. */
  lemma LaterBreakingRecordSplitsRevisions(year: int, month: int, day: int, ds: Dataset, later: Dataset)
    requires Valid(Date(year, month, day))
    requires Scan(ds, Date(year, month, day)).Returned? && Scan(ds, Date(year, month, day)).value.Some?
    requires exists i :: 0 <= i < |later| && App.Breaks(later[i])
    ensures Resolve(year, month, day, YearFile(false, Loaded(ds + later))) == Resolve(year, month, day, YearFile(false, Loaded(ds)))
    ensures App.Resolve(year, month, day, NoClient, YearFile(false, Loaded(ds + later))).outcome == Raised(TypeError)
  {
    ScanStopsAtMatch(ds, Date(year, month, day), later);
    var i :| 0 <= i < |later| && App.Breaks(later[i]);
    assert (ds + later)[|ds| + i] == later[i];
    App.BreakingRecordRaises(year, month, day, NoClient, YearFile(false, Loaded(ds + later)), ds + later);
  }

  /** A holiday record followed by `null`: the earlier revision answers that 13 April 2024 is a
      holiday, the current one raises. */
  lemma TrailingNullSplitsRevisions(uid: Json, summary: Json)
    ensures var rec := JObj(map["start" := JStr("2024-04-13"), "end" := JStr("2024-04-14"),
        "uid" := uid, "summary" := summary, "catagories" := JArr([])]);
      var file := YearFile(false, Loaded([rec, JNull]));
      var earlier := Resolve(2024, 4, 13, file);
      && earlier.Returned? && earlier.value.status == StatusOk
      && earlier.value.payload["is_holiday"] == JBool(true)
      && App.Resolve(2024, 4, 13, NoClient, file).outcome == Raised(TypeError)
  {
    var rec := JObj(map["start" := JStr("2024-04-13"), "end" := JStr("2024-04-14"),
      "uid" := uid, "summary" := summary, "catagories" := JArr([])]);
    var d := Date(2024, 4, 13);
    assert ParseDate("2024-04-13") == Some(d);
    assert ParseDate("2024-04-14") == Some(Date(2024, 4, 14));
    assert ReadDate(rec.fields, "start") == Parsed(d);
    assert ReadDate(rec.fields, "end") == Parsed(Date(2024, 4, 14));
    assert Probe(rec, d) == Returned(true);
    assert Scan([rec], d) == Returned(Some(rec));
    assert App.Breaks([JNull][0]);
    assert [rec] + [JNull] == [rec, JNull];
    LaterBreakingRecordSplitsRevisions(2024, 4, 13, [rec], [JNull]);
    assert Answerable(rec);
  }

  /** A record object without `uid` cannot be described. */
  lemma DescribedWithoutUid(d: Date, rec: Json)
    requires Valid(d) && "uid" !in Fields(rec) && rec.JObj?
    ensures Described(d, rec) == Raised(KeyError)
  {
    assert !Answerable(rec);
  }

  /** `check_holiday` of the earlier revision, with its query bounds as preconditions. */
  function CheckHoliday(year: int, month: int, day: int, file: YearFile): (r: Outcome<Response>)
    requires YearMin <= year <= YearMax && 1 <= month <= 12 && 1 <= day <= 31
    ensures r.Raised? <==> Resolve(year, month, day, file).Raised?
    ensures r.Returned? ==> r.value.status == Resolve(year, month, day, file).value.status
  {
    match Resolve(year, month, day, file)
    case Raised(e) => Raised(e)
    case Returned(info) => CheckResponse(info)
  }

  /** On success the answer is the ISO date and whether some record covers it. */
  lemma CheckHolidayAnswers(year: int, month: int, day: int, file: YearFile, ds: Dataset)
    requires YearMin <= year <= YearMax && 1 <= month <= 12 && 1 <= day <= 31
    requires Valid(Date(year, month, day)) && file.load == Loaded(ds)
    requires CheckHoliday(year, month, day, file).Returned?
    ensures var r := CheckHoliday(year, month, day, file).value;
      && r.status == StatusOk
      && r.body["date"] == JStr(IsoFormat(Date(year, month, day)))
      && r.body["response"] == JBool(exists i :: 0 <= i < |ds| && App.Covers(ds[i], Date(year, month, day)))
  {
    var d := Date(year, month, day);
    var s := Scan(ds, d);
    if s.Returned? && s.value.Some? {
      var i :| 0 <= i < |ds| && ds[i] == s.value.value;
      assert App.Covers(ds[i], d);
    }
  }
}
