/** The date resolver of the current service (`get_holiday_info` in app.py) and the
    `check_holiday` endpoint built on it. */
module AppResolver {
  import opened Wrappers
  import opened JsonValues
  import opened Dates
  import opened Records
  import opened Http
  import opened Store
  import Seqs

  /** The years the endpoints accept. */
  const YearMin := 2021
  const YearMax := 2026

  const InvalidDateMessage := "Invalid date provided"
  const InvalidPathMessage := "Invalid file path"
  const MissingYearMessage := "Data for requested year not available"
  const CorruptYearMessage := "Invalid data format for requested year. Please notify the admin."
  const DeprecationWarning := "This response structure is deprecated and will be removed in future versions. Please migrate to the new 'holidays' array format to ensure future compatibility."

  /** How the matching loop treats one record: skipped (KeyError or ValueError, both caught),
      broken (TypeError, not caught), or an interval. */
  datatype Span = Skipped | Broken | Span(start: Date, end: Date)

  function SpanOf(rec: Json): (s: Span)
    ensures s.Span? <==> WellDated(rec)
    ensures s.Span? ==> s.start == ReadDate(rec.fields, "start").date && s.end == ReadDate(rec.fields, "end").date
    ensures s.Broken? <==> (!rec.JObj? || ReadDate(rec.fields, "start").NotText? ||
      (ReadDate(rec.fields, "start").Parsed? && ReadDate(rec.fields, "end").NotText?))
  {
    match rec
    case JObj(o) =>
      (match ReadDate(o, "start")
       case Absent => Skipped
       case Unparsed => Skipped
       case NotText => Broken
       case Parsed(start) =>
         match ReadDate(o, "end")
         case Absent => Skipped
         case Unparsed => Skipped
         case NotText => Broken
         case Parsed(end) => Span(start, end))
    case _ => Broken
  }

  /** The record's interval holds `d`: `start_date <= date_to_check < end_date`. */
  predicate Covers(rec: Json, d: Date) {
    SpanOf(rec).Span? && InInterval(SpanOf(rec).start, SpanOf(rec).end, d)
  }

  function Covering(d: Date): Json -> bool {
    rec => Covers(rec, d)
  }

  /** The record makes the loop raise. */
  predicate Breaks(rec: Json) {
    SpanOf(rec).Broken?
  }

  /** The match dict appended for a record. */
  function MatchOf(rec: Json): (m: Object)
    ensures m.Keys == {"id", "holiday", "type", "holiday_start", "holiday_end"}
    ensures m["id"] == Get(Fields(rec), "uid") && m["holiday"] == Get(Fields(rec), "summary")
    ensures m["type"] == Get(Fields(rec), "categories")
    ensures m["holiday_start"] == Get(Fields(rec), "start") && m["holiday_end"] == Get(Fields(rec), "end")
  {
    var o := Fields(rec);
    map["id" := Get(o, "uid"), "holiday" := Get(o, "summary"), "type" := Get(o, "categories"),
        "holiday_start" := Get(o, "start"), "holiday_end" := Get(o, "end")]
  }

  /** The match dicts of the given records, in order. */
  function MatchesOf(recs: seq<Json>): (ms: seq<Object>)
    ensures |ms| == |recs|
    ensures forall i :: 0 <= i < |recs| ==> ms[i] == MatchOf(recs[i])
  {
    if recs == [] then [] else [MatchOf(recs[0])] + MatchesOf(recs[1..])
  }

  /** The matching loop over every record. */
  function Scan(ds: Dataset, d: Date): (r: Outcome<seq<Object>>)
    ensures r.Raised? <==> exists i :: 0 <= i < |ds| && Breaks(ds[i])
    ensures r.Raised? ==> r.error == TypeError
    ensures r.Returned? ==> |r.value| <= |ds|
    decreases |ds|
  {
    if ds == [] then Returned([])
    else if Breaks(ds[0]) then Raised(TypeError)
    else
      var tail := Scan(ds[1..], d);
      assert tail.Raised? <==> exists i :: 0 <= i < |ds| && Breaks(ds[i]) by {
        if exists i :: 0 <= i < |ds| && Breaks(ds[i]) {
          var i :| 0 <= i < |ds| && Breaks(ds[i]);
          assert ds[1..][i - 1] == ds[i];
        }
      }
      match tail
      case Raised(e) => Raised(e)
      case Returned(rest) => Returned((if Covers(ds[0], d) then [MatchOf(ds[0])] else []) + rest)
  }

  /** Without a breaking record, the matches are those of the covering records, all of them,
      in file order. */
  lemma {:induction false} ScanSelectsCovering(ds: Dataset, d: Date)
    requires forall i :: 0 <= i < |ds| ==> !Breaks(ds[i])
    ensures Scan(ds, d) == Returned(MatchesOf(Seqs.Filter(Covering(d), ds)))
    decreases |ds|
  {
    if ds != [] {
      assert forall i :: 0 <= i < |ds[1..]| ==> !Breaks(ds[1..][i]) by {
        forall i | 0 <= i < |ds[1..]| ensures !Breaks(ds[1..][i]) {
          assert ds[1..][i] == ds[i + 1];
        }
      }
      ScanSelectsCovering(ds[1..], d);
      var rest := Seqs.Filter(Covering(d), ds[1..]);
      assert Scan(ds, d) == Returned((if Covers(ds[0], d) then [MatchOf(ds[0])] else []) + MatchesOf(rest));
      assert Seqs.Filter(Covering(d), ds) == (if Covering(d)(ds[0]) then [ds[0]] else []) + rest;
      if Covers(ds[0], d) {
        assert Seqs.Filter(Covering(d), ds) == [ds[0]] + rest;
        assert ([ds[0]] + rest)[1..] == rest;
      } else {
        assert !Covering(d)(ds[0]);
        assert Seqs.Filter(Covering(d), ds) == rest;
        assert [] + MatchesOf(rest) == MatchesOf(rest);
      }
    }
  }

  lemma FilterEmptyIff(ds: Dataset, d: Date)
    ensures Seqs.Filter(Covering(d), ds) == [] <==> forall i :: 0 <= i < |ds| ==> !Covers(ds[i], d)
  {
    if exists i :: 0 <= i < |ds| && Covers(ds[i], d) {
      var i :| 0 <= i < |ds| && Covers(ds[i], d);
      assert Covering(d)(ds[i]);
    }
  }

  function HolidayList(matches: seq<Object>): Json {
    JArr(seq(|matches|, i requires 0 <= i < |matches| => JObj(matches[i])))
  }

  const DayFields: set<string> := {"day", "week", "month"}
  const ListFields: set<string> := {"is_holiday", "count", "holidays"}
  const LegacyFields: set<string> := {"id", "holiday", "type", "holiday_start", "holiday_end", "deprecated_warning"}

  /** The top-level fields of the older single-holiday schema, copied from the one match. */
  function Legacy(single: Object): (p: Object)
    ensures p.Keys == LegacyFields
    ensures p["id"] == Get(single, "id") && p["holiday"] == Get(single, "summary")
    ensures p["type"] == Get(single, "type")
    ensures p["holiday_start"] == Get(single, "holiday_start") && p["holiday_end"] == Get(single, "holiday_end")
    ensures p["deprecated_warning"] == JStr(DeprecationWarning)
  {
    map["id" := Get(single, "id"), "holiday" := Get(single, "summary"), "type" := Get(single, "type"),
        "holiday_start" := Get(single, "holiday_start"), "holiday_end" := Get(single, "holiday_end"),
        "deprecated_warning" := JStr(DeprecationWarning)]
  }

  /** The fields of every non-empty answer: the day's names and the list of matches. */
  function DayAndList(d: Date, matches: seq<Object>): (p: Object)
    requires Valid(d)
    ensures p.Keys == DayFields + ListFields
    ensures p["day"] == JStr(DayName(d)) && p["week"] == JStr(WeekString(d)) && p["month"] == JStr(MonthName(d))
    ensures p["is_holiday"] == JBool(true) && p["count"] == JNum(|matches|) && p["holidays"] == HolidayList(matches)
  {
    map["day" := JStr(DayName(d)), "week" := JStr(WeekString(d)), "month" := JStr(MonthName(d)),
        "is_holiday" := JBool(true), "count" := JNum(|matches|), "holidays" := HolidayList(matches)]
  }

  /** The payload for a valid date and its matches. */
  function Shape(d: Date, matches: seq<Object>): (p: Object)
    requires Valid(d)
    ensures matches == [] ==> p.Keys == {"is_holiday"} && p["is_holiday"] == JBool(false)
    ensures matches != [] ==> "is_holiday" in p && p["is_holiday"] == JBool(true)
    ensures matches != [] ==> "count" in p && p["count"] == JNum(|matches|)
    ensures matches != [] ==> "holidays" in p && p["holidays"] == HolidayList(matches)
  {
    if matches == [] then map["is_holiday" := JBool(false)]
    else if |matches| == 1 then
      FieldGroupsDisjoint();
      DayAndList(d, matches) + Legacy(matches[0])
    else DayAndList(d, matches)
  }

  /** The legacy fields never overwrite a day or list field. */
  lemma FieldGroupsDisjoint()
    ensures (DayFields + ListFields) * LegacyFields == {}
  {
    forall k | k in LegacyFields ensures k !in DayFields + ListFields {
      assert |k| in {2, 7, 4, 13, 11, 18};
      if |k| == 4 {
        assert k == "type";
        assert "type"[0] != "week"[0];
      }
    }
  }

  /** The day fields accompany every non-empty answer. */
  lemma ShapeDayFields(d: Date, matches: seq<Object>)
    requires Valid(d) && matches != []
    ensures DayFields <= Shape(d, matches).Keys
    ensures Shape(d, matches)["day"] == JStr(DayName(d))
    ensures Shape(d, matches)["week"] == JStr(WeekString(d))
    ensures Shape(d, matches)["month"] == JStr(MonthName(d))
  {
    var p := DayAndList(d, matches);
    if |matches| == 1 {
      FieldGroupsDisjoint();
      assert Shape(d, matches) == p + Legacy(matches[0]);
    }
  }

  /** The legacy fields are added for exactly one match and for no other count. */
  lemma ShapeLegacyKeys(d: Date, matches: seq<Object>)
    requires Valid(d)
    ensures |matches| == 1 ==> Shape(d, matches).Keys == DayFields + ListFields + LegacyFields
    ensures |matches| >= 2 ==> Shape(d, matches).Keys == DayFields + ListFields
    ensures |matches| != 1 ==> Shape(d, matches).Keys * LegacyFields == {}
  {
    if matches == [] {
      assert "is_holiday" !in LegacyFields;
    } else {
      FieldGroupsDisjoint();
    }
  }

  /** For one match the legacy fields copy it, reading `summary` where the match says `holiday`. */
  lemma ShapeLegacyValues(d: Date, matches: seq<Object>)
    requires Valid(d) && |matches| == 1
    ensures var p := Shape(d, matches);
      && LegacyFields <= p.Keys
      && p["id"] == Get(matches[0], "id")
      && p["holiday"] == Get(matches[0], "summary")
      && p["type"] == Get(matches[0], "type")
      && p["holiday_start"] == Get(matches[0], "holiday_start")
      && p["holiday_end"] == Get(matches[0], "holiday_end")
      && p["deprecated_warning"] == JStr(DeprecationWarning)
  {
    var q := Legacy(matches[0]);
    assert Shape(d, matches) == DayAndList(d, matches) + q;
  }

  /** What one call returns, the cache after it, and how many times it opened the year file. */
  datatype Resolution = Resolution(outcome: Outcome<Info>, cache: Cache, fileReads: nat)

  /** `get_holiday_info(year, month, day)`. */
  function Resolve(year: int, month: int, day: int, c: Cache, file: YearFile): (r: Resolution)
    ensures !Valid(Date(year, month, day)) ==>
      r == Resolution(Returned(Info(None, BadRequest, ErrorBody(InvalidDateMessage))), c, 0)
    ensures Valid(Date(year, month, day)) && r.outcome.Returned? ==> r.outcome.value.date == Some(Date(year, month, day))
    ensures r.outcome.Returned? && r.outcome.value.date.Some? ==> Valid(r.outcome.value.date.value)
    ensures r.outcome.Returned? && r.outcome.value.status != StatusOk ==> r.outcome.value.payload.Keys == {"error"}
    ensures r.outcome.Returned? && r.outcome.value.status == StatusOk ==> "is_holiday" in r.outcome.value.payload
    ensures r.fileReads <= 1
  {
    var date := Date(year, month, day);
    if !Valid(date) then Resolution(Returned(Info(None, BadRequest, ErrorBody(InvalidDateMessage))), c, 0)
    else
      var f := FetchYear(year, c, file);
      match f.result
      case PathRejected => Resolution(Returned(Info(Some(date), BadRequest, ErrorBody(InvalidPathMessage))), f.cache, f.fileReads)
      case Absent => Resolution(Returned(Info(Some(date), NotFound, ErrorBody(MissingYearMessage))), f.cache, f.fileReads)
      case Unparsable => Resolution(Returned(Info(Some(date), InternalServerError, ErrorBody(CorruptYearMessage))), f.cache, f.fileReads)
      case Got(ds) =>
        match Scan(ds, date)
        case Raised(e) => Resolution(Raised(e), f.cache, f.fileReads)
        case Returned(matches) => Resolution(Returned(Info(Some(date), StatusOk, Shape(date, matches))), f.cache, f.fileReads)
  }

  /** The file's failures reach the caller with the validated date: a redirected path is a bad
      request, a missing file 404, an unreadable one 500; the cache is left as it was. */
  lemma FileFailuresCarryDate(year: int, month: int, day: int, c: Cache, file: YearFile)
    requires Valid(Date(year, month, day)) && CacheGet(c, CacheKey(year)).None?
    ensures var r := Resolve(year, month, day, c, file);
      && (file.escapes ==> r.outcome == Returned(Info(Some(Date(year, month, day)), BadRequest, ErrorBody(InvalidPathMessage))))
      && (!file.escapes && file.load.FileMissing? ==> r.outcome == Returned(Info(Some(Date(year, month, day)), NotFound, ErrorBody(MissingYearMessage))))
      && (!file.escapes && file.load.Corrupt? ==> r.outcome == Returned(Info(Some(Date(year, month, day)), InternalServerError, ErrorBody(CorruptYearMessage))))
      && (file.escapes || !file.load.Loaded? ==> r.cache == c)
  {
  }

  /** A record whose date field holds a non-string, or a record that is not an object, makes
      the whole call raise. */
  lemma BreakingRecordRaises(year: int, month: int, day: int, c: Cache, file: YearFile, ds: Dataset)
    requires Valid(Date(year, month, day)) && FetchYear(year, c, file).result == Got(ds)
    requires exists i :: 0 <= i < |ds| && Breaks(ds[i])
    ensures Resolve(year, month, day, c, file).outcome == Raised(TypeError)
  {
  }

  /** With the year's data in hand and no breaking record, the answer is the payload shaped
      from the matches of the covering records. */
  lemma ResolvedPayload(year: int, month: int, day: int, c: Cache, file: YearFile, ds: Dataset)
    requires Valid(Date(year, month, day)) && FetchYear(year, c, file).result == Got(ds)
    requires forall i :: 0 <= i < |ds| ==> !Breaks(ds[i])
    ensures Resolve(year, month, day, c, file).outcome ==
      Returned(Info(Some(Date(year, month, day)), StatusOk,
        Shape(Date(year, month, day), MatchesOf(Seqs.Filter(Covering(Date(year, month, day)), ds)))))
  {
    ScanSelectsCovering(ds, Date(year, month, day));
  }

  /** `is_holiday` is true exactly when some record with readable dates has `start <= d < end`;
      records with a missing or unreadable date are passed over. */
  lemma IsHolidayIff(year: int, month: int, day: int, c: Cache, file: YearFile, ds: Dataset)
    requires Valid(Date(year, month, day)) && FetchYear(year, c, file).result == Got(ds)
    requires forall i :: 0 <= i < |ds| ==> !Breaks(ds[i])
    ensures Resolve(year, month, day, c, file).outcome.Returned?
    ensures Resolve(year, month, day, c, file).outcome.value.status == StatusOk
    ensures var p := Resolve(year, month, day, c, file).outcome.value.payload;
      "is_holiday" in p && p["is_holiday"] == JBool(exists i :: 0 <= i < |ds| && Covers(ds[i], Date(year, month, day)))
  {
    var date := Date(year, month, day);
    ResolvedPayload(year, month, day, c, file, ds);
    FilterEmptyIff(ds, date);
  }

  /** With at least one match, `holidays` lists the match of every covering record in file
      order, `count` is its length, and the day fields are present. */
  lemma HolidaysListAllMatches(year: int, month: int, day: int, c: Cache, file: YearFile, ds: Dataset)
    requires Valid(Date(year, month, day)) && FetchYear(year, c, file).result == Got(ds)
    requires forall i :: 0 <= i < |ds| ==> !Breaks(ds[i])
    requires Seqs.Filter(Covering(Date(year, month, day)), ds) != []
    ensures Resolve(year, month, day, c, file).outcome.Returned?
    ensures var covering := Seqs.Filter(Covering(Date(year, month, day)), ds);
      var p := Resolve(year, month, day, c, file).outcome.value.payload;
      && DayFields + ListFields <= p.Keys
      && p["holidays"] == HolidayList(MatchesOf(covering))
      && p["count"] == JNum(|covering|)
  {
    var date := Date(year, month, day);
    ResolvedPayload(year, month, day, c, file, ds);
    ShapeDayFields(date, MatchesOf(Seqs.Filter(Covering(date), ds)));
  }

  /** The legacy top-level fields appear exactly when one record matches. */
  lemma LegacyFieldsOnlyForOneMatch(year: int, month: int, day: int, c: Cache, file: YearFile, ds: Dataset)
    requires Valid(Date(year, month, day)) && FetchYear(year, c, file).result == Got(ds)
    requires forall i :: 0 <= i < |ds| ==> !Breaks(ds[i])
    ensures Resolve(year, month, day, c, file).outcome.Returned?
    ensures var p := Resolve(year, month, day, c, file).outcome.value.payload;
      LegacyFields <= p.Keys <==> |Seqs.Filter(Covering(Date(year, month, day)), ds)| == 1
    ensures var p := Resolve(year, month, day, c, file).outcome.value.payload;
      |Seqs.Filter(Covering(Date(year, month, day)), ds)| != 1 ==> p.Keys * LegacyFields == {}
  {
    var date := Date(year, month, day);
    ResolvedPayload(year, month, day, c, file, ds);
    ShapeOfCoveringKeys(date, Seqs.Filter(Covering(date), ds));
  }

  /** The first entry of `holidays` is the match of the first covering record. */
  lemma ShapeFirstHoliday(d: Date, covering: seq<Json>)
    requires Valid(d) && covering != []
    ensures var p := Shape(d, MatchesOf(covering));
      && "holidays" in p && p["holidays"].JArr? && |p["holidays"].items| >= 1
      && p["holidays"].items[0] == JObj(MatchOf(covering[0]))
  {
    var matches := MatchesOf(covering);
    assert HolidayList(matches).items[0] == JObj(matches[0]);
  }

  /** The legacy keys of the payload shaped from the covering records, by their number. */
  lemma ShapeOfCoveringKeys(d: Date, covering: seq<Json>)
    requires Valid(d)
    ensures var p := Shape(d, MatchesOf(covering));
      && (LegacyFields <= p.Keys <==> |covering| == 1)
      && (|covering| != 1 ==> p.Keys * LegacyFields == {})
  {
    var matches := MatchesOf(covering);
    ShapeLegacyKeys(d, matches);
    if |covering| != 1 {
      var keys := Shape(d, matches).Keys;
      assert "id" in LegacyFields;
      assert "id" !in keys * LegacyFields;
    }
  }

  /** With one match the legacy fields repeat its id, type and dates; the top-level `holiday`
      is always null, because it is read from the match under the key `summary`, which a
      match dict does not have. */
  lemma LegacyFieldsMirrorTheMatch(year: int, month: int, day: int, c: Cache, file: YearFile, ds: Dataset)
    requires Valid(Date(year, month, day)) && FetchYear(year, c, file).result == Got(ds)
    requires forall i :: 0 <= i < |ds| ==> !Breaks(ds[i])
    requires |Seqs.Filter(Covering(Date(year, month, day)), ds)| == 1
    ensures Resolve(year, month, day, c, file).outcome.Returned?
    ensures var single := MatchOf(Seqs.Filter(Covering(Date(year, month, day)), ds)[0]);
      var p := Resolve(year, month, day, c, file).outcome.value.payload;
      && LegacyFields <= p.Keys
      && p["id"] == single["id"]
      && p["type"] == single["type"]
      && p["holiday_start"] == single["holiday_start"]
      && p["holiday_end"] == single["holiday_end"]
      && p["holiday"] == JNull
      && p["deprecated_warning"] == JStr(DeprecationWarning)
  {
    var date := Date(year, month, day);
    ResolvedPayload(year, month, day, c, file, ds);
    ShapeOfOneMirrors(date, Seqs.Filter(Covering(date), ds));
  }

  /** The legacy fields of the payload shaped from one covering record, in terms of its match. */
  lemma ShapeOfOneMirrors(d: Date, covering: seq<Json>)
    requires Valid(d) && |covering| == 1
    ensures var single := MatchOf(covering[0]);
      var p := Shape(d, MatchesOf(covering));
      && LegacyFields <= p.Keys
      && p["id"] == single["id"]
      && p["type"] == single["type"]
      && p["holiday_start"] == single["holiday_start"]
      && p["holiday_end"] == single["holiday_end"]
      && p["holiday"] == JNull
      && p["deprecated_warning"] == JStr(DeprecationWarning)
  {
    var matches := MatchesOf(covering);
    ShapeLegacyValues(d, matches);
    assert matches[0] == MatchOf(covering[0]);
    assert "summary" !in matches[0];
  }

  /** Cache transparency: when the cache holds a year's data, the answer is the one reading
      that data from the file would give. */
  lemma CacheTransparent(year: int, month: int, day: int, c: Cache, file: YearFile, ds: Dataset)
    requires year >= 1 && CacheGet(c, CacheKey(year)) == Some(ds)
    ensures Resolve(year, month, day, c, file).outcome == Resolve(year, month, day, NoClient, YearFile(false, Loaded(ds))).outcome
  {
  }

  /** A date that is not a calendar date is refused before the cache or the file is looked at. */
  lemma InvalidDateIgnoresStores(year: int, month: int, day: int, c1: Cache, c2: Cache, f1: YearFile, f2: YearFile)
    requires !Valid(Date(year, month, day))
    ensures Resolve(year, month, day, c1, f1).outcome == Resolve(year, month, day, c2, f2).outcome
    ensures Resolve(year, month, day, c1, f1).cache == c1 && Resolve(year, month, day, c1, f1).fileReads == 0
  {
  }

  /** `date(2024, 2, 30)` does not exist. */
  lemma February30Refused(c: Cache, file: YearFile)
    ensures Resolve(2024, 2, 30, c, file).outcome == Returned(Info(None, BadRequest, ErrorBody(InvalidDateMessage)))
  {
  }

  /** The end date is excluded: a holiday stored as [2024-04-13, 2024-04-14) covers 13 April
      and not 14 April. */
  lemma EndDateExcluded()
    ensures var rec := JObj(map["start" := JStr("2024-04-13"), "end" := JStr("2024-04-14")]);
      Covers(rec, Date(2024, 4, 13)) && !Covers(rec, Date(2024, 4, 14))
  {
    var rec := JObj(map["start" := JStr("2024-04-13"), "end" := JStr("2024-04-14")]);
    assert ParseDate("2024-04-13") == Some(Date(2024, 4, 13));
    assert ParseDate("2024-04-14") == Some(Date(2024, 4, 14));
    assert ReadDate(rec.fields, "start") == Parsed(Date(2024, 4, 13));
    assert ReadDate(rec.fields, "end") == Parsed(Date(2024, 4, 14));
  }

  // ---------------------------------------------------------------------------------------
  // Several requests in a row

  /** Requests for the given dates served one after another, the cache threaded through;
      the result is the total number of file reads and the final cache. */
  function ResolveAll(dates: seq<Date>, c: Cache, file: YearFile): (r: (nat, Cache))
    decreases |dates|
  {
    if dates == [] then (0, c)
    else
      var first := Resolve(dates[0].year, dates[0].month, dates[0].day, c, file);
      var rest := ResolveAll(dates[1..], first.cache, file);
      (first.fileReads + rest.0, rest.1)
  }

  /** Once a year is cached, any number of further requests for that year read no file. */
  lemma {:induction false} CachedYearReadsNoFile(year: int, dates: seq<Date>, c: Cache, file: YearFile, ds: Dataset)
    requires year >= 1 && CacheGet(c, CacheKey(year)) == Some(ds)
    requires forall i :: 0 <= i < |dates| ==> Valid(dates[i]) && dates[i].year == year
    ensures ResolveAll(dates, c, file) == (0, c)
    decreases |dates|
  {
    if dates != [] {
      CachedYearReadsNoFile(year, dates[1..], c, file, ds);
    }
  }

  /** With a healthy cache that does not yet hold the year and a readable year file, a run of
      requests for dates of that year opens the file exactly once. */
  lemma OneFileReadPerYear(year: int, dates: seq<Date>, c: Cache, file: YearFile)
    requires year >= 1 && Healthy(c) && CacheGet(c, CacheKey(year)).None?
    requires !file.escapes && file.load.Loaded?
    requires 1 <= |dates| && forall i :: 0 <= i < |dates| ==> Valid(dates[i]) && dates[i].year == year
    ensures ResolveAll(dates, c, file).0 == 1
  {
    var d := dates[0];
    var first := Resolve(d.year, d.month, d.day, c, file);
    WriteBack(year, c, file, file);
    assert first.cache == FetchYear(year, c, file).cache;
    assert first.fileReads == 1;
    CachedYearReadsNoFile(year, dates[1..], first.cache, file, file.load.data);
  }

  // ---------------------------------------------------------------------------------------
  // The check_holiday endpoint

  /** One served request: the answer (or the exception that escaped) and the cache afterwards. */
  datatype Served = Served(outcome: Outcome<Response>, cache: Cache)

  /** `check_holiday`, with the query bounds the framework enforces as preconditions. */
  function CheckHoliday(year: int, month: int, day: int, c: Cache, file: YearFile): (r: Served)
    requires YearMin <= year <= YearMax && 1 <= month <= 12 && 1 <= day <= 31
    ensures r.cache == Resolve(year, month, day, c, file).cache
    ensures r.outcome.Raised? <==> Resolve(year, month, day, c, file).outcome.Raised?
    ensures r.outcome.Returned? ==> r.outcome.value.status == Resolve(year, month, day, c, file).outcome.value.status
  {
    var res := Resolve(year, month, day, c, file);
    match res.outcome
    case Raised(e) => Served(Raised(e), res.cache)
    case Returned(info) => Served(CheckResponse(info), res.cache)
  }

  /** On success the answer is the ISO date and whether some record covers it; any other
      status passes the error payload through without a date. */
  lemma CheckHolidayAnswers(year: int, month: int, day: int, c: Cache, file: YearFile, ds: Dataset)
    requires YearMin <= year <= YearMax && 1 <= month <= 12 && 1 <= day <= 31
    ensures var r := CheckHoliday(year, month, day, c, file);
      var info := Resolve(year, month, day, c, file).outcome;
      r.outcome.Returned? && r.outcome.value.status != StatusOk ==>
        r.outcome.value.body == map["response" := JObj(info.value.payload)]
    ensures (Valid(Date(year, month, day)) && FetchYear(year, c, file).result == Got(ds) &&
      (forall i :: 0 <= i < |ds| ==> !Breaks(ds[i]))) ==>
      var r := CheckHoliday(year, month, day, c, file);
      && r.outcome.Returned? && r.outcome.value.status == StatusOk
      && r.outcome.value.body["date"] == JStr(IsoFormat(Date(year, month, day)))
      && r.outcome.value.body["response"] == JBool(exists i :: 0 <= i < |ds| && Covers(ds[i], Date(year, month, day)))
  {
    if Valid(Date(year, month, day)) && FetchYear(year, c, file).result == Got(ds) &&
      (forall i :: 0 <= i < |ds| ==> !Breaks(ds[i])) {
      IsHolidayIff(year, month, day, c, file, ds);
    }
  }
}
