/** The holiday listing of the current service (`holidays_list` in app.py): the year file read
    directly (not through the cache), filtered by start month and category, and projected to
    full entries or to de-duplicated start dates. */
module Listing {
  import opened Wrappers
  import opened JsonValues
  import opened Dates
  import opened Http
  import opened Store
  import AppResolver
  import Text
  import Seqs

  const FormatMessage := "Invalid format. Use 'simple' or 'full'"

  /** The labels a category filter compares against: `[cat.lower() for cat in value]`.
      Iterating a list needs every item to be a string (a non-string has no `lower`); a string
      is iterated character by character and an object by its keys; null, numbers and booleans
      cannot be iterated at all. */
  function Labels(v: Json): (r: Outcome<set<string>>)
    ensures v.JArr? && (forall x :: x in v.items ==> x.JStr?) ==>
      && r.Returned?
      && (forall x :: x in v.items ==> Text.Lower(x.s) in r.value)
      && (forall l :: l in r.value ==> exists x :: x in v.items && x.JStr? && Text.Lower(x.s) == l)
    ensures v.JArr? && (exists x :: x in v.items && !x.JStr?) ==> r == Raised(AttributeError)
    ensures v.JStr? ==>
      && r.Returned?
      && (forall i :: 0 <= i < |v.s| ==> Text.Lower([v.s[i]]) in r.value)
      && (forall l :: l in r.value ==> exists i :: 0 <= i < |v.s| && Text.Lower([v.s[i]]) == l)
    ensures v.JObj? ==>
      && r.Returned?
      && (forall k :: k in v.fields ==> Text.Lower(k) in r.value)
      && (forall l :: l in r.value ==> exists k :: k in v.fields && Text.Lower(k) == l)
    ensures v.JNull? || v.JNum? || v.JBool? ==> r == Raised(TypeError)
  {
    match v
    case JArr(items) =>
      if forall x :: x in items ==> x.JStr? then Returned(set x | x in items :: Text.Lower(x.s))
      else Raised(AttributeError)
    case JStr(s) => Returned(set i | 0 <= i < |s| :: Text.Lower([s[i]]))
    case JObj(fields) => Returned(set k | k in fields :: Text.Lower(k))
    case _ => Raised(TypeError)
  }

  /** `holiday.get("categories", [])`. */
  function CategoriesOf(o: Object): Json {
    if "categories" in o then o["categories"] else JArr([])
  }

  /** The start-month filter, when a month is requested. */
  predicate MonthMatches(start: Date, month: Option<int>) {
    month.None? || start.month == month.value
  }

  /** The category filter, when a non-empty category is requested: its lower-case form is one
      of the record's lower-cased labels. */
  predicate CategoryMatches(o: Object, category: Option<string>) {
    || category.None?
    || category.value == ""
    || (Labels(CategoriesOf(o)).Returned? && Text.Lower(category.value) in Labels(CategoriesOf(o)).value)
  }

  /** What the loop does with one record before projecting it. */
  datatype Verdict = Pass(start: string) | Drop | Fail(error: PyError)

  /** The checks before projection: `start` and `end` present, `start` a date, then the month
      and category filters. KeyError and ValueError drop the record; any other exception escapes.
      A value that is not an object meets `"start" not in holiday` first: a string is searched
      for the text, a list for the item, and anything else cannot be searched. */
  function Classify(rec: Json, month: Option<int>, category: Option<string>): (v: Verdict)
    ensures v.Pass? <==>
      && rec.JObj? && "start" in rec.fields && "end" in rec.fields
      && rec.fields["start"].JStr? && ParseDate(rec.fields["start"].s).Some?
      && MonthMatches(ParseDate(rec.fields["start"].s).value, month)
      && CategoryMatches(rec.fields, category)
    ensures v.Pass? ==> rec.fields["start"] == JStr(v.start)
    ensures v.Fail? <==>
      || (&& rec.JObj? && "start" in rec.fields && "end" in rec.fields
          && !rec.fields["start"].JStr?)
      || (&& rec.JObj? && "start" in rec.fields && "end" in rec.fields
          && rec.fields["start"].JStr? && ParseDate(rec.fields["start"].s).Some?
          && MonthMatches(ParseDate(rec.fields["start"].s).value, month)
          && category.Some? && category.value != ""
          && Labels(CategoriesOf(rec.fields)).Raised?)
      || (rec.JStr? && Text.HasSubstring(rec.s, "start") && Text.HasSubstring(rec.s, "end"))
      || (rec.JArr? && JStr("start") in rec.items && JStr("end") in rec.items)
      || rec.JNull? || rec.JNum? || rec.JBool?
    ensures v.Fail? ==> v.error == TypeError || v.error == AttributeError
  {
    match rec
    case JObj(o) =>
      if "start" !in o || "end" !in o then Drop
      else
        (match o["start"]
         case JStr(s) =>
           (match ParseDate(s)
            case None => Drop
            case Some(start) =>
              if month.Some? && start.month != month.value then Drop
              else if category.Some? && category.value != "" then
                (match Labels(CategoriesOf(o))
                 case Raised(e) => Fail(e)
                 case Returned(labels) => if Text.Lower(category.value) in labels then Pass(s) else Drop)
              else Pass(s))
         case _ => Fail(TypeError))
    case JStr(text) => if Text.HasSubstring(text, "start") && Text.HasSubstring(text, "end") then Fail(TypeError) else Drop
    case JArr(items) => if JStr("start") in items && JStr("end") in items then Fail(TypeError) else Drop
    case _ => Fail(TypeError)
  }

  /** Some record makes the loop raise. */
  predicate AnyFails(ds: Dataset, month: Option<int>, category: Option<string>) {
    exists i :: 0 <= i < |ds| && Classify(ds[i], month, category).Fail?
  }

  lemma AnyFailsTail(ds: Dataset, month: Option<int>, category: Option<string>)
    requires ds != [] && !Classify(ds[0], month, category).Fail?
    ensures AnyFails(ds, month, category) <==> AnyFails(ds[1..], month, category)
  {
    if AnyFails(ds, month, category) {
      var i :| 0 <= i < |ds| && Classify(ds[i], month, category).Fail?;
      assert ds[1..][i - 1] == ds[i];
    }
    if AnyFails(ds[1..], month, category) {
      var i :| 0 <= i < |ds[1..]| && Classify(ds[1..][i], month, category).Fail?;
      assert ds[1..][i] == ds[i + 1];
    }
  }

  // ---------------------------------------------------------------------------------------
  // format=simple

  /** The `simple` loop: start strings of the records that pass, skipping one already in `seen`. */
  function SimpleStarts(ds: Dataset, month: Option<int>, category: Option<string>, seen: set<string>): (r: Outcome<seq<string>>)
    ensures r.Returned? ==> |r.value| <= |ds| && forall x :: x in r.value ==> x !in seen
    decreases |ds|
  {
    if ds == [] then Returned([])
    else match Classify(ds[0], month, category)
      case Fail(e) => Raised(e)
      case Drop => SimpleStarts(ds[1..], month, category, seen)
      case Pass(s) =>
        if s in seen then SimpleStarts(ds[1..], month, category, seen)
        else match SimpleStarts(ds[1..], month, category, seen + {s})
          case Raised(e) => Raised(e)
          case Returned(rest) => Returned([s] + rest)
  }

  /** Reference: the start strings of all records that pass, repetitions included, in file order. */
  function PassedStarts(ds: Dataset, month: Option<int>, category: Option<string>): seq<string>
    decreases |ds|
  {
    if ds == [] then []
    else
      var v := Classify(ds[0], month, category);
      (if v.Pass? then [v.start] else []) + PassedStarts(ds[1..], month, category)
  }

  lemma FirstIndexBehindHead(s: string, rest: seq<string>, x: string)
    requires x in rest && x != s
    ensures Seqs.FirstIndex([s] + rest, x) == 1 + Seqs.FirstIndex(rest, x)
  {
    assert ([s] + rest)[1..] == rest;
  }

  /** `out` is `all` with repetitions and the strings of `seen` removed, keeping first occurrences
      in order. */
  ghost predicate DedupOf(out: seq<string>, all: seq<string>, seen: set<string>) {
    && Seqs.NoDuplicates(out)
    && (forall x :: x in out <==> x in all && x !in seen)
    && (forall i, j :: 0 <= i < j < |out| ==> Seqs.FirstIndex(all, out[i]) < Seqs.FirstIndex(all, out[j]))
  }

  /** A start already seen adds nothing. */
  lemma DedupSkipsSeen(s: string, out: seq<string>, all: seq<string>, seen: set<string>)
    requires s in seen && DedupOf(out, all, seen)
    ensures DedupOf(out, [s] + all, seen)
  {
    forall k | 0 <= k < |out| ensures Seqs.FirstIndex([s] + all, out[k]) == 1 + Seqs.FirstIndex(all, out[k]) {
      assert out[k] in out;
      FirstIndexBehindHead(s, all, out[k]);
    }
  }

  /** A new start goes first and is remembered for the rest. */
  lemma DedupKeepsNew(s: string, rest: seq<string>, all: seq<string>, seen: set<string>)
    requires s !in seen && DedupOf(rest, all, seen + {s})
    ensures DedupOf([s] + rest, [s] + all, seen)
  {
    var out := [s] + rest;
    var all' := [s] + all;
    assert Seqs.FirstIndex(all', s) == 0;
    forall k | 0 <= k < |rest| ensures rest[k] != s && Seqs.FirstIndex(all', rest[k]) == 1 + Seqs.FirstIndex(all, rest[k]) {
      assert rest[k] in rest;
      FirstIndexBehindHead(s, all, rest[k]);
    }
    forall i, j | 0 <= i < j < |out| ensures out[i] != out[j] && Seqs.FirstIndex(all', out[i]) < Seqs.FirstIndex(all', out[j]) {
      assert out[j] == rest[j - 1];
      if i > 0 {
        assert out[i] == rest[i - 1];
      }
    }
  }

  /** The `simple` loop raises exactly when some record fails. */
  lemma {:induction false} SimpleStartsRaiseIff(ds: Dataset, month: Option<int>, category: Option<string>, seen: set<string>)
    ensures SimpleStarts(ds, month, category, seen).Raised? <==> AnyFails(ds, month, category)
    decreases |ds|
  {
    if ds != [] {
      var v := Classify(ds[0], month, category);
      if !v.Fail? {
        AnyFailsTail(ds, month, category);
        SimpleStartsRaiseIff(ds[1..], month, category, seen);
        if v.Pass? && v.start !in seen {
          SimpleStartsRaiseIff(ds[1..], month, category, seen + {v.start});
        }
      }
    }
  }

  /** The `simple` output holds each passing start string once, nothing else, and in the order
      of first occurrence. */
  lemma {:induction false} SimpleStartsDeduplicates(ds: Dataset, month: Option<int>, category: Option<string>, seen: set<string>)
    ensures SimpleStarts(ds, month, category, seen).Returned? ==>
      DedupOf(SimpleStarts(ds, month, category, seen).value, PassedStarts(ds, month, category), seen)
    decreases |ds|
  {
    if ds != [] && SimpleStarts(ds, month, category, seen).Returned? {
      var v := Classify(ds[0], month, category);
      var all' := PassedStarts(ds[1..], month, category);
      match v
      case Drop =>
        assert PassedStarts(ds, month, category) == [] + all';
        assert [] + all' == all';
        SimpleStartsDeduplicates(ds[1..], month, category, seen);
      case Pass(s) =>
        assert PassedStarts(ds, month, category) == [s] + all';
        if s in seen {
          SimpleStartsDeduplicates(ds[1..], month, category, seen);
          DedupSkipsSeen(s, SimpleStarts(ds, month, category, seen).value, all', seen);
        } else {
          SimpleStartsDeduplicates(ds[1..], month, category, seen + {s});
          DedupKeepsNew(s, SimpleStarts(ds[1..], month, category, seen + {s}).value, all', seen);
        }
    }
  }

  // ---------------------------------------------------------------------------------------
  // format=full

  /** The keys a full entry reads besides `start` and `end`; a missing one is a KeyError that
      drops the record. */
  predicate Complete(o: Object) {
    "summary" in o && "categories" in o && "uid" in o
  }

  /** The full entry for a record: its `start` under both `date` and `start`, its `summary` as the
      name, `categories` as the type, and `uid` as the id. */
  function FullEntry(o: Object): (e: Json)
    ensures e.JObj? && e.fields.Keys == {"date", "name", "type", "start", "end", "id"}
    ensures e.fields["date"] == e.fields["start"] == Get(o, "start") && e.fields["end"] == Get(o, "end")
    ensures e.fields["name"] == Get(o, "summary") && e.fields["type"] == Get(o, "categories") && e.fields["id"] == Get(o, "uid")
  {
    JObj(map["date" := Get(o, "start"), "name" := Get(o, "summary"), "type" := Get(o, "categories"),
             "start" := Get(o, "start"), "end" := Get(o, "end"), "id" := Get(o, "uid")])
  }

  /** The `full` loop. */
  function FullEntries(ds: Dataset, month: Option<int>, category: Option<string>): (r: Outcome<seq<Json>>)
    ensures r.Returned? ==> |r.value| <= |ds| && forall e :: e in r.value ==> e.JObj?
    decreases |ds|
  {
    if ds == [] then Returned([])
    else match Classify(ds[0], month, category)
      case Fail(e) => Raised(e)
      case Drop => FullEntries(ds[1..], month, category)
      case Pass(_) =>
        if !Complete(ds[0].fields) then FullEntries(ds[1..], month, category)
        else match FullEntries(ds[1..], month, category)
          case Raised(e) => Raised(e)
          case Returned(rest) => Returned([FullEntry(ds[0].fields)] + rest)
  }

  /** A record is listed in full form: it passes the checks and has every key the entry reads. */
  function Listed(month: Option<int>, category: Option<string>): Json -> bool {
    rec => Classify(rec, month, category).Pass? && Complete(Fields(rec))
  }

  /** The full entries of the given records, in order. */
  function EntriesOf(recs: seq<Json>): (es: seq<Json>)
    ensures |es| == |recs|
    ensures forall i :: 0 <= i < |recs| ==> es[i] == FullEntry(Fields(recs[i]))
  {
    if recs == [] then [] else [FullEntry(Fields(recs[0]))] + EntriesOf(recs[1..])
  }

  /** The `full` loop raises exactly when some record fails. */
  lemma {:induction false} FullEntriesRaiseIff(ds: Dataset, month: Option<int>, category: Option<string>)
    ensures FullEntries(ds, month, category).Raised? <==> AnyFails(ds, month, category)
    decreases |ds|
  {
    if ds != [] {
      FullEntriesRaiseIff(ds[1..], month, category);
      if !Classify(ds[0], month, category).Fail? {
        AnyFailsTail(ds, month, category);
      }
    }
  }

  /** The `full` output is the entry of every listed record, in file order. */
  lemma {:induction false} FullEntriesSelectListed(ds: Dataset, month: Option<int>, category: Option<string>)
    ensures FullEntries(ds, month, category).Returned? ==>
      FullEntries(ds, month, category).value == EntriesOf(Seqs.Filter(Listed(month, category), ds))
    decreases |ds|
  {
    if ds != [] && FullEntries(ds, month, category).Returned? {
      var v := Classify(ds[0], month, category);
      assert !v.Fail?;
      assert FullEntries(ds[1..], month, category).Returned?;
      FullEntriesSelectListed(ds[1..], month, category);
      var rest := Seqs.Filter(Listed(month, category), ds[1..]);
      assert Seqs.Filter(Listed(month, category), ds) ==
        (if Listed(month, category)(ds[0]) then [ds[0]] else []) + rest;
      if Listed(month, category)(ds[0]) {
        assert ([ds[0]] + rest)[1..] == rest;
      } else {
        assert [] + rest == rest;
      }
    }
  }

  // ---------------------------------------------------------------------------------------
  // The endpoint

  /** `holidays_list`, with the query bounds the framework enforces as preconditions. */
  function ListHolidays(year: int, month: Option<int>, category: Option<string>, format: string, file: YearFile): (r: Outcome<Response>)
    requires AppResolver.YearMin <= year <= AppResolver.YearMax
    requires month.Some? ==> 1 <= month.value <= 12
    ensures format != "simple" && format != "full" ==> r == Returned(Response(BadRequest, ErrorBody(FormatMessage)))
    ensures (format == "simple" || format == "full") && file.escapes ==>
      r == Returned(Response(BadRequest, ErrorBody(AppResolver.InvalidPathMessage)))
    ensures (format == "simple" || format == "full") && !file.escapes && file.load.FileMissing? ==>
      r == Returned(Response(NotFound, ErrorBody(AppResolver.MissingYearMessage)))
    ensures (format == "simple" || format == "full") && !file.escapes && file.load.Corrupt? ==>
      r == Returned(Response(InternalServerError, ErrorBody(AppResolver.CorruptYearMessage)))
    ensures r.Returned? && r.value.status == StatusOk ==> r.value.body.Keys == {"holidays"} && r.value.body["holidays"].JArr?
  {
    if format != "simple" && format != "full" then Returned(Response(BadRequest, ErrorBody(FormatMessage)))
    else if file.escapes then Returned(Response(BadRequest, ErrorBody(AppResolver.InvalidPathMessage)))
    else match file.load
      case FileMissing => Returned(Response(NotFound, ErrorBody(AppResolver.MissingYearMessage)))
      case Corrupt => Returned(Response(InternalServerError, ErrorBody(AppResolver.CorruptYearMessage)))
      case Loaded(ds) =>
        if format == "simple" then
          match SimpleStarts(ds, month, category, {})
          case Raised(e) => Raised(e)
          case Returned(starts) => Returned(Response(StatusOk, map["holidays" := JArr(Strings(starts))]))
        else
          match FullEntries(ds, month, category)
          case Raised(e) => Raised(e)
          case Returned(entries) => Returned(Response(StatusOk, map["holidays" := JArr(entries)]))
  }

  function Strings(xs: seq<string>): (js: seq<Json>)
    ensures |js| == |xs|
    ensures forall i :: 0 <= i < |xs| ==> js[i] == JStr(xs[i])
  {
    seq(|xs|, i requires 0 <= i < |xs| => JStr(xs[i]))
  }

  /** With a readable file, the `simple` listing raises exactly when some record fails, and
      otherwise lists each passing start date once, in order of first appearance. */
  lemma SimpleListing(year: int, month: Option<int>, category: Option<string>, ds: Dataset)
    requires AppResolver.YearMin <= year <= AppResolver.YearMax
    requires month.Some? ==> 1 <= month.value <= 12
    ensures var r := ListHolidays(year, month, category, "simple", YearFile(false, Loaded(ds)));
      && (r.Raised? <==> AnyFails(ds, month, category))
      && (r.Returned? ==> (r.value.status == StatusOk &&
           exists out :: r.value.body["holidays"] == JArr(Strings(out)) && DedupOf(out, PassedStarts(ds, month, category), {})))
  {
    SimpleStartsRaiseIff(ds, month, category, {});
    SimpleStartsDeduplicates(ds, month, category, {});
  }

  /** With a readable file, the `full` listing raises exactly when some record fails, and
      otherwise holds the entry of every listed record, in file order. */
  lemma FullListing(year: int, month: Option<int>, category: Option<string>, ds: Dataset)
    requires AppResolver.YearMin <= year <= AppResolver.YearMax
    requires month.Some? ==> 1 <= month.value <= 12
    ensures var r := ListHolidays(year, month, category, "full", YearFile(false, Loaded(ds)));
      && (r.Raised? <==> AnyFails(ds, month, category))
      && (r.Returned? ==> (r.value.status == StatusOk &&
           r.value.body["holidays"] == JArr(EntriesOf(Seqs.Filter(Listed(month, category), ds)))))
  {
    FullEntriesRaiseIff(ds, month, category);
    FullEntriesSelectListed(ds, month, category);
  }

  /** An unknown format is refused before the file is looked at: the answer does not depend on it. */
  lemma UnknownFormatIgnoresFile(year: int, month: Option<int>, category: Option<string>, format: string, f1: YearFile, f2: YearFile)
    requires AppResolver.YearMin <= year <= AppResolver.YearMax
    requires month.Some? ==> 1 <= month.value <= 12
    requires format != "simple" && format != "full"
    ensures ListHolidays(year, month, category, format, f1) == ListHolidays(year, month, category, format, f2)
  {
  }

  /** The category filter ignores case: two requested categories with the same lower-case form
      classify every record alike. */
  lemma CategoryIgnoresCase(rec: Json, month: Option<int>, c1: string, c2: string)
    requires Text.Lower(c1) == Text.Lower(c2)
    ensures Classify(rec, month, Some(c1)) == Classify(rec, month, Some(c2))
  {
    assert c1 == "" <==> c2 == "" by {
      assert |Text.Lower(c1)| == |c1| && |Text.Lower(c2)| == |c2|;
    }
  }

  /** A record labelled "Public" and "Bank" is found by the category "public". */
  lemma PublicMatchesCapitalisedLabel(month: Option<int>)
    requires month.None?
    ensures var rec := JObj(map["start" := JStr("2024-04-13"), "end" := JStr("2024-04-14"),
                                "categories" := JArr([JStr("Public"), JStr("Bank")])]);
      Classify(rec, month, Some("public")) == Pass("2024-04-13")
  {
    var o := map["start" := JStr("2024-04-13"), "end" := JStr("2024-04-14"),
                 "categories" := JArr([JStr("Public"), JStr("Bank")])];
    assert ParseDate("2024-04-13") == Some(Date(2024, 4, 13));
    assert Text.Lower("Public") == "public";
    assert Text.Lower("public") == "public";
    var items := [JStr("Public"), JStr("Bank")];
    assert forall x :: x in items ==> x.JStr?;
    assert JStr("Public") in items;
    assert Text.Lower("public") in Labels(CategoriesOf(o)).value;
  }

  /** Only `start` is read as a date: a record whose `end` is not a date is still listed. */
  lemma UnreadableEndIsListed()
    ensures var rec := JObj(map["start" := JStr("2024-04-13"), "end" := JStr("soon")]);
      Classify(rec, None, None) == Pass("2024-04-13")
  {
    assert ParseDate("2024-04-13") == Some(Date(2024, 4, 13));
  }

  /** A record spelling its category key `catagories`, as the yearly files' converter writes it,
      never matches a category filter and is left out of the `full` listing, whose entry reads
      `categories` with `[]`. */
  lemma MisspelledCategoryKeyUnlisted(uid: Json, summary: Json, labels: seq<Json>)
    ensures var rec := JObj(map["start" := JStr("2024-04-13"), "end" := JStr("2024-04-14"),
                                "uid" := uid, "summary" := summary, "catagories" := JArr(labels)]);
      && Classify(rec, None, Some("public")) == Drop
      && Classify(rec, None, None) == Pass("2024-04-13")
      && FullEntries([rec], None, None) == Returned([])
  {
    var rec := JObj(map["start" := JStr("2024-04-13"), "end" := JStr("2024-04-14"),
                        "uid" := uid, "summary" := summary, "catagories" := JArr(labels)]);
    assert ParseDate("2024-04-13") == Some(Date(2024, 4, 13));
    assert CategoriesOf(rec.fields) == JArr([]);
    assert !Complete(rec.fields);
  }

  /** Two records sharing a start date give that date once in the `simple` listing. */
  lemma SharedStartListedOnce()
    ensures var rec := JObj(map["start" := JStr("2024-04-13"), "end" := JStr("2024-04-14")]);
      SimpleStarts([rec, rec], None, None, {}) == Returned(["2024-04-13"])
  {
    var rec := JObj(map["start" := JStr("2024-04-13"), "end" := JStr("2024-04-14")]);
    assert ParseDate("2024-04-13") == Some(Date(2024, 4, 13));
    assert Classify(rec, None, None) == Pass("2024-04-13");
    assert [rec, rec][1..] == [rec];
    var seen: set<string> := {} + {"2024-04-13"};
    assert "2024-04-13" in seen;
    assert SimpleStarts([rec], None, None, seen) == SimpleStarts([], None, None, seen) == Returned([]);
    assert SimpleStarts([rec, rec], None, None, {}) == Returned(["2024-04-13"] + []);
    assert ["2024-04-13"] + [] == ["2024-04-13"];
  }
}
