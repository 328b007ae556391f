/** Reading the date fields of one holiday record. */
module Records {
  import opened Wrappers
  import opened JsonValues
  import opened Dates

  /** What `strptime(record[k], "%Y-%m-%d")` meets: the key is absent (KeyError), the value
      is not a string (TypeError), the string is not a date (ValueError), or a date. */
  datatype DateField = Absent | NotText | Unparsed | Parsed(date: Date)

  function ReadDate(o: Object, k: string): (f: DateField)
    ensures f.Parsed? ==> Valid(f.date)
    ensures f.Absent? <==> k !in o
    ensures f.NotText? <==> k in o && !o[k].JStr?
    ensures k in o && o[k].JStr? ==>
      && (f.Parsed? <==> ParseDate(o[k].s).Some?)
      && (f.Parsed? ==> f.date == ParseDate(o[k].s).value)
  {
    if k !in o then Absent
    else match o[k]
      case JStr(s) => (match ParseDate(s) case Some(d) => Parsed(d) case None => Unparsed)
      case _ => NotText
  }

  /** A record both revisions read without trouble: an object whose `start` and `end` are
      date strings. */
  predicate WellDated(rec: Json) {
    rec.JObj? && ReadDate(rec.fields, "start").Parsed? && ReadDate(rec.fields, "end").Parsed?
  }
}
