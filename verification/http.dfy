/** Status codes, the resolver's result triple and the `check_holiday` reshaping, which both
    revisions of the service share word for word. */
module Http {
  import opened Wrappers
  import opened JsonValues
  import opened Dates

  const StatusOk := 200
  const BadRequest := 400
  const Unauthorized := 401
  const NotFound := 404
  const InternalServerError := 500

  /** The triple `get_holiday_info` returns: the validated date (None when the date was
      rejected), a status code and a payload dict. */
  datatype Info = Info(date: Option<Date>, status: int, payload: Object)

  /** An HTTP answer: status code and JSON body. */
  datatype Response = Response(status: int, body: Object)

  function ErrorBody(message: string): Object {
    map["error" := JStr(message)]
  }

  /** A date as the framework serialises it. */
  function DateJson(d: Option<Date>): Json
    requires d.Some? ==> Valid(d.value)
  {
    match d
    case Some(v) => JStr(IsoFormat(v))
    case None => JNull
  }

  /** `check_holiday`: the status code is passed on; a non-200 payload is wrapped as the
      response without a date; otherwise the answer is the date and the truth of
      `result["is_holiday"]`, which raises a KeyError when the payload lacks the key. */
  function CheckResponse(info: Info): (r: Outcome<Response>)
    requires info.date.Some? ==> Valid(info.date.value)
    ensures r.Raised? <==> info.status == StatusOk && "is_holiday" !in info.payload
    ensures r.Raised? ==> r.error == KeyError
    ensures r.Returned? ==> r.value.status == info.status
    ensures r.Returned? && info.status != StatusOk ==>
      r.value.body.Keys == {"response"} && r.value.body["response"] == JObj(info.payload)
    ensures r.Returned? && info.status == StatusOk ==>
      && r.value.body.Keys == {"date", "response"}
      && r.value.body["date"] == DateJson(info.date)
      && r.value.body["response"] == JBool(Truthy(info.payload["is_holiday"]))
  {
    if info.status != StatusOk then Returned(Response(info.status, map["response" := JObj(info.payload)]))
    else if "is_holiday" !in info.payload then Raised(KeyError)
    else Returned(Response(info.status, map["date" := DateJson(info.date), "response" := JBool(Truthy(info.payload["is_holiday"]))]))
  }
}
