/** The `{status, data, msg}` object both servers answer file requests with. */
module Envelopes {
  import opened Strings
  import opened JsonValues

  datatype Envelope = Envelope(status: string, data: string, msg: string) {
    /** The dictionary the servers build, keys in the order they write them. */
    function ToJson(): Json {
      JObject([("status", JString(status)), ("data", JString(data)), ("msg", JString(msg))])
    }
  }

  /** Reads an envelope back from a JSON object with three string fields. */
  function FromJson(j: Json): Option<Envelope> {
    match (Get(j, "status"), Get(j, "data"), Get(j, "msg"))
    case (Some(JString(s)), Some(JString(d)), Some(JString(m))) => Some(Envelope(s, d, m))
    case _ => None
  }

  /** An envelope turned into JSON reads back as itself: the object carries
      exactly the three fields. */
  lemma ToJsonRoundTrip(e: Envelope)
    ensures FromJson(e.ToJson()) == Some(e)
  {
    var m := e.ToJson().members;
    assert Lookup(m, "status") == Some(JString(e.status));
    assert Lookup(m[1..], "data") == Some(JString(e.data));
    assert Lookup(m, "data") == Some(JString(e.data));
    assert Lookup(m[1..][1..], "msg") == Some(JString(e.msg));
    assert Lookup(m, "msg") == Some(JString(e.msg));
  }

  /** The text both servers begin an error message with. */
  const ErrorPrefix := "there was an error retrieving "

  /** The error shape: status "error", no data, and a message that starts
      by naming the requested file. */
  predicate ReportsFailureOf(e: Envelope, filename: string) {
    e.status == "error" && e.data == "" && ErrorPrefix + filename <= e.msg
  }
}
