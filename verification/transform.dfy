/** The success envelope the transform interceptor wraps around every handler result. */
module Transform {
  import opened Results
  import opened Json

  const DefaultMessage: string := "Success"

  datatype Envelope = Envelope(statusCode: int, message: Value, data: Value)

  /** The `in` operator throws a `TypeError` when its right operand is a primitive. */
  datatype TypeError = InOperatorOnPrimitive

  /** Whether `'message' in data` holds for a truthy object or array (arrays have no such key). */
  predicate HasMessageKey(data: Value) {
    data.Obj? && "message" in data.fields
  }

  /** The `map` step of the interceptor: `{statusCode, message: 'Success', data}`, or,
      when the result carries a `message`, that message (if truthy) and the rest of the
      result as data. A truthy primitive result makes `'message' in data` throw. */
  function Intercept(statusCode: int, data: Value): (r: Result<Envelope, TypeError>)
    ensures r.Err? <==> Truthy(data) && !data.Obj? && !data.Arr?
    ensures r.Ok? ==> r.value.statusCode == statusCode
    ensures r.Ok? && !HasMessageKey(data) ==> r.value == Envelope(statusCode, Str(DefaultMessage), data)
    ensures HasMessageKey(data) ==>
      && r.Ok?
      && r.value.data == Obj(data.fields - {"message"})
      && r.value.message == if Truthy(data.fields["message"]) then data.fields["message"] else Str(DefaultMessage)
  {
    if !Truthy(data) then Ok(Envelope(statusCode, Str(DefaultMessage), data))
    else match data
      case Obj(fields) =>
        if "message" in fields then
          var overrideMessage := fields["message"];
          Ok(Envelope(statusCode,
                      if Truthy(overrideMessage) then overrideMessage else Str(DefaultMessage),
                      Obj(fields - {"message"})))
        else Ok(Envelope(statusCode, Str(DefaultMessage), data))
      case Arr(_) => Ok(Envelope(statusCode, Str(DefaultMessage), data))
      case _ => Err(InOperatorOnPrimitive)
  }

  /** The envelope loses nothing but the message: putting a truthy message back
      into the envelope's data rebuilds the handler's result. */
  lemma EnvelopeRebuildsResult(statusCode: int, fields: map<string, Value>)
    requires "message" in fields && Truthy(fields["message"])
    ensures var r := Intercept(statusCode, Obj(fields));
            r.Ok? && r.value.data.Obj? && Obj(r.value.data.fields["message" := r.value.message]) == Obj(fields)
  {
    var r := Intercept(statusCode, Obj(fields));
    assert r.value.data.fields["message" := r.value.message] == fields;
  }

  /** A bare acknowledgement `{message: m}` becomes the envelope message over empty data. */
  lemma AcknowledgementEnvelope(statusCode: int, m: string)
    requires m != ""
    ensures Intercept(statusCode, Obj(map["message" := Str(m)])) == Ok(Envelope(statusCode, Str(m), Obj(map[])))
  {
    assert map["message" := Str(m)] - {"message"} == map[];
  }

  /** An empty or falsy override message falls back to `Success`. */
  lemma FalsyMessageFallsBack(statusCode: int, fields: map<string, Value>)
    requires "message" in fields && !Truthy(fields["message"])
    ensures Intercept(statusCode, Obj(fields)).Ok?
    ensures Intercept(statusCode, Obj(fields)).value.message == Str(DefaultMessage)
  {
  }
}
