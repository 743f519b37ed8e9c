/** The redaction the logging interceptor applies to a request body before logging it. */
module Logging {
  import opened Text
  import opened Json

  const Redacted: string := "[REDACTED]"

  predicate Sensitive(key: string) { key == "password" || key == "otp" }

  /** Every entry kept under its key, with the value of `password` and `otp` replaced. */
  function Redact(entries: map<string, Value>): (r: map<string, Value>)
    ensures r.Keys == entries.Keys
    ensures forall k :: k in r ==> r[k] == if Sensitive(k) then Str(Redacted) else entries[k]
  {
    map k | k in entries :: if Sensitive(k) then Str(Redacted) else entries[k]
  }

  /** `hideSensitive(data)`: a falsy body logs as `{}`; otherwise every entry is
      kept under its key, with the value of `password` and `otp` replaced. */
  function HideSensitive(body: Value): (r: map<string, Value>)
    ensures !Truthy(body) ==> r == map[]
    ensures Truthy(body) ==> r.Keys == Entries(body).Keys
    ensures forall k :: k in r ==> r[k] == if Sensitive(k) then Str(Redacted) else Entries(body)[k]
  {
    if !Truthy(body) then map[] else Redact(Entries(body))
  }

  lemma RedactIdempotent(entries: map<string, Value>)
    ensures Redact(Redact(entries)) == Redact(entries)
  {
    var once := Redact(entries);
    var twice := Redact(once);
    assert twice.Keys == once.Keys;
    forall k | k in once
      ensures twice[k] == once[k]
    {
    }
  }

  /** An object body keeps exactly its keys; only `password` and `otp` change. */
  lemma HideSensitiveObject(fields: map<string, Value>)
    ensures HideSensitive(Obj(fields)).Keys == fields.Keys
    ensures forall k :: k in fields && !Sensitive(k) ==> HideSensitive(Obj(fields))[k] == fields[k]
    ensures forall k :: k in fields && Sensitive(k) ==> HideSensitive(Obj(fields))[k] == Str(Redacted)
  {
  }

  /** Redacting an already redacted body changes nothing. */
  lemma HideSensitiveIdempotent(body: Value)
    ensures HideSensitive(Obj(HideSensitive(body))) == HideSensitive(body)
  {
    var r := HideSensitive(body);
    assert HideSensitive(Obj(r)) == Redact(r);
    if Truthy(body) {
      assert r == Redact(Entries(body));
      RedactIdempotent(Entries(body));
    } else {
      assert Redact(map[]) == map[];
    }
  }

  /** An array body is logged under its indices, none of which is sensitive, so nothing is redacted. */
  lemma HideSensitiveArray(items: seq<Value>)
    ensures forall i :: 0 <= i < |items| ==> HideSensitive(Arr(items))[Decimal(i)] == items[i]
  {
    forall i | 0 <= i < |items|
      ensures !Sensitive(Decimal(i))
    {
      var d := Decimal(i);
      assert d[0] != 'p' && d[0] != 'o';
    }
  }
}
