/** JavaScript values as the interceptors see them: request bodies and
    handler results. Numbers are integers; `undefined` is written `Null`. */
module Json {
  import opened Text

  datatype Value =
    | Null
    | Bool(b: bool)
    | Num(n: int)
    | Str(s: string)
    | Arr(items: seq<Value>)
    | Obj(fields: map<string, Value>)

  /** JavaScript truthiness: `null`, `false`, `0` and `''` are falsy; arrays and objects never are. */
  predicate Truthy(v: Value) {
    match v
    case Null => false
    case Bool(b) => b
    case Num(n) => n != 0
    case Str(s) => s != ""
    case Arr(_) => true
    case Obj(_) => true
  }

  /** Keys `"0"` … `"n-1"` paired with the first `n` items, as `Object.entries` lists an array. */
  function IndexEntries(items: seq<Value>, n: nat): (m: map<string, Value>)
    requires n <= |items|
    ensures forall i :: 0 <= i < n ==> Decimal(i) in m && m[Decimal(i)] == items[i]
    ensures forall k :: k in m ==> exists i :: 0 <= i < n && k == Decimal(i)
  {
    if n == 0 then map[] else
      var m := IndexEntries(items, n - 1)[Decimal(n - 1) := items[n - 1]];
      assert forall i :: 0 <= i < n - 1 ==> Decimal(i) != Decimal(n - 1) by {
        forall i | 0 <= i < n - 1
          ensures Decimal(i) != Decimal(n - 1)
        {
          DecimalRoundTrip(i);
          DecimalRoundTrip(n - 1);
        }
      }
      m
  }

  /** The own enumerable entries `Object.entries(v)` would list, as a key-to-value map:
      an object's fields, an array's or a string's indexed elements, nothing for a number or boolean. */
  function Entries(v: Value): map<string, Value>
  {
    match v
    case Obj(m) => m
    case Arr(items) => IndexEntries(items, |items|)
    case Str(s) =>
      var chars := seq(|s|, i requires 0 <= i < |s| => Str([s[i]]));
      IndexEntries(chars, |chars|)
    case _ => map[]
  }
}
