/** The values a JSON document (the configuration, a `/update` body, the
    `/data` reply) is made of, as `ujson` hands them to the firmware. */
module Json {
  import opened Wrappers

  datatype Value =
    | Null
    | Bool(b: bool)
    | Num(n: real)
    | Str(s: string)
    | Arr(items: seq<Value>)
    | Obj(fields: map<string, Value>)

  /** Python's numeric view of a value: numbers, and booleans (a `bool` is an
      `int` in Python, so `True * 3600 == 3600` and `30.0 < True` is legal).
      Anything else raises `TypeError` when used in arithmetic or `<`. */
  function AsNumber(v: Value): (r: Option<real>)
    ensures r.Some? <==> (v.Num? || v.Bool?)
    ensures v.Num? ==> r == Some(v.n)
  {
    match v
    case Num(n) => Some(n)
    case Bool(b) => Some(if b then 1.0 else 0.0)
    case _ => None
  }
}
