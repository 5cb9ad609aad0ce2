/** JSON-like value trees as the Python code sees them after `json.loads`
    and the datetime rewriting: scalars, strings, aware datetimes, lists
    and dicts. Dict keys are strings or, once rewritten, datetimes. */
module Values {
  import opened Base
  import opened Calendar
  import opened PyDict

  datatype Key = SKey(s: string) | DtKey(dt: DateTime)

  datatype Value =
    | Null
    | Bool(b: bool)
    | Int(i: int)
    | Str(s: string)
    | Dt(dt: DateTime)
    | List(items: seq<Value>)
    | Dict(entries: seq<(Key, Value)>)

  /** A dict key seen as a value (what `isinstance` tests look at). */
  function KeyValue(k: Key): Value
  {
    match k
    case SKey(s) => Str(s)
    case DtKey(dt) => Dt(dt)
  }

  /** Lists and dicts, the values a decoder walks into: `type(v) in (list, dict)`. */
  predicate IsContainer(v: Value)
  {
    v.List? || v.Dict?
  }

  /** `o[key]` with a string key: only a dict can be indexed by a string
      (`TypeError` otherwise), and a missing key raises `KeyError`. */
  function Subscript(o: Value, key: string): (r: Result<Value>)
    ensures r.Ok? <==> o.Dict? && HasKey(o.entries, SKey(key))
    ensures r.Ok? ==> Lookup(o.entries, SKey(key)) == Some(r.value)
    ensures r.Err? ==> r.error == (if o.Dict? then KeyError else TypeError)
  {
    if !o.Dict? then Err(TypeError)
    else
      LookupSomeIff(o.entries, SKey(key));
      match Lookup(o.entries, SKey(key))
      case None => Err(KeyError)
      case Some(v) => Ok(v)
  }

  /** `for x in o`: a list gives its items, a dict its keys, a string its
      characters; anything else is not iterable (`TypeError`). */
  function Iterate(o: Value): (r: Result<seq<Value>>)
    ensures r.Ok? <==> o.List? || o.Dict? || o.Str?
    ensures r.Err? ==> r.error == TypeError
    ensures o.List? ==> r == Ok(o.items)
    ensures o.Dict? ==> |r.value| == |o.entries|
    ensures o.Dict? ==> forall i | 0 <= i < |o.entries| :: r.value[i] == KeyValue(o.entries[i].0)
    ensures o.Str? ==> |r.value| == |o.s| && forall i | 0 <= i < |o.s| :: r.value[i] == Str([o.s[i]])
  {
    match o
    case List(xs) => Ok(xs)
    case Dict(es) => Ok(seq(|es|, i requires 0 <= i < |es| => KeyValue(es[i].0)))
    case Str(cs) => Ok(seq(|cs|, i requires 0 <= i < |cs| => Str([cs[i]])))
    case _ => Err(TypeError)
  }
}
