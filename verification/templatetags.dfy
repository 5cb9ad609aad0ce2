/** The `list_to_str` template filter: the items of a list (or of any
    iterable, taken in iteration order) rendered with `str` and joined
    with commas. Python's built-in `str` is a parameter of the model; the
    properties below only assume that it is the identity on strings. */
module TemplateTags {
  import opened Base
  import opened PyStr
  import opened Values

  /** `str(v)` leaves a string as it is. */
  ghost predicate StrKeepsStrings(str: Value -> string)
  {
    forall s :: str(Str(s)) == s
  }

  /** The rendered items, in order. */
  function Rendered(items: seq<Value>, str: Value -> string): (r: seq<string>)
    ensures |r| == |items|
    ensures forall i | 0 <= i < |items| :: r[i] == str(items[i])
  {
    seq(|items|, i requires 0 <= i < |items| => str(items[i]))
  }

  /** `list_to_str(value)`: a list is used as it is; anything else goes
      through `list(value)`, which is `TypeError` for a non-iterable. */
  function ListToStr(value: Value, str: Value -> string): (r: Result<string>)
    ensures r.Ok? <==> value.List? || value.Dict? || value.Str?
    ensures r.Err? ==> r.error == TypeError
    ensures value.List? ==> r == Ok(Join(Rendered(value.items, str), ','))
    ensures r.Ok? && |Iterate(value).value| == 0 ==> r.value == ""
    ensures r.Ok? && |Iterate(value).value| == 1 ==> r.value == str(Iterate(value).value[0])
  {
    var items := if value.List? then Ok(value.items) else Iterate(value);
    match items
    case Err(e) => Err(e)
    case Ok(xs) => Ok(Join(Rendered(xs, str), ','))
  }

  /** A list of strings renders as the strings joined by commas. */
  lemma ListToStrStrings(slugs: seq<string>, str: Value -> string)
    requires StrKeepsStrings(str)
    ensures ListToStr(List(seq(|slugs|, i requires 0 <= i < |slugs| => Str(slugs[i]))), str)
            == Ok(Join(slugs, ','))
  {
    var items := seq(|slugs|, i requires 0 <= i < |slugs| => Str(slugs[i]));
    assert Rendered(items, str) == slugs;
  }

  /** Splitting the output on `,` gives back the rendered items, when there
      is at least one and none of them contains a comma. */
  lemma ListToStrSplit(value: Value, str: Value -> string)
    requires ListToStr(value, str).Ok?
    requires |Iterate(value).value| >= 1
    requires forall i | 0 <= i < |Iterate(value).value| :: ',' !in str(Iterate(value).value[i])
    ensures Split(ListToStr(value, str).value, ',') == Rendered(Iterate(value).value, str)
  {
    SplitJoin(Rendered(Iterate(value).value, str), ',');
  }

  /** A string is iterated character by character. */
  lemma ListToStrOfString(s: string, str: Value -> string)
    requires StrKeepsStrings(str)
    ensures ListToStr(Str(s), str) == Ok(Join(seq(|s|, i requires 0 <= i < |s| => [s[i]]), ','))
  {
    var items := Iterate(Str(s)).value;
    assert Rendered(items, str) == seq(|s|, i requires 0 <= i < |s| => [s[i]]);
  }
}
