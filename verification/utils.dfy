/** `iter_parse_datetimes` of `ghstats/utils.py`: the walk over a decoded
    JSON tree that replaces every date-looking string below the root by the
    datetime it spells. Lists and dicts are rewritten in place in Python;
    here the rewritten tree is returned, and the `ValueError` that
    `parse_dt` raises on a date-looking string it cannot read becomes `Err`. */
module Utils {
  import opened Base
  import opened Values
  import opened DtFormat

  // ---------------------------------------------------------------------
  // What the walk leaves behind and what makes it fail

  /** No date-looking string is left among the children, at any depth. */
  predicate Clean(o: Value)
    decreases o, 0
  {
    match o
    case List(items) => forall i | 0 <= i < |items| :: CleanChild(items[i])
    case Dict(entries) => forall i | 0 <= i < |entries| :: CleanChild(entries[i].1)
    case _ => true
  }

  predicate CleanChild(c: Value)
    decreases c, 1
  {
    if IsContainer(c) then Clean(c) else !IsDtStr(c)
  }

  /** Some child, at any depth, passes `is_dt_str` but not `parse_dt`. */
  predicate HasBad(o: Value)
    decreases o, 0
  {
    match o
    case List(items) => exists i | 0 <= i < |items| :: BadChild(items[i])
    case Dict(entries) => exists i | 0 <= i < |entries| :: BadChild(entries[i].1)
    case _ => false
  }

  predicate BadChild(c: Value)
    decreases c, 1
  {
    if IsContainer(c) then HasBad(c) else IsDtStr(c) && ParseDt(c.s).None?
  }

  // ---------------------------------------------------------------------
  // iter_parse_datetimes

  /** `iter_parse_datetimes(o)`: a list keeps its length, a dict its keys in
      their order, anything else comes back as it is; what comes back holds
      no date-looking string below the root. */
  function IterParse(o: Value): (r: Result<Value>)
    decreases o, 2
    ensures !IsContainer(o) ==> r == Ok(o)
    ensures r.Err? ==> r.error == ValueError
    ensures r.Ok? ==> Clean(r.value)
    ensures r.Ok? && o.List? ==> r.value.List? && |r.value.items| == |o.items|
    ensures r.Ok? && o.Dict? ==> r.value.Dict? && |r.value.entries| == |o.entries|
    ensures r.Ok? && o.Dict? ==>
      forall j | 0 <= j < |o.entries| :: r.value.entries[j].0 == o.entries[j].0
  {
    match o
    case List(_) =>
      var xs :- ParseItems(o, 0);
      Ok(List(xs))
    case Dict(_) =>
      var es :- ParseEntries(o, 0);
      Ok(Dict(es))
    case _ => Ok(o)
  }

  /** One iteration of the loop body: recurse into a list or dict, parse a
      date-looking string, keep anything else. */
  function ParseChild(c: Value): (r: Result<Value>)
    decreases c, 3
    ensures r.Err? ==> r.error == ValueError
    ensures r.Ok? ==> CleanChild(r.value) && IsContainer(r.value) == IsContainer(c)
  {
    if IsContainer(c) then IterParse(c)
    else if IsDtStr(c) then
      match ParseDt(c.s)
      case None => Err(ValueError)
      case Some(dt) => Ok(Dt(dt))
    else Ok(c)
  }

  /** The loop over `enumerate(o)` from position `i` on. */
  function ParseItems(o: Value, i: nat): (r: Result<seq<Value>>)
    requires o.List? && i <= |o.items|
    decreases o, 1, |o.items| - i
    ensures r.Err? ==> r.error == ValueError
    ensures r.Ok? ==> |r.value| == |o.items| - i
    ensures r.Ok? ==> forall j | 0 <= j < |r.value| :: CleanChild(r.value[j])
    ensures r.Ok? ==> forall j | 0 <= j < |r.value| :: ParseChild(o.items[i + j]) == Ok(r.value[j])
  {
    if i == |o.items| then Ok([])
    else
      var head :- ParseChild(o.items[i]);
      var tail :- ParseItems(o, i + 1);
      Ok([head] + tail)
  }

  /** The loop over `o.items()` from position `i` on; keys are never touched. */
  function ParseEntries(o: Value, i: nat): (r: Result<seq<(Key, Value)>>)
    requires o.Dict? && i <= |o.entries|
    decreases o, 1, |o.entries| - i
    ensures r.Err? ==> r.error == ValueError
    ensures r.Ok? ==> |r.value| == |o.entries| - i
    ensures r.Ok? ==> forall j | 0 <= j < |r.value| :: r.value[j].0 == o.entries[i + j].0
    ensures r.Ok? ==> forall j | 0 <= j < |r.value| :: CleanChild(r.value[j].1)
    ensures r.Ok? ==> forall j | 0 <= j < |r.value| :: ParseChild(o.entries[i + j].1) == Ok(r.value[j].1)
  {
    if i == |o.entries| then Ok([])
    else
      var head :- ParseChild(o.entries[i].1);
      var tail :- ParseEntries(o, i + 1);
      Ok([(o.entries[i].0, head)] + tail)
  }

  // ---------------------------------------------------------------------
  // Failure

  /** The walk fails exactly when some date-looking string below the root
      cannot be parsed. */
  lemma {:induction false} IterParseErrIff(o: Value)
    decreases o, 2
    ensures IterParse(o).Err? <==> HasBad(o)
  {
    match o
    case List(items) =>
      ParseItemsErrIff(o, 0);
    case Dict(entries) =>
      ParseEntriesErrIff(o, 0);
    case _ =>
  }

  lemma {:induction false} ParseChildErrIff(c: Value)
    decreases c, 3
    ensures ParseChild(c).Err? <==> BadChild(c)
  {
    if IsContainer(c) {
      IterParseErrIff(c);
    }
  }

  lemma {:induction false} ParseItemsErrIff(o: Value, i: nat)
    requires o.List? && i <= |o.items|
    decreases o, 1, |o.items| - i
    ensures ParseItems(o, i).Err? <==> exists j | i <= j < |o.items| :: BadChild(o.items[j])
  {
    if i < |o.items| {
      ParseChildErrIff(o.items[i]);
      ParseItemsErrIff(o, i + 1);
      assert ParseItems(o, i).Err? <==> ParseChild(o.items[i]).Err? || ParseItems(o, i + 1).Err?;
    }
  }

  lemma {:induction false} ParseEntriesErrIff(o: Value, i: nat)
    requires o.Dict? && i <= |o.entries|
    decreases o, 1, |o.entries| - i
    ensures ParseEntries(o, i).Err? <==> exists j | i <= j < |o.entries| :: BadChild(o.entries[j].1)
  {
    if i < |o.entries| {
      ParseChildErrIff(o.entries[i].1);
      ParseEntriesErrIff(o, i + 1);
      assert ParseEntries(o, i).Err? <==> ParseChild(o.entries[i].1).Err? || ParseEntries(o, i + 1).Err?;
    }
  }

  // ---------------------------------------------------------------------
  // What each child becomes

  /** What the loop body makes of one child: a date-looking string becomes
      the datetime it spells, any other leaf stays, a list or dict is walked. */
  lemma ChildOutcome(c: Value, r: Value)
    requires ParseChild(c) == Ok(r)
    ensures IsContainer(c) ==> IterParse(c) == Ok(r)
    ensures !IsContainer(c) && IsDtStr(c) ==> ParseDt(c.s).Some? && r == Dt(ParseDt(c.s).value)
    ensures !IsContainer(c) && !IsDtStr(c) ==> r == c
  {
  }

  /** In a list, exactly the date-looking leaves are replaced and every
      nested container is walked in turn. */
  lemma IterParseListChild(o: Value, j: nat)
    requires o.List? && j < |o.items| && IterParse(o).Ok?
    ensures ParseChild(o.items[j]) == Ok(IterParse(o).value.items[j])
    ensures var c, r := o.items[j], IterParse(o).value.items[j];
      && (IsContainer(c) ==> IterParse(c) == Ok(r))
      && (!IsContainer(c) && IsDtStr(c) ==> ParseDt(c.s).Some? && r == Dt(ParseDt(c.s).value))
      && (!IsContainer(c) && !IsDtStr(c) ==> r == c)
  {
    assert ParseItems(o, 0).Ok? && IterParse(o).value.items == ParseItems(o, 0).value;
    ChildOutcome(o.items[j], IterParse(o).value.items[j]);
  }

  /** In a dict, keys stay, exactly the date-looking values are replaced and
      every nested container is walked in turn. */
  lemma IterParseDictChild(o: Value, j: nat)
    requires o.Dict? && j < |o.entries| && IterParse(o).Ok?
    ensures IterParse(o).value.entries[j].0 == o.entries[j].0
    ensures ParseChild(o.entries[j].1) == Ok(IterParse(o).value.entries[j].1)
    ensures var c, r := o.entries[j].1, IterParse(o).value.entries[j].1;
      && (IsContainer(c) ==> IterParse(c) == Ok(r))
      && (!IsContainer(c) && IsDtStr(c) ==> ParseDt(c.s).Some? && r == Dt(ParseDt(c.s).value))
      && (!IsContainer(c) && !IsDtStr(c) ==> r == c)
  {
    ChildOutcome(o.entries[j].1, IterParse(o).value.entries[j].1);
  }

  // ---------------------------------------------------------------------
  // Idempotence

  /** A tree with nothing date-looking below the root is left as it is. */
  lemma {:induction false} CleanFixed(o: Value)
    requires Clean(o)
    decreases o, 2
    ensures IterParse(o) == Ok(o)
  {
    match o
    case List(items) =>
      ParseItemsFixed(o, 0);
      assert items[0..] == items;
    case Dict(entries) =>
      ParseEntriesFixed(o, 0);
      assert entries[0..] == entries;
    case _ =>
  }

  lemma {:induction false} ParseChildFixed(c: Value)
    requires CleanChild(c)
    decreases c, 3
    ensures ParseChild(c) == Ok(c)
  {
    if IsContainer(c) {
      CleanFixed(c);
    }
  }

  lemma {:induction false} ParseItemsFixed(o: Value, i: nat)
    requires o.List? && i <= |o.items| && Clean(o)
    decreases o, 1, |o.items| - i
    ensures ParseItems(o, i) == Ok(o.items[i..])
  {
    if i < |o.items| {
      assert CleanChild(o.items[i]);
      ParseChildFixed(o.items[i]);
      ParseItemsFixed(o, i + 1);
      assert o.items[i..] == [o.items[i]] + o.items[i + 1..];
    } else {
      assert o.items[i..] == [];
    }
  }

  lemma {:induction false} ParseEntriesFixed(o: Value, i: nat)
    requires o.Dict? && i <= |o.entries| && Clean(o)
    decreases o, 1, |o.entries| - i
    ensures ParseEntries(o, i) == Ok(o.entries[i..])
  {
    if i < |o.entries| {
      assert CleanChild(o.entries[i].1);
      ParseChildFixed(o.entries[i].1);
      ParseEntriesFixed(o, i + 1);
      assert o.entries[i..] == [o.entries[i]] + o.entries[i + 1..];
    } else {
      assert o.entries[i..] == [];
    }
  }

  /** Walking a walked tree changes nothing more. */
  lemma IterParseIdempotent(o: Value)
    requires IterParse(o).Ok?
    ensures IterParse(IterParse(o).value) == IterParse(o)
  {
    CleanFixed(IterParse(o).value);
  }
}
