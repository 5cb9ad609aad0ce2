/** `clean_dict_dt_keys` and the `JsonHandler` of `ghstats/utils.py`: the
    JSON encoding of datetimes as `{"__class__": "datetime.datetime",
    "value": <text>}` objects and of datetime dict keys as their text, and the
    decoding hook that undoes both. Dicts are association lists; the
    in-place mutations of the Python code return the mutated dict here. */
module JsonHandler {
  import opened Base
  import opened Calendar
  import opened Values
  import opened PyDict
  import opened DtFormat

  // ---------------------------------------------------------------------
  // clean_dict_dt_keys

  /** The keys of a dict that are datetimes, in key order:
      `[key for key in d.keys() if isinstance(key, datetime.datetime)]`. */
  function DtKeysOf(d: Dict<Key, Value>): (ks: seq<DateTime>)
    ensures forall t :: t in ks <==> HasKey(d, DtKey(t))
  {
    if |d| == 0 then []
    else
      var rest := DtKeysOf(d[1..]);
      assert forall t :: HasKey(d, DtKey(t)) <==> d[0].0 == DtKey(t) || HasKey(d[1..], DtKey(t)) by {
        forall t { HasKeyTail(d, DtKey(t)); }
      }
      if d[0].0.DtKey? then [d[0].0.dt] + rest else rest
  }

  lemma {:induction false} DtKeysDistinct(d: Dict<Key, Value>)
    requires UniqueKeys(d)
    ensures Distinct(DtKeysOf(d))
  {
    if |d| > 0 {
      DtKeysDistinct(d[1..]);
    }
  }

  /** The loop body for each datetime key `t`, in order:
      `d[render(t)] = d[t]; del d[t]`. The rendering is a parameter so that
      the facts about moving keys hold for any injective rendering;
      `clean_dict_dt_keys` uses `dt_to_str`. */
  function RenameMoves(ks: seq<DateTime>, render: DateTime -> string): (moves: seq<(Key, Key)>)
    ensures |moves| == |ks|
    ensures forall j | 0 <= j < |ks| :: moves[j] == (DtKey(ks[j]), SKey(render(ks[j])))
  {
    seq(|ks|, j requires 0 <= j < |ks| => (DtKey(ks[j]), SKey(render(ks[j]))))
  }

  /** The loop over every datetime key of `d`. */
  function Rename(d: Dict<Key, Value>, render: DateTime -> string): Dict<Key, Value>
  {
    MoveAll(d, RenameMoves(DtKeysOf(d), render))
  }

  /** No two datetimes render alike. */
  ghost predicate Injective(render: DateTime -> string)
  {
    forall a, b :: render(a) == render(b) ==> a == b
  }

  /** `s` is the rendering of one of the datetime keys of `d`. */
  ghost predicate IsRenderedKey(d: Dict<Key, Value>, s: string, render: DateTime -> string)
  {
    exists t :: HasKey(d, DtKey(t)) && s == render(t)
  }

  /** The renaming moves of a dict are valid, and no two share a target. */
  lemma RenameMovesValid(d: Dict<Key, Value>, render: DateTime -> string)
    requires UniqueKeys(d)
    ensures ValidMoves(d, RenameMoves(DtKeysOf(d), render))
    ensures Injective(render) ==>
      forall j | 0 <= j < |DtKeysOf(d)| :: LastTarget(RenameMoves(DtKeysOf(d), render), j)
  {
    var ks := DtKeysOf(d);
    var moves := RenameMoves(ks, render);
    DtKeysDistinct(d);
    forall j | 0 <= j < |ks|
      ensures HasKey(d, moves[j].0)
    {
      assert ks[j] in ks;
    }
  }

  /** A datetime key is moved exactly when the dict holds it. */
  lemma RenameMovedDt(d: Dict<Key, Value>, t: DateTime, render: DateTime -> string)
    ensures Moved(RenameMoves(DtKeysOf(d), render), DtKey(t)) <==> HasKey(d, DtKey(t))
  {
    var ks := DtKeysOf(d);
    var moves := RenameMoves(ks, render);
    if Moved(moves, DtKey(t)) {
      var j :| 0 <= j < |moves| && (DtKey(t) == moves[j].0 || DtKey(t) == moves[j].1);
      assert ks[j] == t;
      assert t in ks;
    }
    if HasKey(d, DtKey(t)) {
      assert t in ks;
      var j :| 0 <= j < |ks| && ks[j] == t;
      assert moves[j].0 == DtKey(t);
    }
  }

  /** A string key is moved onto exactly when it renders a datetime key. */
  lemma RenameMovedStr(d: Dict<Key, Value>, s: string, render: DateTime -> string)
    ensures Moved(RenameMoves(DtKeysOf(d), render), SKey(s)) <==> IsRenderedKey(d, s, render)
  {
    var ks := DtKeysOf(d);
    var moves := RenameMoves(ks, render);
    if Moved(moves, SKey(s)) {
      var j :| 0 <= j < |moves| && (SKey(s) == moves[j].0 || SKey(s) == moves[j].1);
      assert ks[j] in ks;
      assert HasKey(d, DtKey(ks[j])) && s == render(ks[j]);
    }
    if IsRenderedKey(d, s, render) {
      var t :| HasKey(d, DtKey(t)) && s == render(t);
      assert t in ks;
      var j :| 0 <= j < |ks| && ks[j] == t;
      assert moves[j].1 == SKey(s);
    }
  }

  /** Each datetime key's value ends up under its rendering. */
  lemma RenameTargets(d: Dict<Key, Value>, render: DateTime -> string)
    requires UniqueKeys(d) && Injective(render)
    ensures forall t | HasKey(d, DtKey(t)) :: Lookup(Rename(d, render), SKey(render(t))) == Lookup(d, DtKey(t))
  {
    var ks := DtKeysOf(d);
    var moves := RenameMoves(ks, render);
    RenameMovesValid(d, render);
    MoveAllTargets(d, moves);
    forall t | HasKey(d, DtKey(t))
      ensures Lookup(Rename(d, render), SKey(render(t))) == Lookup(d, DtKey(t))
    {
      assert t in ks;
      var j :| 0 <= j < |ks| && ks[j] == t;
      assert moves[j] == (DtKey(t), SKey(render(t)));
    }
  }

  /** No datetime key is left. */
  lemma RenameDtGone(d: Dict<Key, Value>, t: DateTime, render: DateTime -> string)
    requires UniqueKeys(d)
    ensures Lookup(Rename(d, render), DtKey(t)) == None
  {
    var ks := DtKeysOf(d);
    var moves := RenameMoves(ks, render);
    RenameMovesValid(d, render);
    if t in ks {
      var j :| 0 <= j < |ks| && ks[j] == t;
      MoveAllSources(d, moves);
      assert moves[j].0 == DtKey(t);
    } else {
      MoveAllFrame(d, moves);
      RenameMovedDt(d, t, render);
      LookupSomeIff(d, DtKey(t));
    }
  }

  /** Keys stay unique and are all strings afterwards. */
  lemma RenameNoDtKey(d: Dict<Key, Value>, render: DateTime -> string)
    requires UniqueKeys(d)
    ensures UniqueKeys(Rename(d, render))
    ensures forall i | 0 <= i < |Rename(d, render)| :: Rename(d, render)[i].0.SKey?
  {
    var r := Rename(d, render);
    RenameMovesValid(d, render);
    MoveAllFrame(d, RenameMoves(DtKeysOf(d), render));
    forall i | 0 <= i < |r|
      ensures r[i].0.SKey?
    {
      LookupAt(r, i);
      if r[i].0.DtKey? {
        RenameDtGone(d, r[i].0.dt, render);
      }
    }
  }

  /** A string key that renders no datetime key keeps its value, and the
      string keys afterwards are the old ones and the renderings. */
  lemma RenameOtherStr(d: Dict<Key, Value>, render: DateTime -> string)
    requires UniqueKeys(d)
    ensures forall s | !IsRenderedKey(d, s, render) :: Lookup(Rename(d, render), SKey(s)) == Lookup(d, SKey(s))
  {
    var moves := RenameMoves(DtKeysOf(d), render);
    RenameMovesValid(d, render);
    MoveAllFrame(d, moves);
    forall s | !IsRenderedKey(d, s, render)
      ensures Lookup(Rename(d, render), SKey(s)) == Lookup(d, SKey(s))
    {
      RenameMovedStr(d, s, render);
    }
  }

  lemma RenameHasStr(d: Dict<Key, Value>, render: DateTime -> string)
    requires UniqueKeys(d) && Injective(render)
    ensures forall s :: HasKey(Rename(d, render), SKey(s)) <==> HasKey(d, SKey(s)) || IsRenderedKey(d, s, render)
  {
    var r := Rename(d, render);
    RenameTargets(d, render);
    RenameOtherStr(d, render);
    forall s
      ensures HasKey(r, SKey(s)) <==> HasKey(d, SKey(s)) || IsRenderedKey(d, s, render)
    {
      LookupSomeIff(r, SKey(s));
      LookupSomeIff(d, SKey(s));
      if IsRenderedKey(d, s, render) {
        var t :| HasKey(d, DtKey(t)) && s == render(t);
        LookupSomeIff(d, DtKey(t));
      }
    }
  }

  /** `dt_to_str` is injective. */
  lemma DtToStrIsInjective()
    ensures Injective(DtToStr)
  {
    forall a, b | DtToStr(a) == DtToStr(b)
      ensures a == b
    {
      DtToStrInjective(a, b);
    }
  }

  /** `clean_dict_dt_keys(d)`: afterwards no key is a datetime. */
  function CleanDictDtKeys(d: Dict<Key, Value>): (r: Dict<Key, Value>)
    requires UniqueKeys(d)
    ensures UniqueKeys(r)
    ensures forall i | 0 <= i < |r| :: r[i].0.SKey?
  {
    RenameNoDtKey(d, DtToStr);
    Rename(d, DtToStr)
  }

  /** Each datetime key's value now sits under the key's text, no datetime
      key is left, and every other string key keeps its value unless a
      datetime's text lands on it. */
  lemma CleanDictDtKeysSpec(d: Dict<Key, Value>)
    requires UniqueKeys(d)
    ensures forall t | HasKey(d, DtKey(t)) ::
      Lookup(CleanDictDtKeys(d), SKey(DtToStr(t))) == Lookup(d, DtKey(t))
    ensures forall t :: Lookup(CleanDictDtKeys(d), DtKey(t)) == None
    ensures forall s | !IsRenderedKey(d, s, DtToStr) ::
      Lookup(CleanDictDtKeys(d), SKey(s)) == Lookup(d, SKey(s))
    ensures forall s :: HasKey(CleanDictDtKeys(d), SKey(s)) <==> HasKey(d, SKey(s)) || IsRenderedKey(d, s, DtToStr)
  {
    DtToStrIsInjective();
    RenameTargets(d, DtToStr);
    forall t
      ensures Lookup(CleanDictDtKeys(d), DtKey(t)) == None
    {
      RenameDtGone(d, t, DtToStr);
    }
    RenameOtherStr(d, DtToStr);
    RenameHasStr(d, DtToStr);
  }

  // ---------------------------------------------------------------------
  // JsonHandler.encode

  const ClassKey := "__class__"
  const DtClassName := "datetime.datetime"
  const ValueKey := "value"

  /** The object an encoded datetime becomes. */
  function DtObject(dt: DateTime): Dict<Key, Value>
  {
    [(SKey(ClassKey), Str(DtClassName)), (SKey(ValueKey), Str(DtToStr(dt)))]
  }

  /** What `encode(o)` leaves behind: `arg` is `o` after the call (a dict has
      its datetime keys renamed in place), `out` is the return value. */
  datatype Encoded = Encoded(arg: Value, out: Option<Value>)

  /** `JsonHandler.encode(o)`: a datetime becomes its object, a dict gets its
      keys cleaned and `None` is returned, anything else gives `None`. */
  function Encode(o: Value): (r: Encoded)
    requires o.Dict? ==> UniqueKeys(o.entries)
    ensures r.out.Some? <==> o.Dt?
    ensures !o.Dict? ==> r.arg == o
    ensures o.Dict? ==> r.arg.Dict? && forall i | 0 <= i < |r.arg.entries| :: r.arg.entries[i].0.SKey?
  {
    match o
    case Dict(entries) => Encoded(Dict(CleanDictDtKeys(entries)), None)
    case Dt(dt) => Encoded(o, Some(Dict(DtObject(dt))))
    case _ => Encoded(o, None)
  }

  // ---------------------------------------------------------------------
  // JsonHandler.decode

  /** The string keys of a dict that look like datetimes, in key order:
      `[key for key in d.keys() if is_dt_str(key)]`. */
  function DtStrKeysOf(d: Dict<Key, Value>): (ks: seq<string>)
    ensures forall s :: s in ks <==> HasKey(d, SKey(s)) && IsDtStr(Str(s))
  {
    if |d| == 0 then []
    else
      var rest := DtStrKeysOf(d[1..]);
      assert forall s :: HasKey(d, SKey(s)) <==> d[0].0 == SKey(s) || HasKey(d[1..], SKey(s)) by {
        forall s { HasKeyTail(d, SKey(s)); }
      }
      if IsDtStr(KeyValue(d[0].0)) then [d[0].0.s] + rest else rest
  }

  lemma {:induction false} DtStrKeysDistinct(d: Dict<Key, Value>)
    requires UniqueKeys(d)
    ensures Distinct(DtStrKeysOf(d))
  {
    if |d| > 0 {
      DtStrKeysDistinct(d[1..]);
    }
  }

  /** The decoding loop for the text keys `ks`, in order:
      `d[parse_dt(s)] = d[s]; del d[s]`, so a later text of the same instant
      wins. `parse_dt` failing raises `ValueError`. */
  function ParseDtKeys(d: Dict<Key, Value>, ks: seq<string>): (r: Result<Dict<Key, Value>>)
    decreases |ks|
    ensures r.Err? ==> r.error == ValueError
  {
    if |ks| == 0 then Ok(d)
    else
      match ParseDt(ks[0])
      case None => Err(ValueError)
      case Some(t) => ParseDtKeys(Move(d, SKey(ks[0]), DtKey(t)), ks[1..])
  }

  /** Every text parsed, or `None` if one of them does not parse. */
  function ParseAll(ks: seq<string>): (r: Option<seq<DateTime>>)
    ensures r.Some? ==> |r.value| == |ks| && forall j | 0 <= j < |ks| :: ParseDt(ks[j]) == Some(r.value[j])
    ensures r.None? ==> exists j | 0 <= j < |ks| :: ParseDt(ks[j]).None?
  {
    if |ks| == 0 then Some([])
    else
      var t :- ParseDt(ks[0]);
      var ts :- ParseAll(ks[1..]);
      assert forall j | 0 < j < |ks| :: ks[j] == ks[1..][j - 1];
      Some([t] + ts)
  }

  /** The moves the decoding loop makes: each text key onto its instant. */
  function DecodeMoves(ks: seq<string>, ts: seq<DateTime>): (moves: seq<(Key, Key)>)
    requires |ts| == |ks|
    ensures |moves| == |ks|
    ensures forall j | 0 <= j < |ks| :: moves[j] == (SKey(ks[j]), DtKey(ts[j]))
  {
    seq(|ks|, j requires 0 <= j < |ks| => (SKey(ks[j]), DtKey(ts[j])))
  }

  /** The decoding loop fails exactly when some text does not parse, and
      otherwise makes the moves `DecodeMoves` lists. */
  lemma {:induction false} ParseDtKeysAsMoves(d: Dict<Key, Value>, ks: seq<string>)
    decreases |ks|
    ensures ParseDtKeys(d, ks).Err? <==> ParseAll(ks).None?
    ensures ParseAll(ks).Some? ==>
      ParseDtKeys(d, ks) == Ok(MoveAll(d, DecodeMoves(ks, ParseAll(ks).value)))
  {
    if |ks| > 0 {
      match ParseDt(ks[0])
      case None =>
      case Some(t) =>
        var d1 := Move(d, SKey(ks[0]), DtKey(t));
        ParseDtKeysAsMoves(d1, ks[1..]);
        if ParseAll(ks).Some? {
          var ts := ParseAll(ks).value;
          assert ts == [t] + ParseAll(ks[1..]).value;
          var moves := DecodeMoves(ks, ts);
          assert moves[1..] == DecodeMoves(ks[1..], ts[1..]);
        }
    }
  }

  /** `ks[j]` parses, and no later key parses to the same instant. */
  predicate LastOfInstant(ks: seq<string>, j: int)
    requires 0 <= j < |ks|
  {
    ParseDt(ks[j]).Some? && forall j' | j < j' < |ks| :: ParseDt(ks[j']) != ParseDt(ks[j])
  }

  /** `k` is one of the text keys `ks` or the instant one of them parses to. */
  predicate TouchedBy(ks: seq<string>, k: Key)
  {
    exists j | 0 <= j < |ks| :: k == SKey(ks[j]) || (ParseDt(ks[j]).Some? && k == DtKey(ParseDt(ks[j]).value))
  }

  /** The decoding moves are valid on a dict holding every text key. */
  lemma DecodeMovesValid(d: Dict<Key, Value>, ks: seq<string>, ts: seq<DateTime>)
    requires UniqueKeys(d) && Distinct(ks) && |ts| == |ks|
    requires forall j | 0 <= j < |ks| :: HasKey(d, SKey(ks[j]))
    ensures ValidMoves(d, DecodeMoves(ks, ts))
  {
    var moves := DecodeMoves(ks, ts);
    forall i, j | 0 <= i < j < |moves|
      ensures moves[i].0 != moves[j].0
    {
      assert ks[i] != ks[j];
    }
  }

  /** A move's target is last exactly where its text is last of its instant. */
  lemma DecodeMovesLast(ks: seq<string>, j: int)
    requires ParseAll(ks).Some? && 0 <= j < |ks|
    ensures LastTarget(DecodeMoves(ks, ParseAll(ks).value), j) <==> LastOfInstant(ks, j)
  {
    var ts := ParseAll(ks).value;
    var moves := DecodeMoves(ks, ts);
    assert forall j' | 0 <= j' < |ks| :: moves[j'].1 == DtKey(ts[j']) && ParseDt(ks[j']) == Some(ts[j']);
  }

  /** The moves mention exactly the keys the texts touch. */
  lemma DecodeMovesMoved(ks: seq<string>, k: Key)
    requires ParseAll(ks).Some?
    ensures Moved(DecodeMoves(ks, ParseAll(ks).value), k) <==> TouchedBy(ks, k)
  {
    if Moved(DecodeMoves(ks, ParseAll(ks).value), k) {
      MovedIsTouched(ks, k);
    }
    if TouchedBy(ks, k) {
      TouchedIsMoved(ks, k);
    }
  }

  lemma MovedIsTouched(ks: seq<string>, k: Key)
    requires ParseAll(ks).Some? && Moved(DecodeMoves(ks, ParseAll(ks).value), k)
    ensures TouchedBy(ks, k)
  {
    var ts := ParseAll(ks).value;
    var moves := DecodeMoves(ks, ts);
    var j :| 0 <= j < |moves| && (k == moves[j].0 || k == moves[j].1);
    assert ParseDt(ks[j]) == Some(ts[j]);
  }

  lemma TouchedIsMoved(ks: seq<string>, k: Key)
    requires ParseAll(ks).Some? && TouchedBy(ks, k)
    ensures Moved(DecodeMoves(ks, ParseAll(ks).value), k)
  {
    var ts := ParseAll(ks).value;
    var moves := DecodeMoves(ks, ts);
    var j :| 0 <= j < |ks| && (k == SKey(ks[j]) || (ParseDt(ks[j]).Some? && k == DtKey(ParseDt(ks[j]).value)));
    assert ParseDt(ks[j]) == Some(ts[j]);
    assert k == moves[j].0 || k == moves[j].1;
  }

  /** When the decoding loop succeeds, every text key is gone, each instant
      holds the value of the last text key parsing to it, and every other key
      is untouched. */
  lemma ParseDtKeysSpec(d: Dict<Key, Value>, ks: seq<string>)
    requires UniqueKeys(d) && Distinct(ks)
    requires forall j | 0 <= j < |ks| :: HasKey(d, SKey(ks[j]))
    requires ParseDtKeys(d, ks).Ok?
    ensures UniqueKeys(ParseDtKeys(d, ks).value)
    ensures forall j | 0 <= j < |ks| :: Lookup(ParseDtKeys(d, ks).value, SKey(ks[j])) == None
    ensures forall j | 0 <= j < |ks| && LastOfInstant(ks, j) ::
      Lookup(ParseDtKeys(d, ks).value, DtKey(ParseDt(ks[j]).value)) == Lookup(d, SKey(ks[j]))
    ensures forall k | !TouchedBy(ks, k) :: Lookup(ParseDtKeys(d, ks).value, k) == Lookup(d, k)
  {
    ParseDtKeysAsMoves(d, ks);
    var ts := ParseAll(ks).value;
    var moves := DecodeMoves(ks, ts);
    DecodeMovesValid(d, ks, ts);
    MoveAllSpec(d, moves);
    forall j | 0 <= j < |ks| && LastOfInstant(ks, j)
      ensures LastTarget(moves, j)
    {
      DecodeMovesLast(ks, j);
    }
    forall k | !TouchedBy(ks, k)
      ensures !Moved(moves, k)
    {
      DecodeMovesMoved(ks, k);
    }
  }

  /** `JsonHandler.decode(d)`: the text keys become datetimes, then an
      encoded-datetime object decodes to its datetime. A missing `value` is a
      `KeyError`, a non-string one a `TypeError`. */
  function Decode(d: Dict<Key, Value>): (r: Result<Value>)
    requires UniqueKeys(d)
  {
    var d' :- ParseDtKeys(d, DtStrKeysOf(d));
    if Lookup(d', SKey(ClassKey)) == Some(Str(DtClassName)) then
      match Lookup(d', SKey(ValueKey))
      case None => Err(KeyError)
      case Some(v) =>
        if !v.Str? then Err(TypeError)
        else match ParseDt(v.s)
          case None => Err(ValueError)
          case Some(dt) => Ok(Dt(dt))
    else Ok(Dict(d'))
  }

  /** Decoding fails with `ValueError` exactly when a date-looking key does
      not parse; otherwise no date-looking text key is left, and a dict not
      marked as an encoded datetime comes back as a dict. */
  lemma DecodeKeysSpec(d: Dict<Key, Value>)
    requires UniqueKeys(d)
    ensures var ks := DtStrKeysOf(d);
      (exists j | 0 <= j < |ks| :: ParseDt(ks[j]).None?) <==> ParseDtKeys(d, ks).Err?
    ensures ParseDtKeys(d, DtStrKeysOf(d)).Err? ==> Decode(d) == Err(ValueError)
    ensures ParseDtKeys(d, DtStrKeysOf(d)).Ok? ==>
      var d' := ParseDtKeys(d, DtStrKeysOf(d)).value;
      && UniqueKeys(d')
      && (forall s | IsDtStr(Str(s)) :: Lookup(d', SKey(s)) == None)
      && (Lookup(d', SKey(ClassKey)) == Some(Str(DtClassName)) || Decode(d) == Ok(Dict(d')))
  {
    var ks := DtStrKeysOf(d);
    DtStrKeysDistinct(d);
    ParseDtKeysAsMoves(d, ks);
    if ParseDtKeys(d, ks).Ok? {
      forall j | 0 <= j < |ks|
        ensures HasKey(d, SKey(ks[j]))
      {
        assert ks[j] in ks;
      }
      ParseDtKeysSpec(d, ks);
      var d' := ParseDtKeys(d, ks).value;
      forall s | IsDtStr(Str(s))
        ensures Lookup(d', SKey(s)) == None
      {
        if s in ks {
          var j :| 0 <= j < |ks| && ks[j] == s;
        } else {
          assert !TouchedBy(ks, SKey(s));
          LookupSomeIff(d, SKey(s));
        }
      }
    }
  }

  /** The encoded-datetime object decodes to its datetime only when it has a
      string `value` that parses. */
  lemma DecodeClassObject(d: Dict<Key, Value>)
    requires UniqueKeys(d)
    requires ParseDtKeys(d, DtStrKeysOf(d)).Ok?
    requires Lookup(ParseDtKeys(d, DtStrKeysOf(d)).value, SKey(ClassKey)) == Some(Str(DtClassName))
    ensures var v := Lookup(ParseDtKeys(d, DtStrKeysOf(d)).value, SKey(ValueKey));
      && (v.None? ==> Decode(d) == Err(KeyError))
      && (v.Some? && !v.value.Str? ==> Decode(d) == Err(TypeError))
      && (v.Some? && v.value.Str? ==>
            Decode(d) == (if ParseDt(v.value.s).Some? then Ok(Dt(ParseDt(v.value.s).value)) else Err(ValueError)))
  {
  }

  // ---------------------------------------------------------------------
  // Round trips

  /** Short keys are never date-looking. */
  lemma ShortKeysNotDtStr(d: Dict<Key, Value>)
    requires forall i | 0 <= i < |d| :: d[i].0.SKey? && |d[i].0.s| != 20
    ensures DtStrKeysOf(d) == []
  {
  }

  /** Decoding an encoded datetime gives the same instant back, for every
      year `%Y` renders with four digits. */
  lemma DecodeEncodeDt(dt: DateTime)
    requires dt.year >= 1000
    ensures Encode(Dt(dt)).out.Some? && Encode(Dt(dt)).out.value.Dict?
    ensures UniqueKeys(Encode(Dt(dt)).out.value.entries)
    ensures Decode(Encode(Dt(dt)).out.value.entries) == Ok(Dt(dt))
  {
    var d := DtObject(dt);
    ShortKeysNotDtStr(d);
    ParseDtToStr(dt);
    assert Lookup(d, SKey(ClassKey)) == Some(Str(DtClassName));
    assert Lookup(d, SKey(ValueKey)) == Some(Str(DtToStr(dt)));
  }

  /** A year below 1000 renders too short, and the decoded object raises
      `ValueError`. */
  lemma DecodeEncodeShortYear(dt: DateTime)
    requires dt.year < 1000
    ensures Decode(DtObject(dt)) == Err(ValueError)
  {
    var d := DtObject(dt);
    ShortKeysNotDtStr(d);
    ShortYearNotReparsed(dt);
    assert Lookup(d, SKey(ClassKey)) == Some(Str(DtClassName));
    assert Lookup(d, SKey(ValueKey)) == Some(Str(DtToStr(dt)));
  }

  /** No string key passes `is_dt_str`. */
  predicate NoDtStrKey(d: Dict<Key, Value>)
  {
    forall i | 0 <= i < |d| :: d[i].0.SKey? ==> !IsDtStr(Str(d[i].0.s))
  }

  lemma NoDtStrKeyAbsent(d: Dict<Key, Value>, s: string)
    requires NoDtStrKey(d) && IsDtStr(Str(s))
    ensures !HasKey(d, SKey(s))
  {
  }

  /** What the round trip needs of a rendering: it is injective, and it
      renders each datetime key of `d` as text that passes `is_dt_str` and
      parses back to the same datetime. */
  ghost predicate ReparsesKeys(d: Dict<Key, Value>, render: DateTime -> string)
  {
    && Injective(render)
    && forall t | HasKey(d, DtKey(t)) :: IsDtStr(Str(render(t))) && ParseDt(render(t)) == Some(t)
  }

  /** After renaming, the date-looking keys are exactly the renderings of
      the datetime keys. */
  lemma RenamedDtStrKeys(d: Dict<Key, Value>, render: DateTime -> string)
    requires UniqueKeys(d) && NoDtStrKey(d) && ReparsesKeys(d, render)
    ensures forall s :: s in DtStrKeysOf(Rename(d, render)) <==> IsRenderedKey(d, s, render)
  {
    RenameHasStr(d, render);
    forall s
      ensures s in DtStrKeysOf(Rename(d, render)) <==> IsRenderedKey(d, s, render)
    {
      if IsDtStr(Str(s)) {
        NoDtStrKeyAbsent(d, s);
      }
    }
  }

  /** ... so each parses back to the datetime key it renders. */
  lemma RenamedParses(d: Dict<Key, Value>, render: DateTime -> string, ks: seq<string>)
    requires UniqueKeys(d) && NoDtStrKey(d) && ReparsesKeys(d, render)
    requires ks == DtStrKeysOf(Rename(d, render))
    ensures forall j | 0 <= j < |ks| ::
      ParseDt(ks[j]).Some? && HasKey(d, DtKey(ParseDt(ks[j]).value)) && render(ParseDt(ks[j]).value) == ks[j]
  {
    RenamedDtStrKeys(d, render);
    forall j | 0 <= j < |ks|
      ensures ParseDt(ks[j]).Some? && HasKey(d, DtKey(ParseDt(ks[j]).value)) && render(ParseDt(ks[j]).value) == ks[j]
    {
      assert ks[j] in ks;
      var t :| HasKey(d, DtKey(t)) && ks[j] == render(t);
    }
  }

  /** Texts that parse back through the rendering they came from: distinct
      texts never parse to the same instant, and none fails to parse. */
  lemma ReparsedDistinct(ks: seq<string>, render: DateTime -> string)
    requires Distinct(ks)
    requires forall j | 0 <= j < |ks| :: ParseDt(ks[j]).Some? && render(ParseDt(ks[j]).value) == ks[j]
    ensures forall j | 0 <= j < |ks| :: LastOfInstant(ks, j)
    ensures ParseAll(ks).Some?
  {
    forall j | 0 <= j < |ks|
      ensures LastOfInstant(ks, j)
    {
      forall j' | j < j' < |ks|
        ensures ParseDt(ks[j']) != ParseDt(ks[j])
      {
        assert ks[j'] != ks[j];
      }
    }
  }

  /** The decoding loop succeeds on the renamed dict, and every move is the
      last onto its instant. */
  lemma RenamedDecodes(d: Dict<Key, Value>, render: DateTime -> string)
    requires UniqueKeys(d) && NoDtStrKey(d) && ReparsesKeys(d, render)
    ensures var c := Rename(d, render);
      var ks := DtStrKeysOf(c);
      && (forall j | 0 <= j < |ks| :: LastOfInstant(ks, j))
      && ParseDtKeys(c, ks).Ok?
  {
    var c := Rename(d, render);
    var ks := DtStrKeysOf(c);
    RenameNoDtKey(d, render);
    DtStrKeysDistinct(c);
    RenamedParses(d, render, ks);
    ReparsedDistinct(ks, render);
    ParseDtKeysAsMoves(c, ks);
  }

  /** After the round trip a datetime key holds what it held before, or is
      still missing. */
  lemma RoundTripDtKey(d: Dict<Key, Value>, t: DateTime, render: DateTime -> string)
    requires UniqueKeys(d) && NoDtStrKey(d) && ReparsesKeys(d, render)
    ensures var c := Rename(d, render);
      var r := ParseDtKeys(c, DtStrKeysOf(c));
      r.Ok? && Lookup(r.value, DtKey(t)) == Lookup(d, DtKey(t))
  {
    var c := Rename(d, render);
    var ks := DtStrKeysOf(c);
    RenameNoDtKey(d, render);
    RenamedParses(d, render, ks);
    RenamedDecodes(d, render);
    DtStrKeysDistinct(c);
    ParseDtKeysSpec(c, ks);
    if HasKey(d, DtKey(t)) {
      RenameTargets(d, render);
      RenamedDtStrKeys(d, render);
      assert render(t) in ks;
      var j :| 0 <= j < |ks| && ks[j] == render(t);
      assert LastOfInstant(ks, j);
    } else {
      LookupSomeIff(d, DtKey(t));
      RenameDtGone(d, t, render);
      assert !TouchedBy(ks, DtKey(t));
    }
  }

  /** After the round trip a string key holds what it held before, or is
      still missing. */
  lemma RoundTripStrKey(d: Dict<Key, Value>, s: string, render: DateTime -> string)
    requires UniqueKeys(d) && NoDtStrKey(d) && ReparsesKeys(d, render)
    ensures var c := Rename(d, render);
      var r := ParseDtKeys(c, DtStrKeysOf(c));
      r.Ok? && Lookup(r.value, SKey(s)) == Lookup(d, SKey(s))
  {
    var c := Rename(d, render);
    var ks := DtStrKeysOf(c);
    RenameNoDtKey(d, render);
    RenamedDecodes(d, render);
    RenamedDtStrKeys(d, render);
    DtStrKeysDistinct(c);
    ParseDtKeysSpec(c, ks);
    if s in ks {
      var j :| 0 <= j < |ks| && ks[j] == s;
      NoDtStrKeyAbsent(d, s);
      LookupSomeIff(d, SKey(s));
    } else {
      RenameOtherStr(d, render);
      assert !TouchedBy(ks, SKey(s));
    }
  }

  /** The dicts that survive encoding and decoding unchanged: datetime keys
      with four-digit years, no date-looking string key, and no
      `__class__` marking the dict as an encoded datetime. */
  predicate RoundTrips(d: Dict<Key, Value>)
  {
    && UniqueKeys(d)
    && (forall i | 0 <= i < |d| :: d[i].0.DtKey? ==> d[i].0.dt.year >= 1000)
    && NoDtStrKey(d)
    && Lookup(d, SKey(ClassKey)) != Some(Str(DtClassName))
  }

  /** `dt_to_str` renders the datetime keys of such a dict as text that is
      date-looking and parses back. */
  lemma RoundTripsReparse(d: Dict<Key, Value>)
    requires RoundTrips(d)
    ensures ReparsesKeys(d, DtToStr)
  {
    DtToStrIsInjective();
    forall t | HasKey(d, DtKey(t))
      ensures IsDtStr(Str(DtToStr(t))) && ParseDt(DtToStr(t)) == Some(t)
    {
      var i :| 0 <= i < |d| && d[i].0 == DtKey(t);
      ParseDtToStr(t);
      IsDtStrAcceptsDtToStr(t);
    }
  }

  /** Decoding a renamed dict gives back a dict holding the same value under
      every key. */
  lemma DecodeRenamed(d: Dict<Key, Value>, render: DateTime -> string)
    requires UniqueKeys(d) && NoDtStrKey(d) && ReparsesKeys(d, render)
    requires Lookup(d, SKey(ClassKey)) != Some(Str(DtClassName))
    ensures var c := Rename(d, render);
      UniqueKeys(c) && Decode(c).Ok? && Decode(c).value.Dict?
      && forall k :: Lookup(Decode(c).value.entries, k) == Lookup(d, k)
  {
    var c := Rename(d, render);
    var ks := DtStrKeysOf(c);
    RenameNoDtKey(d, render);
    RoundTripStrKey(d, ClassKey, render);
    var r := ParseDtKeys(c, ks).value;
    assert Decode(c) == Ok(Dict(r));
    forall k
      ensures Lookup(r, k) == Lookup(d, k)
    {
      match k
      case DtKey(t) => RoundTripDtKey(d, t, render);
      case SKey(s) => RoundTripStrKey(d, s, render);
    }
  }

  /** Encoding a dict and decoding the result gives back a dict holding the
      same value under every key. */
  lemma DecodeEncodeDict(d: Dict<Key, Value>)
    requires RoundTrips(d)
    ensures Encode(Dict(d)).arg.Dict?
    ensures var c := Encode(Dict(d)).arg.entries;
      UniqueKeys(c) && Decode(c).Ok? && Decode(c).value.Dict?
      && forall k :: Lookup(Decode(c).value.entries, k) == Lookup(d, k)
  {
    RoundTripsReparse(d);
    DecodeRenamed(d, DtToStr);
    assert Encode(Dict(d)).arg.entries == Rename(d, DtToStr);
  }
}
