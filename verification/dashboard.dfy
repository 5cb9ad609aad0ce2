/** The request-side logic of the dashboard: reading a datetime from a
    query value, copying the requested date range into the template
    context, and the metric check of the chart-data JSON route. */
module Dashboard {
  import opened Base
  import opened PyStr
  import opened PyDict
  import opened Calendar
  import opened DtFormat
  import opened Values
  import opened TrafficChart

  // ---------------------------------------------------------------------
  // float() of an alphanumeric string

  /** What `float(s)` yields for an alphanumeric `s`. Without a sign or a
      point, every finite value is a whole number. */
  datatype Number = Finite(n: nat) | Infinite | NotANumber

  function Pow10(e: nat): (p: nat)
    ensures p >= 1
  {
    if e == 0 then 1 else 10 * Pow10(e - 1)
  }

  /** The position of the first character that is not a digit, or `|s|`. */
  function FirstNonDigit(s: string): (i: nat)
    ensures i <= |s| && AllDigits(s[..i])
    ensures i < |s| ==> !IsDigit(s[i])
  {
    if |s| == 0 || !IsDigit(s[0]) then 0
    else
      var i := FirstNonDigit(s[1..]) + 1;
      assert s[..i] == [s[0]] + s[1..][..i - 1];
      i
  }

  predicate InfName(s: string)
  {
    EqualsIgnoreCase(s, "inf") || EqualsIgnoreCase(s, "infinity")
  }

  predicate NanName(s: string)
  {
    EqualsIgnoreCase(s, "nan")
  }

  /** `<digits>e<digits>` or `<digits>E<digits>`, split at `i`. */
  predicate ExponentAt(s: string, i: int)
  {
    && 0 < i < |s| - 1
    && (s[i] == 'e' || s[i] == 'E')
    && AllDigits(s[..i]) && AllDigits(s[i + 1..])
  }

  /** `float(s)` for an alphanumeric ASCII string: a numeral, a numeral
      with a decimal exponent, or one of the names of infinity and NaN in
      any letter case; anything else raises `ValueError`. */
  function AlnumFloat(s: string): (r: Result<Number>)
    requires IsAlnum(s)
    ensures r.Err? ==> r.error == ValueError
  {
    if AllDigits(s) then Ok(Finite(DigitsValue(s)))
    else if InfName(s) then Ok(Infinite)
    else if NanName(s) then Ok(NotANumber)
    else
      var i := FirstNonDigit(s);
      if ExponentAt(s, i) then Ok(Finite(DigitsValue(s[..i]) * Pow10(DigitsValue(s[i + 1..]))))
      else Err(ValueError)
  }

  /** The exponent form is split at its first non-digit. */
  lemma ExponentAtFirst(s: string, i: int)
    requires ExponentAt(s, i)
    ensures FirstNonDigit(s) == i
  {
  }

  /** The special names start with a letter. */
  lemma NamesNotDigits(s: string)
    requires InfName(s) || NanName(s)
    ensures |s| > 0 && !IsDigit(s[0]) && !AllDigits(s)
    ensures forall i :: !ExponentAt(s, i)
  {
    assert ToLowerAscii(s[0]) == 'i' || ToLowerAscii(s[0]) == 'n';
  }

  /** Which alphanumeric strings `float` accepts, and as what. */
  lemma AlnumFloatSpec(s: string)
    requires IsAlnum(s)
    ensures AlnumFloat(s).Ok? <==> AllDigits(s) || InfName(s) || NanName(s) || exists i :: ExponentAt(s, i)
    ensures AlnumFloat(s) == Ok(Infinite) <==> InfName(s)
    ensures AlnumFloat(s) == Ok(NotANumber) <==> NanName(s) && !InfName(s)
    ensures AllDigits(s) ==> AlnumFloat(s) == Ok(Finite(DigitsValue(s)))
    ensures forall i | ExponentAt(s, i) ::
      AlnumFloat(s) == Ok(Finite(DigitsValue(s[..i]) * Pow10(DigitsValue(s[i + 1..]))))
  {
    if InfName(s) || NanName(s) {
      NamesNotDigits(s);
    }
    forall i | ExponentAt(s, i)
      ensures AlnumFloat(s) == Ok(Finite(DigitsValue(s[..i]) * Pow10(DigitsValue(s[i + 1..]))))
    {
      ExponentAtFirst(s, i);
      assert !AllDigits(s) by { assert !IsDigit(s[i]); }
      if InfName(s) || NanName(s) {
        NamesNotDigits(s);
      }
    }
  }

  /** A rendered numeral with a rendered exponent reads back as its value. */
  lemma AlnumFloatExponent(m: nat, k: nat)
    ensures var s := Decimal(m) + "e" + Decimal(k);
      IsAlnum(s) && AlnumFloat(s) == Ok(Finite(m * Pow10(k)))
  {
    var a, b := Decimal(m), Decimal(k);
    var s := a + "e" + b;
    var i := |a|;
    assert s[..i] == a && s[i + 1..] == b && s[i] == 'e';
    assert forall j | 0 <= j < |s| :: IsDigit(s[j]) || IsLetter(s[j]) by {
      forall j | 0 <= j < |s|
        ensures IsDigit(s[j]) || IsLetter(s[j])
      {
        if j < i {
          assert s[j] == a[j];
        } else if j > i {
          assert s[j] == b[j - i - 1];
        }
      }
    }
    assert ExponentAt(s, i);
    AlnumFloatSpec(s);
    DecimalRoundTrip(m);
    DecimalRoundTrip(k);
  }

  // ---------------------------------------------------------------------
  // parse_query_dt

  /** `timestamp_to_dt` of a float: infinity overflows, NaN is a
      `ValueError`, a whole number is read as seconds. */
  function TimestampOf(x: Number): (r: Result<DateTime>)
    ensures r.Ok? <==> x.Finite? && x.n <= MaxSeconds
    ensures r.Ok? ==> DtToTimestamp(r.value) == x.n
    ensures r.Err? ==> r.error == (if x.NotANumber? then ValueError else OverflowError)
  {
    match x
    case Finite(n) => TimestampToDt(n)
    case Infinite => Err(OverflowError)
    case NotANumber => Err(ValueError)
  }

  /** `parse_query_dt(o)`: a datetime is returned as it is; an alphanumeric
      string is read as a float timestamp and any other string as
      `DT_FMT` text; a number (a bool included) is a timestamp; anything
      else is a `ValueError`. */
  function ParseQueryDt(o: Value): (r: Result<DateTime>)
    ensures o.Dt? ==> r == Ok(o.dt)
    ensures o.Null? || o.List? || o.Dict? ==> r == Err(ValueError)
    ensures o.Str? && !IsAlnum(o.s) ==> (r.Ok? <==> ParseDt(o.s).Some?)
    ensures o.Str? && !IsAlnum(o.s) && r.Ok? ==> ParseDt(o.s) == Some(r.value)
    ensures o.Int? ==> (r.Ok? <==> MinSeconds <= o.i <= MaxSeconds)
    ensures o.Int? && r.Ok? ==> DtToTimestamp(r.value) == o.i
    ensures o.Str? && |o.s| > 0 && AllDigits(o.s) ==> (r.Ok? <==> DigitsValue(o.s) <= MaxSeconds)
    ensures o.Str? && |o.s| > 0 && AllDigits(o.s) && r.Ok? ==> DtToTimestamp(r.value) == DigitsValue(o.s)
    ensures r.Err? ==> r.error == ValueError || r.error == OverflowError
  {
    match o
    case Dt(dt) => Ok(dt)
    case Str(s) =>
      if IsAlnum(s) then
        var x :- AlnumFloat(s);
        TimestampOf(x)
      else
        (match ParseDt(s)
         case None => Err(ValueError)
         case Some(dt) => Ok(dt))
    case Int(i) => TimestampToDt(i)
    case Bool(b) => TimestampToDt(if b then 1 else 0)
    case _ => Err(ValueError)
  }

  /** A datetime passed through its own text comes back, for every year
      `dt_to_str` renders with four digits. */
  lemma ParseQueryDtText(dt: DateTime)
    requires dt.year >= 1000
    ensures ParseQueryDt(Str(DtToStr(dt))) == Ok(dt)
  {
    DtToStrShape(dt);
    ParseDtToStr(dt);
    var s := DtToStr(dt);
    assert !IsAlnum(s) by { assert s[4] == '-'; }
  }

  /** A datetime passed as its decimal timestamp comes back. */
  lemma ParseQueryDtSeconds(dt: DateTime)
    requires DtToTimestamp(dt) >= 0
    ensures ParseQueryDt(Str(Decimal(DtToTimestamp(dt)))) == Ok(dt)
  {
    var n: nat := DtToTimestamp(dt);
    DecimalRoundTrip(n);
    assert IsAlnum(Decimal(n));
    TimestampRoundTrip(dt);
  }

  /** A datetime passed as an integer timestamp comes back. */
  lemma ParseQueryDtInt(dt: DateTime)
    ensures ParseQueryDt(Int(DtToTimestamp(dt))) == Ok(dt)
  {
    TimestampRoundTrip(dt);
  }

  /** A timestamp written with an exponent is its value in seconds. */
  lemma ParseQueryDtExponent(m: nat, k: nat)
    ensures ParseQueryDt(Str(Decimal(m) + "e" + Decimal(k))) == TimestampToDt(m * Pow10(k))
  {
    AlnumFloatExponent(m, k);
  }

  /** Infinity overflows, NaN and the empty string do not parse. */
  lemma ParseQueryDtSpecial()
    ensures ParseQueryDt(Str("inf")) == Err(OverflowError)
    ensures ParseQueryDt(Str("NaN")) == Err(ValueError)
    ensures ParseQueryDt(Str("")) == Err(ValueError)
  {
    assert InfName("inf");
    assert !EqualsIgnoreCase("NaN", "inf") by {
      assert ToLowerAscii("NaN"[0]) != ToLowerAscii("inf"[0]);
    }
    assert NanName("NaN") && !InfName("NaN");
    AlnumFloatSpec("inf");
    AlnumFloatSpec("NaN");
  }

  // ---------------------------------------------------------------------
  // update_context_dt_range

  /** The request's query string; `get` returns the first value of a key. */
  type Query = Dict<string, string>

  /** The template context. */
  type Context = Dict<string, Value>

  const StartKey := "start_datetime"
  const EndKey := "end_datetime"

  /** What the query asks for under `key`: nothing, or a parsed datetime. */
  function Wanted(q: Query, key: string): (r: Result<Option<DateTime>>)
    ensures r.Err? ==> Lookup(q, key).Some?
  {
    match Lookup(q, key)
    case None => Ok(None)
    case Some(s) =>
      var dt :- ParseQueryDt(Str(s));
      Ok(Some(dt))
  }

  /** One pass of the loop: drop the key when the query lacks it, store the
      parsed datetime otherwise. */
  function UpdateKey(ctx: Context, q: Query, key: string): Result<Context>
  {
    var w :- Wanted(q, key);
    match w
    case None => Ok(if HasKey(ctx, key) then Del(ctx, key) else ctx)
    case Some(dt) => Ok(Set(ctx, key, Dt(dt)))
  }

  /** `update_context_dt_range(request, context)`; a missing context starts
      out empty. */
  function UpdateContextDtRange(q: Query, ctx: Option<Context>): Result<Context>
  {
    var c := if ctx.None? then [] else ctx.value;
    var c' :- UpdateKey(c, q, StartKey);
    UpdateKey(c', q, EndKey)
  }

  /** The context value that stands for what the query asks for. */
  function AsEntry(w: Option<DateTime>): Option<Value>
  {
    match w
    case None => None
    case Some(dt) => Some(Dt(dt))
  }

  lemma UpdateKeySpec(ctx: Context, q: Query, key: string)
    requires UniqueKeys(ctx)
    ensures var r := UpdateKey(ctx, q, key);
      && (r.Ok? <==> Wanted(q, key).Ok?)
      && (r.Err? ==> r.error == Wanted(q, key).error)
      && (r.Ok? ==> UniqueKeys(r.value) && Lookup(r.value, key) == AsEntry(Wanted(q, key).value))
      && (r.Ok? ==> forall k | k != key :: Lookup(r.value, k) == Lookup(ctx, k))
  {
    var w := Wanted(q, key);
    if w.Ok? {
      match w.value
      case None =>
        if HasKey(ctx, key) {
          DelSpec(ctx, key);
          LookupMissing(Del(ctx, key), key);
        } else {
          LookupMissing(ctx, key);
        }
      case Some(dt) =>
        SetSpec(ctx, key, Dt(dt));
    }
  }

  /** Each of the two keys ends up holding what the query asks for (or is
      absent), every other key keeps its value, and the first failing
      parse decides the error. */
  lemma UpdateContextDtRangeSpec(q: Query, ctx: Option<Context>)
    requires ctx.Some? ==> UniqueKeys(ctx.value)
    ensures var r := UpdateContextDtRange(q, ctx);
      var c := if ctx.None? then [] else ctx.value;
      && (r.Ok? <==> Wanted(q, StartKey).Ok? && Wanted(q, EndKey).Ok?)
      && (r.Err? ==> r.error == (if Wanted(q, StartKey).Err? then Wanted(q, StartKey) else Wanted(q, EndKey)).error)
      && (r.Ok? ==> UniqueKeys(r.value))
      && (r.Ok? ==> Lookup(r.value, StartKey) == AsEntry(Wanted(q, StartKey).value))
      && (r.Ok? ==> Lookup(r.value, EndKey) == AsEntry(Wanted(q, EndKey).value))
      && (r.Ok? ==> forall k | k != StartKey && k != EndKey :: Lookup(r.value, k) == Lookup(c, k))
  {
    var c: Context := if ctx.None? then [] else ctx.value;
    UpdateKeySpec(c, q, StartKey);
    var r1 := UpdateKey(c, q, StartKey);
    if r1.Ok? {
      UpdateKeySpec(r1.value, q, EndKey);
      assert StartKey != EndKey;
    }
  }

  /** Applying the same query to the context it produced changes nothing. */
  lemma UpdateContextDtRangeIdempotent(q: Query, ctx: Option<Context>)
    requires ctx.Some? ==> UniqueKeys(ctx.value)
    requires UpdateContextDtRange(q, ctx).Ok?
    ensures var r := UpdateContextDtRange(q, ctx).value;
      UpdateContextDtRange(q, Some(r)) == Ok(r)
  {
    UpdateContextDtRangeSpec(q, ctx);
    var r := UpdateContextDtRange(q, ctx).value;
    UpdateKeyHeld(r, q, StartKey);
    UpdateKeyHeld(r, q, EndKey);
  }

  /** A context that already holds what the query asks for under `key` is
      left as it is. */
  lemma UpdateKeyHeld(ctx: Context, q: Query, key: string)
    requires Wanted(q, key).Ok?
    requires Lookup(ctx, key) == AsEntry(Wanted(q, key).value)
    ensures UpdateKey(ctx, q, key) == Ok(ctx)
  {
    match Wanted(q, key).value
    case None =>
      LookupSomeIff(ctx, key);
    case Some(dt) =>
      SetHeld(ctx, key, Dt(dt));
  }

  // ---------------------------------------------------------------------
  // get_traffic_chart_data_json

  const MetricKey := "data_metric"

  /** The chart's default repository limit (the context never holds one). */
  const DefaultLimit := 10

  function MetricName(m: Metric): string
  {
    match m
    case CountMetric => "count"
    case UniquesMetric => "uniques"
  }

  /** `request.query.get('data_metric', 'count')`, then the assertion that
      it names a metric. */
  function MetricOf(q: Query): (r: Result<Metric>)
    ensures r.Err? ==> r.error == AssertionError
    ensures r.Ok? <==> Lookup(q, MetricKey).None? || Lookup(q, MetricKey).value in {"count", "uniques"}
    ensures Lookup(q, MetricKey).None? ==> r == Ok(CountMetric)
  {
    var name := match Lookup(q, MetricKey) case None => "count" case Some(s) => s;
    if name == "count" then Ok(CountMetric)
    else if name == "uniques" then Ok(UniquesMetric)
    else Err(AssertionError)
  }

  /** Asking for a metric by its name selects it. */
  lemma MetricOfName(q: Query, m: Metric)
    requires Lookup(q, MetricKey) == Some(MetricName(m))
    ensures MetricOf(q) == Ok(m)
  {
  }

  /** `get_traffic_chart_data_json`: the date range is read first, then the
      metric is checked, then the datasets are built from the repositories
      in loop order. */
  function ChartDataJson(q: Query, repos: seq<RepoSummary>): (r: Result<seq<Dataset>>)
    ensures UpdateContextDtRange(q, None).Err? ==> r == Err(UpdateContextDtRange(q, None).error)
    ensures r.Ok? <==> UpdateContextDtRange(q, None).Ok? && MetricOf(q).Ok?
    ensures r.Err? && UpdateContextDtRange(q, None).Ok? ==> r.error == AssertionError
    ensures r.Ok? ==> r.value == ChartData(repos, MetricOf(q).value, DefaultLimit)
  {
    var ctx :- UpdateContextDtRange(q, None);
    var m :- MetricOf(q);
    Ok(ChartData(repos, m, DefaultLimit))
  }

  /** A successful reply holds one dataset per charted repository, labelled
      with its slug and the requested metric, each with one point per axis
      timestamp holding the metric of that repository's timeline there (see
      `PointSpec`): as many datasets as charted repositories, no legend twice. */
  lemma ChartDataJsonSpec(q: Query, repos: seq<RepoSummary>)
    requires DistinctSlugs(repos)
    requires ChartDataJson(q, repos).Ok?
    ensures var m := MetricOf(q).value;
      var sel := Selected(repos, DefaultLimit);
      var ds := ChartDataJson(q, repos).value;
      && (forall d | d in ds :: exists r | r in sel ::
            && d.legend == Label(r.slug, m) && |d.data| == |Axis(sel)|
            && d.data == Points(Axis(sel), r.timeline, m, DtToStr))
      && (forall r | r in sel :: exists d | d in ds ::
            d.legend == Label(r.slug, m) && d.data == Points(Axis(sel), r.timeline, m, DtToStr))
      && |ds| == |sel|
      && (forall i, j | 0 <= i < j < |ds| :: ds[i].legend != ds[j].legend)
  {
    var m := MetricOf(q).value;
    var sel := Selected(repos, DefaultLimit);
    var ds := ChartDataJson(q, repos).value;
    ChartDataSpec(repos, m, DefaultLimit);
    assert ds == ChartData(repos, m, DefaultLimit);
    SelectedSpec(repos, DefaultLimit);
    DistinctPrefix(repos, Shown(|repos|, DefaultLimit));
    WithViewsDistinct(repos[..Shown(|repos|, DefaultLimit)]);
    forall i, j | 0 <= i < j < |ds|
      ensures ds[i].legend != ds[j].legend
    {
      assert ds[i] in ds && ds[j] in ds;
      var a :| a in sel && ds[i] == DatasetOf(a, Axis(sel), m, DtToStr);
      var b :| b in sel && ds[j] == DatasetOf(b, Axis(sel), m, DtToStr);
      if ds[i].legend == ds[j].legend {
        LabelInjective(a.slug, m, b.slug, m);
      }
    }
  }
}
