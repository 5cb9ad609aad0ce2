/** The pure helpers of the dashboard's client script: `zeroPad`, reading
    the hidden-repositories form field, and the list update of the
    `repoHidden` handler, which writes the field back. */
module ChartLoader {
  import opened PyStr
  import opened TemplateTags
  import opened Values
  import opened PyDict

  // ---------------------------------------------------------------------
  // zeroPad

  /** What `zeroPad` is given: a string, or a number it converts with
      `toString()` (integers only in this model). */
  datatype JsValue = JStr(s: string) | JNum(n: int)

  function ToStr(v: JsValue): string
  {
    match v
    case JStr(s) => s
    case JNum(n) => IntToString(n)
  }

  function Zeros(n: nat): (z: string)
    ensures |z| == n && forall i | 0 <= i < n :: z[i] == '0'
  {
    seq(n, _ => '0')
  }

  function Max(a: int, b: int): int
  {
    if a >= b then a else b
  }

  /** `zeroPad(s, ndigits)`: prepend `'0'` until the string has `ndigits`
      characters. */
  method ZeroPad(v: JsValue, ndigits: int) returns (r: string)
    ensures |r| == Max(|ToStr(v)|, ndigits)
    ensures |r| >= |ToStr(v)| && r == Zeros(|r| - |ToStr(v)|) + ToStr(v)
    ensures |ToStr(v)| >= ndigits ==> r == ToStr(v)
  {
    var s := ToStr(v);
    r := s;
    while |r| < ndigits
      invariant |r| >= |s| && r == Zeros(|r| - |s|) + s
      invariant |r| <= Max(|s|, ndigits)
      decreases ndigits - |r|
    {
      r := "0" + r;
      assert Zeros(|r| - |s|) == "0" + Zeros(|r| - 1 - |s|);
    }
  }

  /** Leading zeros do not change the value of a numeral, so a padded
      number reads back as the number. */
  lemma {:induction false} ZerosValue(k: nat, s: string)
    requires AllDigits(s)
    ensures AllDigits(Zeros(k) + s) && DigitsValue(Zeros(k) + s) == DigitsValue(s)
  {
    var t := Zeros(k) + s;
    if |s| == 0 {
      assert t == Zeros(k);
      ZerosOnly(k);
    } else {
      var s' := s[..|s| - 1];
      assert t[..|t| - 1] == Zeros(k) + s';
      ZerosValue(k, s');
    }
  }

  lemma {:induction false} ZerosOnly(k: nat)
    ensures AllDigits(Zeros(k)) && DigitsValue(Zeros(k)) == 0
  {
    if k > 0 {
      assert Zeros(k)[..k - 1] == Zeros(k - 1);
      ZerosOnly(k - 1);
    }
  }

  /** Padding a non-negative number keeps its value. */
  method ZeroPadNumber(n: nat, ndigits: int) returns (r: string)
    ensures |r| == Max(|Decimal(n)|, ndigits)
    ensures AllDigits(r) && DigitsValue(r) == n
  {
    r := ZeroPad(JNum(n), ndigits);
    ZerosValue(|r| - |Decimal(n)|, Decimal(n));
    DecimalRoundTrip(n);
  }

  // ---------------------------------------------------------------------
  // The hidden-repositories field

  /** `getFormHiddenRepos`: an empty field is the empty list, anything
      else is split on `,`. */
  function HiddenRepos(field: string): (r: seq<string>)
    ensures |r| == 0 <==> |field| == 0
    ensures forall i | 0 <= i < |r| :: ',' !in r[i]
    ensures |field| > 0 ==> Join(r, ',') == field
  {
    if |field| == 0 then []
    else
      JoinSplit(field, ',');
      Split(field, ',')
  }

  /** `hiddenRepos.indexOf(slug)`: the first position, or -1. */
  function IndexOf(xs: seq<string>, x: string): (r: int)
    ensures -1 <= r < |xs|
    ensures r == -1 <==> x !in xs
    ensures r >= 0 ==> xs[r] == x && forall j | 0 <= j < r :: xs[j] != x
  {
    if |xs| == 0 then -1
    else if xs[0] == x then 0
    else
      var r := IndexOf(xs[1..], x);
      assert forall j | 1 <= j < |xs| :: xs[j] == xs[1..][j - 1];
      if r == -1 then -1 else r + 1
  }

  /** Hiding: append the slug only when it is not listed yet. */
  function Hide(xs: seq<string>, slug: string): (r: seq<string>)
    ensures slug in r
    ensures slug in xs ==> r == xs
    ensures slug !in xs ==> r == xs + [slug]
  {
    if IndexOf(xs, slug) == -1 then xs + [slug] else xs
  }

  /** Unhiding: remove the first occurrence, if there is one, keeping the
      other entries in their order. */
  function Unhide(xs: seq<string>, slug: string): (r: seq<string>)
    ensures slug !in xs ==> r == xs
    ensures slug in xs ==> |r| == |xs| - 1
    ensures slug in xs ==> multiset(r) + multiset{slug} == multiset(xs)
    ensures slug in xs ==> exists i | 0 <= i < |xs| ::
      xs[i] == slug && slug !in xs[..i] && r == xs[..i] + xs[i + 1..]
  {
    var i := IndexOf(xs, slug);
    if i == -1 then xs
    else
      assert xs == xs[..i] + [slug] + xs[i + 1..];
      xs[..i] + xs[i + 1..]
  }

  /** The `repoHidden` handler: the updated list and the new field value. */
  function RepoHidden(xs: seq<string>, slug: string, hidden: bool): (r: (seq<string>, string))
    ensures r.1 == Join(r.0, ',')
    ensures hidden ==> slug in r.0
  {
    var ys := if hidden then Hide(xs, slug) else Unhide(xs, slug);
    (ys, Join(ys, ','))
  }

  /** Hiding never introduces a duplicate. */
  lemma HideKeepsDistinct(xs: seq<string>, slug: string)
    requires Distinct(xs)
    ensures Distinct(Hide(xs, slug))
  {
  }

  /** Unhiding a slug of a duplicate-free list removes it and keeps the
      other entries in their order. */
  lemma UnhideSpec(xs: seq<string>, slug: string)
    requires Distinct(xs) && slug in xs
    ensures var i := IndexOf(xs, slug);
      && Unhide(xs, slug) == xs[..i] + xs[i + 1..]
      && slug !in Unhide(xs, slug)
      && Distinct(Unhide(xs, slug))
  {
    var i := IndexOf(xs, slug);
    var r := xs[..i] + xs[i + 1..];
    assert |r| == |xs| - 1;
    forall j | 0 <= j < |r|
      ensures r[j] == xs[if j < i then j else j + 1]
    {
    }
    forall a, b | 0 <= a < b < |r|
      ensures r[a] != r[b]
    {
      assert r[a] == xs[if a < i then a else a + 1];
      assert r[b] == xs[if b < i then b else b + 1];
    }
    forall j | 0 <= j < |r|
      ensures r[j] != slug
    {
      assert r[j] == xs[if j < i then j else j + 1];
    }
  }

  /** Hiding and then unhiding a slug that was not hidden restores both the
      list and the field. */
  lemma HideUnhide(xs: seq<string>, slug: string)
    requires slug !in xs
    ensures RepoHidden(RepoHidden(xs, slug, true).0, slug, false) == (xs, Join(xs, ','))
  {
    var ys := xs + [slug];
    assert Hide(xs, slug) == ys;
    assert IndexOf(ys, slug) == |xs|;
    assert ys[..|xs|] == xs && ys[|xs| + 1..] == [];
    assert Unhide(ys, slug) == xs;
  }

  /** Reading back a written field gives the list, when every entry is a
      non-empty slug without commas. */
  lemma FieldRoundTrip(xs: seq<string>)
    requires forall i | 0 <= i < |xs| :: |xs[i]| > 0 && ',' !in xs[i]
    ensures HiddenRepos(Join(xs, ',')) == xs
  {
    if |xs| > 0 {
      JoinNonEmpty(xs);
      SplitJoin(xs, ',');
    }
  }

  lemma JoinNonEmpty(xs: seq<string>)
    requires |xs| > 0 && |xs[0]| > 0
    ensures |Join(xs, ',')| > 0
  {
    if |xs| > 1 {
      JoinCons(xs[0], xs[1..], ',');
      assert [xs[0]] + xs[1..] == xs;
    }
  }

  /** The page renders the field with `list_to_str`; the script reads the
      same slugs back. */
  lemma TemplateFieldRoundTrip(slugs: seq<string>, str: Value -> string)
    requires StrKeepsStrings(str)
    requires forall i | 0 <= i < |slugs| :: |slugs[i]| > 0 && ',' !in slugs[i]
    ensures var items := seq(|slugs|, i requires 0 <= i < |slugs| => Str(slugs[i]));
      HiddenRepos(ListToStr(List(items), str).value) == slugs
  {
    ListToStrStrings(slugs, str);
    FieldRoundTrip(slugs);
  }
}
