/** `RequestHandler` of `ghstats/requests.py`: the `Link` header parser, the
    recursion that follows `rel="next"` pages, the URL and status handling
    of `make_request`, and the acquire counter that decides when the HTTP
    session is dropped.

    The network is a parameter: `fetch` maps a URL to the page the server
    answers with (status, header fields, decoded JSON body). The verb and
    the request body are the same for every page of one request, so they
    are part of `fetch`. */
module Requests {
  import opened Base
  import opened PyStr
  import opened PyDict
  import opened Values
  import opened Utils

  // ---------------------------------------------------------------------
  // Link header fields

  /** Response header fields in the order received; a name may repeat. */
  type Headers = seq<(string, string)>

  const LinkField := "Link"

  /** Header names are matched without regard to case (aiohttp's `CIMultiDict`). */
  predicate IsLinkField(name: string)
  {
    EqualsIgnoreCase(name, LinkField)
  }

  /** `headers.getall('Link', [])`: the values of every `Link` field, in order. */
  function LinkValues(headers: Headers): (vs: seq<string>)
    ensures |vs| <= |headers|
    ensures (forall i | 0 <= i < |headers| :: !IsLinkField(headers[i].0)) ==> vs == []
  {
    if |headers| == 0 then []
    else (if IsLinkField(headers[0].0) then [headers[0].1] else []) + LinkValues(headers[1..])
  }

  /** Fields of two header blocks are collected in order. */
  lemma {:induction false} LinkValuesAppend(a: Headers, b: Headers)
    ensures LinkValues(a + b) == LinkValues(a) + LinkValues(b)
  {
    if |a| == 0 {
      assert a + b == b;
    } else {
      assert (a + b)[1..] == a[1..] + b;
      LinkValuesAppend(a[1..], b);
    }
  }

  /** One link-value `<url>; rel="name"`, read as `(name, url)`: split on
      `;` into exactly two parts (else the tuple unpacking raises
      `ValueError`), strip blanks and the angle brackets from the URL, and
      take what follows the first `=` of the parameter (`IndexError` when
      there is none), without its quotes. */
  function ParseLink(lstr: string): (r: Result<(string, string)>)
  {
    var parts := Split(lstr, ';');
    if |parts| != 2 then Err(ValueError)
    else
      var u := RStrip(LStrip(Strip(parts[0], ' '), '<'), '>');
      var relParts := Split(Strip(parts[1], ' '), '=');
      if |relParts| < 2 then Err(IndexError)
      else Ok((Strip(relParts[1], '"'), u))
  }

  /** A link-value fails with `ValueError` exactly when it does not hold one
      `;`, and with `IndexError` exactly when it does but the parameter after
      the `;` holds no `=`. */
  lemma ParseLinkErrors(lstr: string)
    ensures ParseLink(lstr) == Err(ValueError) <==> Count(lstr, ';') != 1
    ensures ParseLink(lstr) == Err(IndexError) <==>
      Count(lstr, ';') == 1 && '=' !in Split(lstr, ';')[1]
    ensures ParseLink(lstr).Err? ==> ParseLink(lstr).error in {ValueError, IndexError}
  {
    var parts := Split(lstr, ';');
    if |parts| == 2 {
      var p := Strip(parts[1], ' ');
      StripKeeps(parts[1], ' ', '=');
      CountAbsent(p, '=');
    }
  }

  /** `for lstr in link_header.split(',')`: the pairs of one field in order;
      the first bad link-value decides the error. */
  function ParseLinkField(v: string): (r: Result<seq<(string, string)>>)
  {
    MapResult(ParseLink, Split(v, ','))
  }

  /** `for link_header in link_headers`: the pairs of every field, in the
      order the loop meets them. */
  function ParseLinkValues(vs: seq<string>): (r: Result<seq<(string, string)>>)
  {
    ConcatMapResult(ParseLinkField, vs)
  }

  /** `parse_link_headers`: every pair is assigned into a fresh dict in
      turn, so a later duplicate rel overwrites an earlier one. A raised
      error discards the dict, so collecting the pairs first and assigning
      them afterwards gives the same outcome. */
  function ParseLinkHeaders(headers: Headers): (r: Result<Dict<string, string>>)
    ensures LinkValues(headers) == [] ==> r == Ok([])
    ensures r.Ok? ==> UniqueKeys(r.value)
  {
    var ps :- ParseLinkValues(LinkValues(headers));
    SetAllSpec([], ps);
    Ok(SetAll([], ps))
  }

  /** Each rel maps to the URL of its last occurrence; a rel that never
      occurs is absent. */
  lemma ParseLinkHeadersLookup(headers: Headers, rel: string)
    requires ParseLinkHeaders(headers).Ok?
    ensures var ps := ParseLinkValues(LinkValues(headers)).value;
      Lookup(ParseLinkHeaders(headers).value, rel) == LastWith(ps, rel)
  {
    var ps := ParseLinkValues(LinkValues(headers)).value;
    SetAllSpec([], ps);
  }

  /** Links from later header fields are merged over those of earlier ones. */
  lemma ParseLinkHeadersMerge(a: Headers, b: Headers)
    requires ParseLinkHeaders(a).Ok? && ParseLinkHeaders(b).Ok?
    ensures ParseLinkHeaders(a + b) ==
      Ok(SetAll(ParseLinkHeaders(a).value, ParseLinkValues(LinkValues(b)).value))
  {
    LinkValuesAppend(a, b);
    ConcatMapResultAppend(ParseLinkField, LinkValues(a), LinkValues(b));
    SetAllAppend([], ParseLinkValues(LinkValues(a)).value, ParseLinkValues(LinkValues(b)).value);
  }

  // ---------------------------------------------------------------------
  // Rendering links (the server's side) and reading them back

  /** No character the parser splits or strips on. */
  predicate LinkSafe(s: string)
  {
    forall i | 0 <= i < |s| :: s[i] !in ",;<>\"="
  }

  function Bracketed(url: string): string
  {
    ['<'] + url + ['>']
  }

  function Quoted(rel: string): string
  {
    ['"'] + rel + ['"']
  }

  function RelParam(rel: string): string
  {
    " rel=" + Quoted(rel)
  }

  /** One entry of a `Link` header, the URL in angle brackets followed by
      its relation: `<url>; rel="rel"`. */
  function RenderLink(rel: string, url: string): string
  {
    Bracketed(url) + [';'] + RelParam(rel)
  }

  /** Link-values after the first carry the blank of the `, ` separator. */
  function LinkPieces(links: seq<(string, string)>): (ps: seq<string>)
    ensures |ps| == |links|
  {
    seq(|links|, j requires 0 <= j < |links| =>
      (if j == 0 then "" else " ") + RenderLink(links[j].0, links[j].1))
  }

  /** The link-values joined by `, `. */
  function RenderLinks(links: seq<(string, string)>): string
  {
    Join(LinkPieces(links), ',')
  }

  /** The blank of the separator strips off a bracketed URL. */
  lemma StripBlank(sp: string, url: string)
    requires sp == "" || sp == " "
    ensures Strip(sp + Bracketed(url), ' ') == Bracketed(url)
  {
    var a := Bracketed(url);
    if sp == " " {
      assert sp + a == [' '] + a;
      LStripCons(' ', a);
    } else {
      assert sp + a == a;
    }
    assert LStrip(a, ' ') == a;
    assert RStrip(a, ' ') == a;
  }

  /** The angle brackets strip off a URL that holds none. */
  lemma StripBrackets(url: string)
    requires LinkSafe(url)
    ensures RStrip(LStrip(Bracketed(url), '<'), '>') == url
  {
    assert Bracketed(url) == ['<'] + (url + ['>']);
    LStripCons('<', url + ['>']);
    if |url| > 0 {
      assert url[0] != '<';
      assert (url + ['>'])[0] == url[0];
    }
    assert LStrip(url + ['>'], '<') == url + ['>'];
    RStripSnoc(url, '>');
    if |url| > 0 {
      assert url[|url| - 1] != '>';
    }
  }

  /** The blank before the parameter strips off. */
  lemma StripRelParam(rel: string)
    ensures Strip(RelParam(rel), ' ') == "rel=" + Quoted(rel)
  {
    var b := "rel=" + Quoted(rel);
    assert RelParam(rel) == [' '] + b;
    LStripCons(' ', b);
    assert LStrip(b, ' ') == b;
    assert RStrip(b, ' ') == b;
  }

  /** The parameter splits at its one `=`. */
  lemma SplitRelEquals(rel: string)
    requires LinkSafe(rel)
    ensures Split("rel=" + Quoted(rel), '=') == ["rel", Quoted(rel)]
  {
    var q := Quoted(rel);
    assert "rel=" + q == "rel" + ['='] + q;
    assert '=' !in q;
    SplitFirstPiece("rel", '=', q);
    SplitNoSeparator(q, '=');
  }

  /** The quotes around a name strip off. */
  lemma StripQuoted(rel: string)
    requires LinkSafe(rel)
    ensures Strip(Quoted(rel), '"') == rel
  {
    assert Quoted(rel) == ['"'] + (rel + ['"']);
    LStripCons('"', rel + ['"']);
    RStripSnoc(rel, '"');
    if |rel| > 0 {
      assert rel[0] != '"' && rel[|rel| - 1] != '"';
      assert (rel + ['"'])[0] == rel[0];
      assert LStrip(rel + ['"'], '"') == rel + ['"'];
      assert RStrip(rel, '"') == rel;
    } else {
      assert rel + ['"'] == ['"'];
      LStripCons('"', []);
    }
  }

  /** `ParseLink` from the pieces it computes. */
  lemma ParseLinkOf(lstr: string, a: string, b: string, rel: string, url: string)
    requires Split(lstr, ';') == [a, b]
    requires RStrip(LStrip(Strip(a, ' '), '<'), '>') == url
    requires |Split(Strip(b, ' '), '=')| >= 2 && Strip(Split(Strip(b, ' '), '=')[1], '"') == rel
    ensures ParseLink(lstr) == Ok((rel, url))
  {
  }

  /** A rendered link-value splits at its one `;`. */
  lemma SplitRenderedLink(sp: string, rel: string, url: string)
    requires sp == "" || sp == " "
    requires LinkSafe(rel) && LinkSafe(url)
    ensures Split(sp + RenderLink(rel, url), ';') == [sp + Bracketed(url), RelParam(rel)]
  {
    var a := sp + Bracketed(url);
    var b := RelParam(rel);
    assert sp + RenderLink(rel, url) == a + [';'] + b;
    assert ';' !in a;
    assert ';' !in b;
    SplitFirstPiece(a, ';', b);
    SplitNoSeparator(b, ';');
  }

  /** A rendered link-value, with or without the blank of the separator,
      reads back as the pair it was rendered from. */
  lemma ParseRenderLink(sp: string, rel: string, url: string)
    requires sp == "" || sp == " "
    requires LinkSafe(rel) && LinkSafe(url)
    ensures ParseLink(sp + RenderLink(rel, url)) == Ok((rel, url))
  {
    SplitRenderedLink(sp, rel, url);
    StripBlank(sp, url);
    StripBrackets(url);
    StripRelParam(rel);
    SplitRelEquals(rel);
    StripQuoted(rel);
    ParseLinkOf(sp + RenderLink(rel, url), sp + Bracketed(url), RelParam(rel), rel, url);
  }

  /** Each rendered link-value reads back as its pair and holds no `,`. */
  lemma ParsePieces(links: seq<(string, string)>)
    requires forall j | 0 <= j < |links| :: LinkSafe(links[j].0) && LinkSafe(links[j].1)
    ensures forall j | 0 <= j < |links| ::
      ',' !in LinkPieces(links)[j] && ParseLink(LinkPieces(links)[j]) == Ok(links[j])
  {
    var pieces := LinkPieces(links);
    forall j | 0 <= j < |links|
      ensures ',' !in pieces[j] && ParseLink(pieces[j]) == Ok(links[j])
    {
      var sp := if j == 0 then "" else " ";
      ParseRenderLink(sp, links[j].0, links[j].1);
      RenderedLinkNoComma(sp, links[j].0, links[j].1);
      assert pieces[j] == sp + RenderLink(links[j].0, links[j].1);
    }
  }

  lemma RenderedLinkNoComma(sp: string, rel: string, url: string)
    requires sp == "" || sp == " "
    requires LinkSafe(rel) && LinkSafe(url)
    ensures ',' !in sp + RenderLink(rel, url)
  {
  }

  /** The rendered field splits into the rendered link-values, and each
      reads back as its pair. */
  lemma ParseRenderedField(links: seq<(string, string)>)
    requires |links| >= 1
    requires forall j | 0 <= j < |links| :: LinkSafe(links[j].0) && LinkSafe(links[j].1)
    ensures ParseLinkField(RenderLinks(links)) == Ok(links)
  {
    ParsePieces(links);
    SplitJoin(LinkPieces(links), ',');
    MapResultAll(ParseLink, LinkPieces(links), links);
  }

  /** A lone `Link` field is the one value collected. */
  lemma LoneLinkField(v: string)
    ensures LinkValues([(LinkField, v)]) == [v]
  {
    var h: Headers := [(LinkField, v)];
    assert IsLinkField(h[0].0);
    assert LinkValues(h[1..]) == [];
  }

  /** One `Link` field listing safe links reads back as those links (so
      each rel maps to the URL of its last occurrence, by `SetAllSpec`). */
  lemma LinkHeaderRoundTrip(links: seq<(string, string)>)
    requires |links| >= 1
    requires forall j | 0 <= j < |links| :: LinkSafe(links[j].0) && LinkSafe(links[j].1)
    ensures ParseLinkValues([RenderLinks(links)]) == Ok(links)
    ensures ParseLinkHeaders([(LinkField, RenderLinks(links))]) == Ok(SetAll([], links))
  {
    var v := RenderLinks(links);
    ParseRenderedField(links);
    LoneLinkField(v);
    ConcatMapResultOne(ParseLinkField, v);
  }

  // ---------------------------------------------------------------------
  // Following `rel="next"` pages

  /** What the server answers for one URL. */
  datatype Page = Page(status: int, headers: Headers, body: Value)

  const NextRel := "next"

  /** The page's `next` link, if it has one; a malformed `Link` field fails. */
  function NextLink(p: Page): Result<Option<string>>
  {
    var links :- ParseLinkHeaders(p.headers);
    Ok(Lookup(links, NextRel))
  }

  /** `target.extend(src)`: only a list has `extend` (`AttributeError`
      otherwise), and it appends whatever iterating `src` gives. */
  function Extend(target: Value, src: Value): (r: Result<Value>)
    ensures r.Ok? <==> target.List? && Iterate(src).Ok?
    ensures !target.List? ==> r == Err(AttributeError)
    ensures r.Ok? ==> r.value == List(target.items + Iterate(src).value)
  {
    if !target.List? then Err(AttributeError)
    else
      var xs :- Iterate(src);
      Ok(List(target.items + xs))
  }

  /** The recursion of `_do_request`, for any way `next` of reading a page's
      `next` link: fetch the page, read its link, and when there is one
      fetch that first and then extend this page's body with the result;
      the status returned is the one the recursion brings back. The
      recursion is bounded by `fuel` further pages, so a server whose links
      loop gives `OutOfFuel` instead of never returning. */
  function Paginate(fetch: string -> Page, next: Page -> Result<Option<string>>, url: string, fuel: nat)
    : (r: Result<(int, Value)>)
    decreases fuel
  {
    var page := fetch(url);
    var link :- next(page);
    match link
    case None => Ok((page.status, page.body))
    case Some(u) =>
      if fuel == 0 then Err(OutOfFuel)
      else
        var rest :- Paginate(fetch, next, u, fuel - 1);
        var body :- Extend(page.body, rest.1);
        Ok((rest.0, body))
  }

  /** `_do_request(verb, url)`: pages are linked by `parse_link_headers`. */
  function DoRequest(fetch: string -> Page, url: string, fuel: nat): Result<(int, Value)>
  {
    Paginate(fetch, NextLink, url, fuel)
  }

  /** `q` is what `fetch` answers for the `next` link of `p`. */
  predicate Follows(fetch: string -> Page, next: Page -> Result<Option<string>>, p: Page, q: Page)
  {
    next(p).Ok? && next(p).value.Some? && q == fetch(next(p).value.value)
  }

  /** The pages a request visits: the first is the answer for `url`, each
      later one is the answer for the `next` link of the one before, and
      the last is the first page without a `next` link. */
  function Chain(fetch: string -> Page, next: Page -> Result<Option<string>>, url: string, fuel: nat)
    : (r: Result<seq<Page>>)
    decreases fuel
    ensures r.Ok? ==> 1 <= |r.value| <= fuel + 1 && r.value[0] == fetch(url)
    ensures r.Ok? ==> forall i | 0 <= i < |r.value| - 1 :: Follows(fetch, next, r.value[i], r.value[i + 1])
    ensures r.Ok? ==> next(r.value[|r.value| - 1]) == Ok(None)
  {
    var page := fetch(url);
    var link :- next(page);
    match link
    case None => Ok([page])
    case Some(u) =>
      if fuel == 0 then Err(OutOfFuel)
      else
        var rest :- Chain(fetch, next, u, fuel - 1);
        Ok([page] + rest)
  }

  predicate AllLists(pages: seq<Page>)
  {
    forall i | 0 <= i < |pages| :: pages[i].body.List?
  }

  /** The items of every page, page after page. */
  function AllItems(pages: seq<Page>): seq<Value>
    requires AllLists(pages)
  {
    if |pages| == 0 then [] else pages[0].body.items + AllItems(pages[1..])
  }

  /** When every page's body is a list, the request returns the status of
      the last page and the items of all pages in link order. */
  lemma {:induction false} PaginateConcatenates(
    fetch: string -> Page, next: Page -> Result<Option<string>>, url: string, fuel: nat)
    requires Chain(fetch, next, url, fuel).Ok? && AllLists(Chain(fetch, next, url, fuel).value)
    decreases fuel
    ensures var pages := Chain(fetch, next, url, fuel).value;
      Paginate(fetch, next, url, fuel) == Ok((pages[|pages| - 1].status, List(AllItems(pages))))
  {
    var pages := Chain(fetch, next, url, fuel).value;
    var page := fetch(url);
    assert next(page).Ok?;
    match next(page).value
    case None =>
      assert pages == [page];
      assert AllItems(pages) == page.body.items + AllItems([]);
      assert page.body.items + [] == page.body.items;
    case Some(u) =>
      var rest := Chain(fetch, next, u, fuel - 1).value;
      assert pages == [page] + rest;
      assert pages[1..] == rest;
      assert AllLists(rest) by {
        forall i | 0 <= i < |rest|
          ensures rest[i].body.List?
        {
          assert rest[i] == pages[i + 1];
        }
      }
      PaginateConcatenates(fetch, next, u, fuel - 1);
  }

  /** A request fails the way its page chain fails, and a request that
      succeeds reports the status of the last page of the chain. */
  lemma {:induction false} PaginateStatus(
    fetch: string -> Page, next: Page -> Result<Option<string>>, url: string, fuel: nat)
    decreases fuel
    ensures Chain(fetch, next, url, fuel).Err? ==>
      Paginate(fetch, next, url, fuel) == Err(Chain(fetch, next, url, fuel).error)
    ensures Paginate(fetch, next, url, fuel).Ok? ==>
      var pages := Chain(fetch, next, url, fuel).value;
      && Chain(fetch, next, url, fuel).Ok?
      && Paginate(fetch, next, url, fuel).value.0 == pages[|pages| - 1].status
  {
    var page := fetch(url);
    if next(page).Ok? && next(page).value.Some? && fuel > 0 {
      var u := next(page).value.value;
      PaginateStatus(fetch, next, u, fuel - 1);
      if Chain(fetch, next, u, fuel - 1).Ok? {
        var rest := Chain(fetch, next, u, fuel - 1).value;
        assert Chain(fetch, next, url, fuel).value == [page] + rest;
      }
    }
  }

  /** `_do_request` over a chain of list pages returns the last page's
      status and all pages' items in link order; when it succeeds at all,
      the status is the last page's, whatever the bodies. */
  lemma DoRequestSpec(fetch: string -> Page, url: string, fuel: nat)
    ensures var c := Chain(fetch, NextLink, url, fuel);
      && (c.Err? ==> DoRequest(fetch, url, fuel) == Err(c.error))
      && (DoRequest(fetch, url, fuel).Ok? ==>
            c.Ok? && DoRequest(fetch, url, fuel).value.0 == c.value[|c.value| - 1].status)
      && (c.Ok? && AllLists(c.value) ==>
            DoRequest(fetch, url, fuel) == Ok((c.value[|c.value| - 1].status, List(AllItems(c.value)))))
  {
    PaginateStatus(fetch, NextLink, url, fuel);
    var c := Chain(fetch, NextLink, url, fuel);
    if c.Ok? && AllLists(c.value) {
      PaginateConcatenates(fetch, NextLink, url, fuel);
    }
  }

  // ---------------------------------------------------------------------
  // make_request

  const ApiEndpoint := "https://api.github.com"

  /** The full URL of an API path, the endpoint and the path joined by a
      slash: `'/'.join([API_ENDPOINT, path])`. */
  function ApiUrl(path: string): (url: string)
    ensures url == ApiEndpoint + "/" + path
  {
    assert [ApiEndpoint, path][1..] == [path];
    assert Join([path], '/') == path;
    Join([ApiEndpoint, path], '/')
  }

  /** Different paths are requested at different URLs. */
  lemma ApiUrlInjective(p: string, q: string)
    requires ApiUrl(p) == ApiUrl(q)
    ensures p == q
  {
    var n := |ApiEndpoint + "/"|;
    assert p == ApiUrl(p)[n..];
    assert q == ApiUrl(q)[n..];
  }

  const StatusOk := 200

  /** `make_request(verb, path)`: request the API URL of `path`, reject a
      final status other than 200, and rewrite the body's datetimes. */
  function MakeRequest(fetch: string -> Page, path: string, fuel: nat): (r: Result<Value>)
    ensures r.Ok? ==> Clean(r.value)
  {
    var resp :- DoRequest(fetch, ApiUrl(path), fuel);
    if resp.0 != StatusOk then Err(HttpStatus(resp.0)) else IterParse(resp.1)
  }

  /** Over a chain of list pages, `make_request` fails with the last page's
      status unless it is 200, and otherwise returns the concatenated items
      with their datetimes parsed. */
  lemma MakeRequestSpec(fetch: string -> Page, path: string, fuel: nat)
    requires Chain(fetch, NextLink, ApiUrl(path), fuel).Ok?
    requires AllLists(Chain(fetch, NextLink, ApiUrl(path), fuel).value)
    ensures var pages := Chain(fetch, NextLink, ApiUrl(path), fuel).value;
      var last := pages[|pages| - 1].status;
      && (last != StatusOk ==> MakeRequest(fetch, path, fuel) == Err(HttpStatus(last)))
      && (last == StatusOk ==> MakeRequest(fetch, path, fuel) == IterParse(List(AllItems(pages))))
  {
    DoRequestSpec(fetch, ApiUrl(path), fuel);
  }

  /** A first page without a `next` link is the whole answer, whatever the
      shape of its body: `make_request` fails with its status unless it is
      200, and otherwise returns its body with the datetimes parsed. The
      traffic endpoints answer this way, with one dict. */
  lemma SinglePage(fetch: string -> Page, path: string, fuel: nat)
    requires NextLink(fetch(ApiUrl(path))) == Ok(None)
    ensures var p := fetch(ApiUrl(path));
      MakeRequest(fetch, path, fuel) ==
        (if p.status != StatusOk then Err(HttpStatus(p.status)) else IterParse(p.body))
  {
  }

  // ---------------------------------------------------------------------
  // The session and its acquire counter

  /** How a new session authenticates: a token goes in an `Authorization`
      header; otherwise a username and password give basic auth. */
  datatype Auth =
    | Anonymous
    | TokenHeader(name: string, value: string)
    | BasicAuth(login: string, password: string)

  datatype Session = Session(auth: Auth, closed: bool)

  datatype Handler = Handler(
    username: Option<string>,
    password: Option<string>,
    token: Option<string>,
    session: Option<Session>,
    acquireCount: int)

  /** `RequestHandler(**kwargs)`: no session, nothing acquired. */
  function NewHandler(username: Option<string>, password: Option<string>, token: Option<string>): (h: Handler)
    ensures h.session.None? && h.acquireCount == 0
    ensures h.username == username && h.password == password && h.token == token
  {
    Handler(username, password, token, None, 0)
  }

  /** The authentication a new session gets: the token wins over a
      username and password, which are used only when both are given. */
  function AuthFor(h: Handler): (a: Auth)
    ensures a.TokenHeader? <==> h.token.Some?
    ensures a.BasicAuth? <==> h.token.None? && h.username.Some? && h.password.Some?
    ensures a.TokenHeader? ==> a == TokenHeader("Authorization", "token " + h.token.value)
    ensures a.BasicAuth? ==> a == BasicAuth(h.username.value, h.password.value)
  {
    if h.token.Some? then TokenHeader("Authorization", "token " + h.token.value)
    else if h.username.Some? && h.password.Some? then BasicAuth(h.username.value, h.password.value)
    else Anonymous
  }

  /** The `session` property: an open session is reused; a missing or
      closed one is replaced by a new session stored on the handler. */
  function SessionOf(h: Handler): (r: (Handler, Session))
    ensures r.0.session == Some(r.1) && !r.1.closed
    ensures r.0 == h.(session := Some(r.1))
    ensures h.session.Some? && !h.session.value.closed ==> r.1 == h.session.value
    ensures h.session.None? || h.session.value.closed ==> r.1 == Session(AuthFor(h), false)
  {
    if h.session.Some? && !h.session.value.closed then (h, h.session.value)
    else
      var s := Session(AuthFor(h), false);
      (h.(session := Some(s)), s)
  }

  /** `__aenter__`: count one more holder, then hand out the session. */
  function Enter(h: Handler): (r: (Handler, Session))
    ensures r.0.acquireCount == h.acquireCount + 1
    ensures r.0.session == Some(r.1) && !r.1.closed
  {
    SessionOf(h.(acquireCount := h.acquireCount + 1))
  }

  /** `__aexit__`: count one holder less; the last one out drops the session. */
  function Exit(h: Handler): (r: Handler)
    ensures r.acquireCount == h.acquireCount - 1
    ensures r.session.None? <==> h.acquireCount == 1 || h.session.None?
    ensures r.session.Some? ==> r.session == h.session
  {
    var c := h.acquireCount - 1;
    if c == 0 then h.(acquireCount := c, session := None) else h.(acquireCount := c)
  }

  /** A balanced enter and exit restores the count; the session survives
      exactly when someone else still holds it. */
  lemma EnterExit(h: Handler)
    ensures var (h1, s) := Enter(h);
      && Exit(h1).acquireCount == h.acquireCount
      && Exit(h1).session == (if h.acquireCount == 0 then None else Some(s))
  {
  }

  datatype Op = Acquire | Release

  /** The handler after `ops`, one after the other. */
  function Run(h: Handler, ops: seq<Op>): Handler
  {
    if |ops| == 0 then h
    else
      var g := Run(h, ops[..|ops| - 1]);
      if ops[|ops| - 1] == Acquire then Enter(g).0 else Exit(g)
  }

  /** Acquisitions minus releases. */
  function Balance(ops: seq<Op>): int
  {
    if |ops| == 0 then 0
    else Balance(ops[..|ops| - 1]) + (if ops[|ops| - 1] == Acquire then 1 else -1)
  }

  /** The count moves by the balance of the operations. */
  lemma {:induction false} RunCount(h: Handler, ops: seq<Op>)
    ensures Run(h, ops).acquireCount == h.acquireCount + Balance(ops)
  {
    if |ops| > 0 {
      RunCount(h, ops[..|ops| - 1]);
    }
  }

  /** While the count never drops to 0 an open session is kept throughout. */
  lemma {:induction false} RunKeepsSession(h: Handler, ops: seq<Op>)
    requires h.session.Some? && !h.session.value.closed
    requires forall k | 0 <= k <= |ops| :: h.acquireCount + Balance(ops[..k]) >= 1
    ensures Run(h, ops).session == h.session
  {
    if |ops| > 0 {
      var init := ops[..|ops| - 1];
      assert forall k | 0 <= k <= |init| :: init[..k] == ops[..k];
      RunKeepsSession(h, init);
      RunCount(h, init);
      assert ops[..|ops|] == ops;
    }
  }

  /** A release that brings the count to 0 drops the session. */
  lemma RunDropsAtZero(h: Handler, ops: seq<Op>)
    requires |ops| > 0 && ops[|ops| - 1] == Release
    requires h.acquireCount + Balance(ops) == 0
    ensures Run(h, ops).session.None?
  {
    RunCount(h, ops[..|ops| - 1]);
  }
}
