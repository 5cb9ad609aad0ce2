/** The API objects of `ghstats/traffic.py`: the repository list, each
    repository, and the traffic snapshots (views and popular paths) taken of
    a repository, with the API paths they are fetched from and the
    JSON-ready form `json_encode` gives them.

    Python mutates these objects in place; here each operation returns the
    updated object. Requests go through `Requests.MakeRequest` with the
    handler's network as the `fetch` parameter. */
module Traffic {
  import opened Base
  import opened PyStr
  import opened PyDict
  import opened Calendar
  import opened Values
  import opened Requests
  import JsonHandler

  // ---------------------------------------------------------------------
  // Objects

  /** The `request_handler` an object talks through; only its identity matters. */
  datatype HandlerRef = HandlerRef(id: nat)

  datatype RepoId = RepoId(owner: string, name: string)

  /** `RepoTrafficViews`: `total_views` and `total_uniques` are `None`
      (`Null`) and `timeline` is `[]` until the fetch fills them. */
  datatype Views = Views(
    repo: RepoId,
    per: string,
    handler: HandlerRef,
    totalViews: Value,
    totalUniques: Value,
    timeline: Value,
    datetime: DateTime)

  /** `RepoTrafficPaths`: `data` is `[]` until the fetch fills it. */
  datatype Paths = Paths(repo: RepoId, handler: HandlerRef, datetime: DateTime, data: Value)

  /** `Repo`: `traffic_views` and `traffic_paths` start as the empty dict
      `{}` (`None` here) and later hold the latest snapshot. */
  datatype Repo = Repo(id: RepoId, handler: HandlerRef, views: Option<Views>, paths: Option<Paths>)

  /** `AllRepos`: the repositories keyed by API path. */
  datatype AllRepos = AllRepos(handler: HandlerRef, repos: Dict<string, Repo>)

  // ---------------------------------------------------------------------
  // API paths

  const AllReposPath := "user/repos"

  function RepoPath(id: RepoId): string
  {
    "repos/" + id.owner + "/" + id.name
  }

  function ViewsPath(id: RepoId): string
  {
    RepoPath(id) + "/traffic/views"
  }

  function PathsPath(id: RepoId): string
  {
    RepoPath(id) + "/traffic/popular/paths"
  }

  /** A path segment: no `/`. */
  predicate Segment(s: string)
  {
    '/' !in s
  }

  predicate PlainId(id: RepoId)
  {
    Segment(id.owner) && Segment(id.name)
  }

  lemma RepoPathJoin(id: RepoId)
    ensures RepoPath(id) == Join(["repos", id.owner, id.name], '/')
  {
    JoinSnoc(["repos"], id.owner, '/');
    assert ["repos"] + [id.owner] == ["repos", id.owner];
    JoinSnoc(["repos", id.owner], id.name, '/');
    assert ["repos", id.owner] + [id.name] == ["repos", id.owner, id.name];
  }

  lemma ViewsPathJoin(id: RepoId)
    ensures ViewsPath(id) == Join(["repos", id.owner, id.name, "traffic", "views"], '/')
  {
    var p := ["repos", id.owner, id.name];
    RepoPathJoin(id);
    JoinSnoc(p, "traffic", '/');
    JoinSnoc(p + ["traffic"], "views", '/');
    assert p + ["traffic"] + ["views"] == ["repos", id.owner, id.name, "traffic", "views"];
  }

  lemma PathsPathJoin(id: RepoId)
    ensures PathsPath(id) == Join(["repos", id.owner, id.name, "traffic", "popular", "paths"], '/')
  {
    var p := ["repos", id.owner, id.name];
    RepoPathJoin(id);
    JoinSnoc(p, "traffic", '/');
    JoinSnoc(p + ["traffic"], "popular", '/');
    JoinSnoc(p + ["traffic"] + ["popular"], "paths", '/');
    assert p + ["traffic"] + ["popular"] + ["paths"]
      == ["repos", id.owner, id.name, "traffic", "popular", "paths"];
  }

  /** Split at `/`, each path gives back the segments it was built from. */
  lemma RepoPathSegments(id: RepoId)
    requires PlainId(id)
    ensures Split(RepoPath(id), '/') == ["repos", id.owner, id.name]
  {
    RepoPathJoin(id);
    SplitJoin(["repos", id.owner, id.name], '/');
  }

  lemma ViewsPathSegments(id: RepoId)
    requires PlainId(id)
    ensures Split(ViewsPath(id), '/') == ["repos", id.owner, id.name, "traffic", "views"]
  {
    ViewsPathJoin(id);
    SplitJoin(["repos", id.owner, id.name, "traffic", "views"], '/');
  }

  lemma PathsPathSegments(id: RepoId)
    requires PlainId(id)
    ensures Split(PathsPath(id), '/') == ["repos", id.owner, id.name, "traffic", "popular", "paths"]
  {
    PathsPathJoin(id);
    SplitJoin(["repos", id.owner, id.name, "traffic", "popular", "paths"], '/');
  }

  lemma AllReposPathSegments()
    ensures Split(AllReposPath, '/') == ["user", "repos"]
  {
    var a, b := "user", "repos";
    assert AllReposPath == a + "/" + b;
    TwoSegments(a, b);
  }

  lemma TwoSegments(a: string, b: string)
    requires Segment(a) && Segment(b)
    ensures Split(a + "/" + b, '/') == [a, b]
  {
    SplitFirstPiece(a, '/', b);
    SplitNoSeparator(b, '/');
  }

  /** For owners and names without `/`, the four kinds of path never meet,
      and each kind determines the repository. */
  lemma ApiPathsDistinct(a: RepoId, b: RepoId)
    requires PlainId(a) && PlainId(b)
    ensures RepoPath(a) == RepoPath(b) ==> a == b
    ensures ViewsPath(a) == ViewsPath(b) ==> a == b
    ensures PathsPath(a) == PathsPath(b) ==> a == b
    ensures RepoPath(a) != ViewsPath(b) && RepoPath(a) != PathsPath(b) && ViewsPath(a) != PathsPath(b)
    ensures RepoPath(a) != AllReposPath && ViewsPath(a) != AllReposPath && PathsPath(a) != AllReposPath
  {
    RepoPathSegments(a);
    RepoPathSegments(b);
    ViewsPathSegments(a);
    ViewsPathSegments(b);
    PathsPathSegments(a);
    PathsPathSegments(b);
    AllReposPathSegments();
  }

  // ---------------------------------------------------------------------
  // AllRepos.get_repos

  /** `Repo(owner=..., name=..., request_handler=...)`: no snapshot yet. */
  function NewRepo(id: RepoId, h: HandlerRef): Repo
  {
    Repo(id, h, None, None)
  }

  /** The value a dict holds under a string key; nothing for a missing key
      or a value that is not a dict. */
  ghost function Field(o: Value, key: string): Option<Value>
  {
    if o.Dict? then Lookup(o.entries, SKey(key)) else None
  }

  /** One element of the listing: `repo_data['owner']['login']` and
      `repo_data['name']`. It is read exactly when both are present and
      strings, and the identifier holds those two strings; otherwise the
      failure is the `KeyError` or `TypeError` of the subscript that failed. */
  function RepoEntry(e: Value): (r: Result<RepoId>)
    ensures r.Ok? <==>
      && Field(e, "owner").Some?
      && Field(Field(e, "owner").value, "login").Some?
      && Field(Field(e, "owner").value, "login").value.Str?
      && Field(e, "name").Some?
      && Field(e, "name").value.Str?
    ensures r.Ok? ==>
      && Field(e, "name") == Some(Str(r.value.name))
      && Field(e, "owner").Some?
      && Field(Field(e, "owner").value, "login") == Some(Str(r.value.owner))
    ensures r.Err? ==> r.error == KeyError || r.error == TypeError
  {
    var owner :- Subscript(e, "owner");
    var login :- Subscript(owner, "login");
    var name :- Subscript(e, "name");
    if !login.Str? || !name.Str? then Err(TypeError) else Ok(RepoId(login.s, name.s))
  }

  /** The assignments `get_repos` makes, one per listed repository in
      listing order: its API path to a fresh `Repo` sharing the handler
      (`self.repos[repo.api_path] = repo`). */
  function RepoAssignments(ids: seq<RepoId>, h: HandlerRef): (ps: seq<(string, Repo)>)
    ensures |ps| == |ids|
    ensures forall i | 0 <= i < |ids| :: ps[i] == (RepoPath(ids[i]), NewRepo(ids[i], h))
  {
    seq(|ids|, i requires 0 <= i < |ids| => (RepoPath(ids[i]), NewRepo(ids[i], h)))
  }

  /** The loop of `get_repos` over a listing already fetched. */
  function ReposFrom(a: AllRepos, listing: Value): (r: Result<AllRepos>)
    ensures r.Ok? ==> r.value.handler == a.handler
  {
    var items :- Iterate(listing);
    var ids :- MapResult(RepoEntry, items);
    Ok(a.(repos := SetAll(a.repos, RepoAssignments(ids, a.handler))))
  }

  /** `get_repos`: fetch `user/repos` and add one repository per element.
      The returned map is the one the object now holds. */
  function GetRepos(a: AllRepos, fetch: string -> Page, fuel: nat): (r: Result<AllRepos>)
    ensures r.Ok? ==> r.value.handler == a.handler
  {
    var listing :- MakeRequest(fetch, AllReposPath, fuel);
    ReposFrom(a, listing)
  }

  /** The listing is read in full: it fails exactly when it is not
      iterable or some element lacks a string `owner.login` or `name`. */
  lemma ReposFromFails(a: AllRepos, listing: Value)
    ensures ReposFrom(a, listing).Err? <==>
      Iterate(listing).Err? ||
      exists j | 0 <= j < |Iterate(listing).value| :: RepoEntry(Iterate(listing).value[j]).Err?
  {
  }

  /** After `get_repos`: keys stay unique, no repository held before is
      dropped, every listed repository with a plain owner and name is held
      under its API path as a fresh `Repo` sharing the listing's handler,
      and keys no listed repository maps to are untouched. */
  lemma ReposFromSpec(a: AllRepos, listing: Value)
    requires UniqueKeys(a.repos)
    requires ReposFrom(a, listing).Ok?
    ensures var ids := MapResult(RepoEntry, Iterate(listing).value).value;
      var after := ReposFrom(a, listing).value.repos;
      && UniqueKeys(after)
      && (forall k | HasKey(a.repos, k) :: HasKey(after, k))
      && (forall j | 0 <= j < |ids| && PlainId(ids[j]) ::
            Lookup(after, RepoPath(ids[j])) == Some(NewRepo(ids[j], a.handler)))
      && (forall k | (forall j | 0 <= j < |ids| :: RepoPath(ids[j]) != k) ::
            Lookup(after, k) == Lookup(a.repos, k))
  {
    var ids := MapResult(RepoEntry, Iterate(listing).value).value;
    ReposFromAssigns(a, listing);
    AssignReposSpec(a.repos, ids, a.handler);
  }

  lemma ReposFromAssigns(a: AllRepos, listing: Value)
    requires ReposFrom(a, listing).Ok?
    ensures ReposFrom(a, listing).value.repos ==
      SetAll(a.repos, RepoAssignments(MapResult(RepoEntry, Iterate(listing).value).value, a.handler))
  {
  }

  /** The assignments of `get_repos`, for any list of repositories. */
  lemma AssignReposSpec(d: Dict<string, Repo>, ids: seq<RepoId>, h: HandlerRef)
    requires UniqueKeys(d)
    ensures var after := SetAll(d, RepoAssignments(ids, h));
      && UniqueKeys(after)
      && (forall k | HasKey(d, k) :: HasKey(after, k))
      && (forall j | 0 <= j < |ids| && PlainId(ids[j]) ::
            Lookup(after, RepoPath(ids[j])) == Some(NewRepo(ids[j], h)))
      && (forall k | (forall j | 0 <= j < |ids| :: RepoPath(ids[j]) != k) ::
            Lookup(after, k) == Lookup(d, k))
  {
    var ps := RepoAssignments(ids, h);
    SetAllSpec(d, ps);
    SetAllKeeps(d, ps);
    forall j | 0 <= j < |ids| && PlainId(ids[j])
      ensures Lookup(SetAll(d, ps), RepoPath(ids[j])) == Some(NewRepo(ids[j], h))
    {
      ListedRepoHeld(ids, h, j);
    }
    forall k | (forall j | 0 <= j < |ids| :: RepoPath(ids[j]) != k)
      ensures Lookup(SetAll(d, ps), k) == Lookup(d, k)
    {
      assert forall j | 0 <= j < |ps| :: ps[j].0 != k;
    }
  }

  /** The last assignment to the path of a plain repository stores that repository. */
  lemma ListedRepoHeld(ids: seq<RepoId>, h: HandlerRef, j: int)
    requires 0 <= j < |ids| && PlainId(ids[j])
    ensures LastWith(RepoAssignments(ids, h), RepoPath(ids[j])) == Some(NewRepo(ids[j], h))
  {
    var ps := RepoAssignments(ids, h);
    var k := RepoPath(ids[j]);
    assert ps[j].0 == k;
    var v := LastWith(ps, k).value;
    var i :| 0 <= i < |ps| && ps[i] == (k, v) && forall j' | i < j' < |ps| :: ps[j'].0 != k;
    RepoPathPlain(ids[i], ids[j]);
  }

  /** A path built from a plain owner and name comes only from that pair. */
  lemma RepoPathPlain(a: RepoId, b: RepoId)
    requires PlainId(b) && RepoPath(a) == RepoPath(b)
    ensures a == b
  {
    RepoPathSegments(b);
    RepoPathSlashes(a);
    CountAbsent(a.owner, '/');
    CountAbsent(a.name, '/');
    ApiPathsDistinct(a, b);
  }

  /** A repository path holds two `/` besides those of the owner and name. */
  lemma RepoPathSlashes(id: RepoId)
    ensures Count(RepoPath(id), '/') == 2 + Count(id.owner, '/') + Count(id.name, '/')
  {
    var p := "repos/";
    var q := "/";
    assert RepoPath(id) == (p + id.owner) + (q + id.name);
    CountAppend(p + id.owner, q + id.name, '/');
    CountAppend(p, id.owner, '/');
    CountAppend(q, id.name, '/');
    SlashCount(p, q);
  }

  lemma SlashCount(p: string, q: string)
    requires p == "repos/" && q == "/"
    ensures Count(p, '/') == 1 && Count(q, '/') == 1
  {
    var r := "repos";
    assert p == r + q;
    CountAppend(r, q, '/');
    CountAbsent(r, '/');
    assert q[1..] == [];
  }

  // ---------------------------------------------------------------------
  // Traffic snapshots

  /** `RepoTrafficViews(repo=repo, per=per, datetime=now)` before any fetch. */
  function PendingViews(repo: Repo, per: string, now: DateTime): Views
  {
    Views(repo.id, per, repo.handler, Null, Null, List([]), now)
  }

  /** `RepoTrafficViews.get_data` on a response already fetched: the three
      fields are assigned one after the other, so a failing lookup leaves
      the earlier ones assigned. */
  function FillViews(v: Views, resp: Value): (r: (Views, Result<()>))
    ensures r.0.repo == v.repo && r.0.per == v.per && r.0.handler == v.handler
    ensures r.0.datetime == v.datetime
    ensures r.1.Ok? <==>
      && resp.Dict?
      && HasKey(resp.entries, SKey("count"))
      && HasKey(resp.entries, SKey("uniques"))
      && HasKey(resp.entries, SKey("views"))
    ensures r.1.Ok? ==>
      && Lookup(resp.entries, SKey("count")) == Some(r.0.totalViews)
      && Lookup(resp.entries, SKey("uniques")) == Some(r.0.totalUniques)
      && Lookup(resp.entries, SKey("views")) == Some(r.0.timeline)
  {
    match Subscript(resp, "count")
    case Err(e) => (v, Err(e))
    case Ok(count) =>
      var v1 := v.(totalViews := count);
      match Subscript(resp, "uniques")
      case Err(e) => (v1, Err(e))
      case Ok(uniques) =>
        var v2 := v1.(totalUniques := uniques);
        match Subscript(resp, "views")
        case Err(e) => (v2, Err(e))
        case Ok(views) => (v2.(timeline := views), Ok(()))
  }

  /** `Repo.get_traffic_views(per, now)`: the new snapshot is attached to
      the repository before its fetch runs; the repository ends up holding
      the snapshot in whatever state the fetch left it. */
  function GetTrafficViews(repo: Repo, per: string, now: DateTime, fetch: string -> Page, fuel: nat)
    : (r: (Repo, Result<Views>))
    ensures r.0.id == repo.id && r.0.handler == repo.handler && r.0.paths == repo.paths
    ensures r.0.views.Some?
    ensures r.0.views.value.repo == repo.id && r.0.views.value.handler == repo.handler
    ensures r.0.views.value.datetime == now && r.0.views.value.per == per
    ensures r.1.Ok? ==> r.0.views == Some(r.1.value)
    ensures MakeRequest(fetch, ViewsPath(repo.id), fuel).Err? ==>
      r.0.views == Some(PendingViews(repo, per, now)) && r.1 == Err(MakeRequest(fetch, ViewsPath(repo.id), fuel).error)
  {
    var tv := PendingViews(repo, per, now);
    match MakeRequest(fetch, ViewsPath(repo.id), fuel)
    case Err(e) => (repo.(views := Some(tv)), Err(e))
    case Ok(resp) =>
      var filled := FillViews(tv, resp);
      (repo.(views := Some(filled.0)), if filled.1.Ok? then Ok(filled.0) else Err(filled.1.error))
  }

  /** `RepoTrafficPaths(repo=repo, datetime=now)` before any fetch. */
  function PendingPaths(repo: Repo, now: DateTime): Paths
  {
    Paths(repo.id, repo.handler, now, List([]))
  }

  /** `Repo.get_traffic_paths(now)`: attach the snapshot, then store the
      response unchanged in `data`. */
  function GetTrafficPaths(repo: Repo, now: DateTime, fetch: string -> Page, fuel: nat)
    : (r: (Repo, Result<Paths>))
    ensures r.0.id == repo.id && r.0.handler == repo.handler && r.0.views == repo.views
    ensures r.0.paths.Some?
    ensures r.0.paths.value.repo == repo.id && r.0.paths.value.handler == repo.handler
    ensures r.0.paths.value.datetime == now
    ensures r.1.Ok? <==> MakeRequest(fetch, PathsPath(repo.id), fuel).Ok?
    ensures r.1.Ok? ==> r.0.paths == Some(r.1.value)
    ensures r.1.Ok? ==> r.1.value.data == MakeRequest(fetch, PathsPath(repo.id), fuel).value
    ensures r.1.Err? ==> r.0.paths == Some(PendingPaths(repo, now))
  {
    var tp := PendingPaths(repo, now);
    match MakeRequest(fetch, PathsPath(repo.id), fuel)
    case Err(e) => (repo.(paths := Some(tp)), Err(e))
    case Ok(resp) =>
      var filled := tp.(data := resp);
      (repo.(paths := Some(filled)), Ok(filled))
  }

  // ---------------------------------------------------------------------
  // _serialize and json_encode

  datatype ApiObj =
    | AllReposObj(all: AllRepos)
    | RepoObj(repo: Repo)
    | ViewsObj(views: Views)
    | PathsObj(paths: Paths)

  function ClassName(o: ApiObj): string
  {
    match o
    case AllReposObj(_) => "AllRepos"
    case RepoObj(_) => "Repo"
    case ViewsObj(_) => "RepoTrafficViews"
    case PathsObj(_) => "RepoTrafficPaths"
  }

  /** `_serialize_attrs` of each class. */
  function SerializeAttrs(o: ApiObj): seq<string>
  {
    match o
    case AllReposObj(_) => ["repos"]
    case RepoObj(_) => ["owner", "name", "traffic_views", "traffic_paths"]
    case ViewsObj(_) => ["total_views", "total_uniques", "timeline", "datetime"]
    case PathsObj(_) => ["data", "datetime"]
  }

  /** How deep the object graph below an object goes. */
  function Level(o: ApiObj): nat
  {
    match o
    case AllReposObj(_) => 3
    case RepoObj(_) => 2
    case _ => 1
  }

  /** `getattr(o, attr)`, with nested API objects in their encoded form
      (the encoder is applied to them in turn) and an unset snapshot as `{}`. */
  function Attr(o: ApiObj, attr: string): Value
    decreases Level(o), 0
  {
    match o
    case AllReposObj(a) =>
      Dict(seq(|a.repos|, i requires 0 <= i < |a.repos| =>
        (SKey(a.repos[i].0), Encode(RepoObj(a.repos[i].1)))))
    case RepoObj(r) =>
      if attr == "owner" then Str(r.id.owner)
      else if attr == "name" then Str(r.id.name)
      else if attr == "traffic_views" then
        (match r.views case None => Dict([]) case Some(v) => Encode(ViewsObj(v)))
      else (match r.paths case None => Dict([]) case Some(p) => Encode(PathsObj(p)))
    case ViewsObj(v) =>
      if attr == "total_views" then v.totalViews
      else if attr == "total_uniques" then v.totalUniques
      else if attr == "timeline" then v.timeline
      else Dt(v.datetime)
    case PathsObj(p) =>
      if attr == "data" then p.data else Dt(p.datetime)
  }

  /** `_serialize`: one entry per serialized attribute, in declaration order. */
  function Serialize(o: ApiObj): (d: Dict<Key, Value>)
    decreases Level(o), 1
  {
    var attrs := SerializeAttrs(o);
    seq(|attrs|, i requires 0 <= i < |attrs| => (SKey(attrs[i]), Attr(o, attrs[i])))
  }

  /** The JSON form of an API object: a dict naming its class under
      `__class__`, followed by its serialized fields
      (`d = {'__class__': name}; d.update(o._serialize())`). */
  function Encode(o: ApiObj): Value
    decreases Level(o), 2
  {
    Dict([(SKey(JsonHandler.ClassKey), Str(ClassName(o)))] + Serialize(o))
  }

  /** What `json_encode` is given: an API object or anything else. */
  datatype Encodable = Api(obj: ApiObj) | Other(v: Value)

  /** `json_encode`: API objects are encoded, anything else gives `None`. */
  function JsonEncode(x: Encodable): (r: Option<Value>)
    ensures r.Some? <==> x.Api?
    ensures r.Some? ==> r.value.Dict?
  {
    match x
    case Api(o) => Some(Encode(o))
    case Other(_) => None
  }

  /** The serialized attributes of a class are distinct and never the class marker. */
  lemma SerializeAttrsDistinct(o: ApiObj)
    ensures Distinct(SerializeAttrs(o))
    ensures forall i | 0 <= i < |SerializeAttrs(o)| :: |SerializeAttrs(o)[i]| != |JsonHandler.ClassKey|
  {
    match o
    case RepoObj(_) =>
      assert "traffic_views"[8] != "traffic_paths"[8];
    case ViewsObj(_) =>
      assert "timeline"[0] != "datetime"[0];
    case _ =>
  }

  /** The encoded object has exactly the class marker and the serialized
      attributes as keys, each once, with the class name under the marker
      and each attribute's value under its name. */
  lemma EncodeSpec(o: ApiObj)
    ensures var d := Encode(o).entries;
      && KeysOf(d) == [SKey(JsonHandler.ClassKey)] +
           seq(|SerializeAttrs(o)|, i requires 0 <= i < |SerializeAttrs(o)| => SKey(SerializeAttrs(o)[i]))
      && UniqueKeys(d)
      && Lookup(d, SKey(JsonHandler.ClassKey)) == Some(Str(ClassName(o)))
      && forall i | 0 <= i < |SerializeAttrs(o)| ::
           Lookup(d, SKey(SerializeAttrs(o)[i])) == Some(Attr(o, SerializeAttrs(o)[i]))
  {
    var attrs := SerializeAttrs(o);
    var ser := Serialize(o);
    var keys := seq(|attrs|, i requires 0 <= i < |attrs| => SKey(attrs[i]));
    SerializeAttrsDistinct(o);
    EncodeShape(o);
    assert SKey(JsonHandler.ClassKey) !in keys;
    MarkedEntries(SKey(JsonHandler.ClassKey), Str(ClassName(o)), keys, ser);
  }

  lemma EncodeShape(o: ApiObj)
    ensures Encode(o).entries == [(SKey(JsonHandler.ClassKey), Str(ClassName(o)))] + Serialize(o)
    ensures var attrs := SerializeAttrs(o);
      |Serialize(o)| == |attrs| && forall i | 0 <= i < |attrs| :: Serialize(o)[i] == (SKey(attrs[i]), Attr(o, attrs[i]))
  {
  }

  /** A dict whose distinct keys follow a marker key it does not repeat. */
  lemma MarkedEntries(marker: Key, cls: Value, keys: seq<Key>, ser: Dict<Key, Value>)
    requires |ser| == |keys| && forall i | 0 <= i < |keys| :: ser[i].0 == keys[i]
    requires Distinct(keys) && marker !in keys
    ensures var d := [(marker, cls)] + ser;
      && KeysOf(d) == [marker] + keys
      && UniqueKeys(d)
      && Lookup(d, marker) == Some(cls)
      && forall i | 0 <= i < |keys| :: Lookup(d, keys[i]) == Some(ser[i].1)
  {
    assert KeysOf(ser) == keys;
    ConsFresh(marker, cls, ser);
  }
}
