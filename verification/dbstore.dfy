/** The document-store helpers of `DbStore`: `get_doc`, `add_doc`,
    `add_doc_if_missing` and `update_doc`, over one in-memory collection.
    A collection is a sequence of documents in insertion order, which is
    taken as the server's natural order; a filter matches a document when
    every field it names is present with an equal value. The store's own
    operations (`find_one`, `count`, `insert_one`, `replace_one`) are
    modelled over that field-equality match, not the server's full query
    language. */
module DbStore {
  import opened Base
  import opened PyDict
  import opened Values

  type Doc = Dict<string, Value>
  type Filter = Dict<string, Value>
  type Collection = seq<Doc>

  /** The primary-key field every stored document carries. */
  const IdField := "_id"

  function IdOf(doc: Doc): Option<Value>
  {
    Lookup(doc, IdField)
  }

  /** Field equality: every field of the filter is present with that value. */
  predicate Matches(doc: Doc, filt: Filter)
  {
    forall i | 0 <= i < |filt| :: Lookup(doc, filt[i].0) == Some(filt[i].1)
  }

  /** What the server keeps true of a collection: documents are dicts, each
      has an `_id`, and no two share one (the unique primary index). */
  predicate ValidCollection(c: Collection)
  {
    && (forall i | 0 <= i < |c| :: UniqueKeys(c[i]) && IdOf(c[i]).Some?)
    && (forall i, j | 0 <= i < j < |c| :: IdOf(c[i]) != IdOf(c[j]))
  }

  // ---------------------------------------------------------------------
  // Queries

  /** The first position whose element satisfies `p`. */
  function FirstWhere<T>(xs: seq<T>, p: T -> bool): (r: Option<nat>)
    ensures r.None? <==> forall i | 0 <= i < |xs| :: !p(xs[i])
    ensures r.Some? ==> r.value < |xs| && p(xs[r.value])
    ensures r.Some? ==> forall i | 0 <= i < r.value :: !p(xs[i])
  {
    if |xs| == 0 then None
    else if p(xs[0]) then Some(0)
    else
      assert forall i | 1 <= i < |xs| :: xs[i] == xs[1..][i - 1];
      match FirstWhere(xs[1..], p)
      case None => None
      case Some(i) => Some(i + 1)
  }

  /** The position of the first matching document in natural order. */
  function FirstMatch(c: Collection, filt: Filter): (r: Option<nat>)
    ensures r.None? <==> forall i | 0 <= i < |c| :: !Matches(c[i], filt)
    ensures r.Some? ==> r.value < |c| && Matches(c[r.value], filt)
    ensures r.Some? ==> forall i | 0 <= i < r.value :: !Matches(c[i], filt)
  {
    FirstWhere(c, d => Matches(d, filt))
  }

  /** `count(filt)`: how many documents match. */
  function CountMatches(c: Collection, filt: Filter): (n: nat)
    ensures n <= |c|
    ensures n == 0 <==> forall i | 0 <= i < |c| :: !Matches(c[i], filt)
  {
    if |c| == 0 then 0
    else
      var rest := CountMatches(c[1..], filt);
      assert forall i | 1 <= i < |c| :: c[i] == c[1..][i - 1];
      (if Matches(c[0], filt) then 1 else 0) + rest
  }

  /** `get_doc` (`find_one(filt)`): the first matching document, if any. */
  function GetDoc(c: Collection, filt: Filter): (r: Option<Doc>)
    ensures r.Some? <==> exists i | 0 <= i < |c| :: Matches(c[i], filt)
    ensures r.Some? ==> Matches(r.value, filt)
    ensures r.Some? ==> exists i | 0 <= i < |c| :: c[i] == r.value && forall j | 0 <= j < i :: !Matches(c[j], filt)
  {
    match FirstMatch(c, filt)
    case None => None
    case Some(i) => Some(c[i])
  }

  // ---------------------------------------------------------------------
  // Writes

  /** What a write reports: the id of an inserted document, the match count
      `add_doc_if_missing` returns instead of inserting, or how many
      documents a replacement matched. */
  datatype Reply = Inserted(id: Value) | Existing(count: nat) | Replaced(matched: nat)

  /** The id a document is stored under: its own `_id`, or the id the
      driver generates for it (`gen`). */
  function NewId(doc: Doc, gen: Value): Value
  {
    match IdOf(doc)
    case Some(id) => id
    case None => gen
  }

  /** The document as stored: the given one, with `_id` put first when missing. */
  function WithId(doc: Doc, gen: Value): Doc
  {
    match IdOf(doc)
    case Some(_) => doc
    case None => [(IdField, gen)] + doc
  }

  /** `insert_one(doc)`: appended with its id; a taken id is refused. */
  function InsertOne(c: Collection, doc: Doc, gen: Value): (r: Result<(Collection, Reply)>)
    ensures r.Ok? <==> forall i | 0 <= i < |c| :: IdOf(c[i]) != Some(NewId(doc, gen))
    ensures r.Err? ==> r.error == DuplicateKey
    ensures r.Ok? ==> |r.value.0| == |c| + 1 && r.value.0[..|c|] == c
    ensures r.Ok? ==> r.value.0[|c|] == WithId(doc, gen) && r.value.1 == Inserted(NewId(doc, gen))
  {
    var id := NewId(doc, gen);
    if exists i | 0 <= i < |c| :: IdOf(c[i]) == Some(id) then Err(DuplicateKey)
    else
      var c' := c + [WithId(doc, gen)];
      assert c'[..|c|] == c;
      Ok((c', Inserted(id)))
  }

  /** Inserting one document into a collection: `add_doc(collection_name, doc)`. */
  function AddDoc(c: Collection, doc: Doc, gen: Value): (r: Result<(Collection, Reply)>)
    ensures r.Ok? ==> |r.value.0| == |c| + 1
    ensures r.Ok? ==> forall i | 0 <= i < |c| :: r.value.0[i] == c[i]
    ensures r.Err? <==> exists i | 0 <= i < |c| :: IdOf(c[i]) == Some(NewId(doc, gen))
  {
    InsertOne(c, doc, gen)
  }

  /** `add_doc_if_missing`: the match count when something matches,
      otherwise an insertion. */
  function AddDocIfMissing(c: Collection, filt: Filter, doc: Doc, gen: Value)
    : (r: Result<(Collection, Reply)>)
    ensures (exists i | 0 <= i < |c| :: Matches(c[i], filt)) ==>
      r == Ok((c, Existing(CountMatches(c, filt))))
    ensures (forall i | 0 <= i < |c| :: !Matches(c[i], filt)) ==> r == AddDoc(c, doc, gen)
  {
    var existing := CountMatches(c, filt);
    if existing != 0 then Ok((c, Existing(existing)))
    else AddDoc(c, doc, gen)
  }

  /** `replace_one(filt, doc)`: the first match gets the new body and keeps
      its `_id`; a body naming another `_id` is refused, and nothing
      happens when nothing matches. */
  function ReplaceOne(c: Collection, filt: Filter, doc: Doc): (r: Result<(Collection, Reply)>)
    ensures FirstMatch(c, filt).None? ==> r == Ok((c, Replaced(0)))
    ensures r.Ok? ==> |r.value.0| == |c|
  {
    match FirstMatch(c, filt)
    case None => Ok((c, Replaced(0)))
    case Some(j) =>
      match IdOf(c[j])
      case None => Ok((c[j := doc], Replaced(1)))
      case Some(prior) =>
        if IdOf(doc).Some? && IdOf(doc) != Some(prior) then Err(ImmutableField)
        else Ok((c[j := WithId(doc, prior)], Replaced(1)))
  }

  /** The filter `{'_id': id}` */
  function IdFilter(id: Value): Filter
  {
    [(IdField, id)]
  }

  /** `update_doc`: insert when nothing matches, otherwise replace the first
      match, found again through its `_id`. */
  function UpdateDoc(c: Collection, filt: Filter, doc: Doc, gen: Value): (r: Result<(Collection, Reply)>)
    ensures GetDoc(c, filt).None? ==> r == AddDoc(c, doc, gen)
  {
    match GetDoc(c, filt)
    case None => AddDoc(c, doc, gen)
    case Some(prior) =>
      match IdOf(prior)
      case None => Err(KeyError)
      case Some(id) => ReplaceOne(c, IdFilter(id), doc)
  }

  // ---------------------------------------------------------------------
  // Properties

  /** A stored document carries its id and otherwise the fields it was given. */
  lemma WithIdSpec(doc: Doc, gen: Value)
    ensures IdOf(WithId(doc, gen)) == Some(NewId(doc, gen))
    ensures forall k | k != IdField :: Lookup(WithId(doc, gen), k) == Lookup(doc, k)
    ensures UniqueKeys(doc) ==> UniqueKeys(WithId(doc, gen))
  {
    if IdOf(doc).None? {
      LookupSomeIff(doc, IdField);
      if UniqueKeys(doc) {
        ConsFresh(IdField, gen, doc);
      }
      ConsLookup(IdField, gen, doc);
    }
  }

  /** A key put in front hides nothing behind it. */
  lemma ConsLookup(k0: string, v0: Value, doc: Doc)
    ensures forall k | k != k0 :: Lookup([(k0, v0)] + doc, k) == Lookup(doc, k)
  {
    var d := [(k0, v0)] + doc;
    assert d[1..] == doc;
    forall k | k != k0
      ensures Lookup(d, k) == Lookup(doc, k)
    {
      assert Find(d, k) == (match Find(doc, k) case None => None case Some(i) => Some(i + 1));
    }
  }

  /** Storing a document that matches a filter gives a document that matches it. */
  lemma WithIdMatches(doc: Doc, gen: Value, filt: Filter)
    requires Matches(doc, filt)
    ensures Matches(WithId(doc, gen), filt)
  {
    WithIdSpec(doc, gen);
    forall i | 0 <= i < |filt|
      ensures Lookup(WithId(doc, gen), filt[i].0) == Some(filt[i].1)
    {
      if filt[i].0 == IdField {
        assert IdOf(doc).Some?;
      }
    }
  }

  /** Matching counts and finding agree: `get_doc` finds something exactly
      when `count` is positive. */
  lemma GetDocCount(c: Collection, filt: Filter)
    ensures GetDoc(c, filt).Some? <==> CountMatches(c, filt) > 0
  {
  }

  /** Insertion keeps the collection valid. */
  lemma InsertOneValid(c: Collection, doc: Doc, gen: Value)
    requires ValidCollection(c) && UniqueKeys(doc)
    requires InsertOne(c, doc, gen).Ok?
    ensures ValidCollection(InsertOne(c, doc, gen).value.0)
  {
    WithIdSpec(doc, gen);
    var c' := InsertOne(c, doc, gen).value.0;
    assert forall i | 0 <= i < |c| :: c'[i] == c[i];
  }

  /** In a valid collection the `_id` filter of a document finds that document. */
  lemma IdFilterFinds(c: Collection, i: nat)
    requires ValidCollection(c) && i < |c|
    ensures FirstMatch(c, IdFilter(IdOf(c[i]).value)) == Some(i)
  {
    var f := IdFilter(IdOf(c[i]).value);
    assert Matches(c[i], f);
    forall j | 0 <= j < |c| && j != i
      ensures !Matches(c[j], f)
    {
      assert Lookup(c[j], f[0].0) != Some(f[0].1);
    }
  }

  /** `add_doc_if_missing` leaves a collection with a match untouched, and
      inserts into one without. A second call with a document that matches
      its own filter changes nothing: after the first call there is a
      match, and exactly one when there was none before. */
  lemma AddDocIfMissingTwice(c: Collection, filt: Filter, doc: Doc, gen1: Value, gen2: Value)
    requires Matches(doc, filt)
    requires AddDocIfMissing(c, filt, doc, gen1).Ok?
    ensures var c1 := AddDocIfMissing(c, filt, doc, gen1).value.0;
      && CountMatches(c1, filt) == (if CountMatches(c, filt) == 0 then 1 else CountMatches(c, filt))
      && AddDocIfMissing(c1, filt, doc, gen2) == Ok((c1, Existing(CountMatches(c1, filt))))
  {
    var c1 := AddDocIfMissing(c, filt, doc, gen1).value.0;
    if CountMatches(c, filt) == 0 {
      WithIdMatches(doc, gen1, filt);
      assert c1 == c + [WithId(doc, gen1)];
      CountAppendOne(c, WithId(doc, gen1), filt);
    }
    assert Matches(c1[FirstMatch(c1, filt).value], filt);
  }

  /** Counting over an appended document. */
  lemma {:induction false} CountAppendOne(c: Collection, d: Doc, filt: Filter)
    ensures CountMatches(c + [d], filt) == CountMatches(c, filt) + (if Matches(d, filt) then 1 else 0)
  {
    if |c| > 0 {
      assert (c + [d])[1..] == c[1..] + [d];
      CountAppendOne(c[1..], d, filt);
    } else {
      assert (c + [d])[1..] == [];
    }
  }

  /** `update_doc` on a valid collection: with a match, the first match is
      replaced in place by the new body under its own `_id` (refused only
      when the body names a different `_id`), the size is unchanged and no
      other document changes. */
  lemma UpdateDocReplaces(c: Collection, filt: Filter, doc: Doc, gen: Value)
    requires ValidCollection(c)
    requires FirstMatch(c, filt).Some?
    ensures var i := FirstMatch(c, filt).value;
      var r := UpdateDoc(c, filt, doc, gen);
      && (r.Ok? <==> IdOf(doc).None? || IdOf(doc) == IdOf(c[i]))
      && (r.Err? ==> r.error == ImmutableField)
      && (r.Ok? ==> r.value == (c[i := WithId(doc, IdOf(c[i]).value)], Replaced(1)))
  {
    var i := FirstMatch(c, filt).value;
    var id := IdOf(c[i]).value;
    assert GetDoc(c, filt) == Some(c[i]);
    assert UpdateDoc(c, filt, doc, gen) == ReplaceOne(c, IdFilter(id), doc);
    IdFilterFinds(c, i);
  }

  /** The replaced document carries the old `_id` and the new body. */
  lemma UpdateDocStores(c: Collection, filt: Filter, doc: Doc, gen: Value)
    requires ValidCollection(c) && UniqueKeys(doc)
    requires UpdateDoc(c, filt, doc, gen).Ok?
    ensures var c' := UpdateDoc(c, filt, doc, gen).value.0;
      && ValidCollection(c')
      && |c'| == |c| + (if FirstMatch(c, filt).None? then 1 else 0)
  {
    match FirstMatch(c, filt)
    case None =>
      assert GetDoc(c, filt).None?;
      InsertOneValid(c, doc, gen);
    case Some(i) =>
      UpdateDocReplaces(c, filt, doc, gen);
      ReplaceValid(c, i, doc);
  }

  /** Replacing a document's body under its own `_id` keeps the collection valid. */
  lemma ReplaceValid(c: Collection, i: nat, doc: Doc)
    requires ValidCollection(c) && i < |c| && UniqueKeys(doc)
    requires IdOf(doc).None? || IdOf(doc) == IdOf(c[i])
    ensures ValidCollection(c[i := WithId(doc, IdOf(c[i]).value)])
  {
    var id := IdOf(c[i]).value;
    WithIdSpec(doc, id);
    var c' := c[i := WithId(doc, id)];
    assert forall j | 0 <= j < |c| :: IdOf(c'[j]) == IdOf(c[j]) && UniqueKeys(c'[j]);
  }

  /** Two `update_doc` calls with one filter, both documents matching it:
      the filter then finds the second document's body, and the collection
      has grown only if nothing matched before. */
  lemma UpdateDocTwice(c: Collection, filt: Filter, doc1: Doc, doc2: Doc, f1: Value, f2: Value)
    requires ValidCollection(c) && UniqueKeys(doc1) && UniqueKeys(doc2)
    requires Matches(doc1, filt) && Matches(doc2, filt)
    requires UpdateDoc(c, filt, doc1, f1).Ok?
    requires UpdateDoc(UpdateDoc(c, filt, doc1, f1).value.0, filt, doc2, f2).Ok?
    ensures var c1 := UpdateDoc(c, filt, doc1, f1).value.0;
      var c2 := UpdateDoc(c1, filt, doc2, f2).value.0;
      && |c2| == |c| + (if FirstMatch(c, filt).None? then 1 else 0)
      && GetDoc(c2, filt).Some?
      && (forall k | k != IdField :: Lookup(GetDoc(c2, filt).value, k) == Lookup(doc2, k))
  {
    var c1 := UpdateDoc(c, filt, doc1, f1).value.0;
    UpdateDocStores(c, filt, doc1, f1);
    var i := FirstAfterUpdate(c, filt, doc1, f1);
    UpdateDocReplaces(c1, filt, doc2, f2);
    var c2 := UpdateDoc(c1, filt, doc2, f2).value.0;
    var id := IdOf(c1[i]).value;
    assert c2 == c1[i := WithId(doc2, id)];
    WithIdMatches(doc2, id, filt);
    WithIdSpec(doc2, id);
    FirstAfterWrite(c1, filt, i, WithId(doc2, id));
  }

  /** After an update with a matching document, the filter's first match
      sits where the update wrote. */
  lemma FirstAfterUpdate(c: Collection, filt: Filter, doc: Doc, gen: Value) returns (i: nat)
    requires ValidCollection(c) && UniqueKeys(doc) && Matches(doc, filt)
    requires UpdateDoc(c, filt, doc, gen).Ok?
    ensures var c1 := UpdateDoc(c, filt, doc, gen).value.0;
      && FirstMatch(c1, filt) == Some(i)
      && i == (if FirstMatch(c, filt).None? then |c| else FirstMatch(c, filt).value)
  {
    var c1 := UpdateDoc(c, filt, doc, gen).value.0;
    match FirstMatch(c, filt)
    case None =>
      i := |c|;
      WithIdMatches(doc, gen, filt);
      assert c1 == c + [WithId(doc, gen)];
      FirstAfterAppend(c, filt, WithId(doc, gen));
    case Some(j) =>
      i := j;
      UpdateDocReplaces(c, filt, doc, gen);
      var id := IdOf(c[j]).value;
      WithIdMatches(doc, id, filt);
      assert c1 == c[j := WithId(doc, id)];
      FirstAfterWrite(c, filt, j, WithId(doc, id));
  }

  /** Writing a matching document where the first match is, or earlier,
      makes that position the first match. */
  lemma FirstAfterWrite(c: Collection, filt: Filter, i: nat, d: Doc)
    requires i < |c| && Matches(d, filt)
    requires forall j | 0 <= j < i :: !Matches(c[j], filt)
    ensures FirstMatch(c[i := d], filt) == Some(i)
  {
    var c' := c[i := d];
    assert forall j | 0 <= j < i :: c'[j] == c[j];
    FirstMatchAt(c', filt, i);
  }

  /** Appending a matching document to a collection without matches makes
      it the first match. */
  lemma FirstAfterAppend(c: Collection, filt: Filter, d: Doc)
    requires Matches(d, filt)
    requires forall j | 0 <= j < |c| :: !Matches(c[j], filt)
    ensures FirstMatch(c + [d], filt) == Some(|c|)
  {
    var c' := c + [d];
    assert forall j | 0 <= j < |c| :: c'[j] == c[j];
    FirstMatchAt(c', filt, |c|);
  }

  /** A matching position with no match before it is the first match. */
  lemma {:induction false} FirstMatchAt(c: Collection, filt: Filter, i: nat)
    requires i < |c| && Matches(c[i], filt)
    requires forall j | 0 <= j < i :: !Matches(c[j], filt)
    ensures FirstMatch(c, filt) == Some(i)
  {
    if i > 0 {
      var t := c[1..];
      assert t[i - 1] == c[i];
      assert forall j | 0 <= j < i - 1 :: t[j] == c[j + 1];
      FirstMatchAt(t, filt, i - 1);
    }
  }
}
