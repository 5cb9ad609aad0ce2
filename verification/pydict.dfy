/** Python dictionaries as association lists.

    A Python `dict` remembers insertion order: assigning to an existing key
    keeps its position, assigning to a new key appends it, `del` removes it.
    The model keeps exactly that order, which matters wherever two keys
    collapse into one and the later assignment wins. */
module PyDict {
  import opened Base

  type Dict<K, V> = seq<(K, V)>

  /** Every key occurs once, as in every Python dict. */
  predicate UniqueKeys<K(==), V>(d: Dict<K, V>)
  {
    forall i, j | 0 <= i < j < |d| :: d[i].0 != d[j].0
  }

  predicate HasKey<K(==), V>(d: Dict<K, V>, k: K)
  {
    exists i | 0 <= i < |d| :: d[i].0 == k
  }

  function KeysOf<K(==), V>(d: Dict<K, V>): (ks: seq<K>)
    ensures |ks| == |d| && forall i | 0 <= i < |d| :: ks[i] == d[i].0
  {
    if |d| == 0 then [] else [d[0].0] + KeysOf(d[1..])
  }

  /** The position of `k`, if present. */
  function Find<K(==), V>(d: Dict<K, V>, k: K): (r: Option<nat>)
    ensures r.Some? ==> r.value < |d| && d[r.value].0 == k
    ensures r.Some? ==> forall j | 0 <= j < r.value :: d[j].0 != k
    ensures r.None? <==> !HasKey(d, k)
  {
    if |d| == 0 then None
    else if d[0].0 == k then Some(0)
    else match Find(d[1..], k)
      case None => None
      case Some(i) => Some(i + 1)
  }

  /** The value held under a key, or nothing when it is missing: `d.get(k)`. */
  function Lookup<K(==), V>(d: Dict<K, V>, k: K): Option<V>
  {
    match Find(d, k)
    case None => None
    case Some(i) => Some(d[i].1)
  }

  /** Assignment to a key: the value of an existing key is replaced in its
      place, a new key goes at the end, as in `d[k] = v`. */
  function Set<K(==), V>(d: Dict<K, V>, k: K, v: V): Dict<K, V>
  {
    match Find(d, k)
    case None => d + [(k, v)]
    case Some(i) => d[i := (k, v)]
  }

  /** `del d[k]` (a missing key leaves the dict as it is). */
  function Del<K(==), V>(d: Dict<K, V>, k: K): Dict<K, V>
  {
    match Find(d, k)
    case None => d
    case Some(i) => d[..i] + d[i + 1..]
  }

  /** No element occurs twice. */
  predicate Distinct<T(==)>(xs: seq<T>)
  {
    forall i, j | 0 <= i < j < |xs| :: xs[i] != xs[j]
  }

  /** A key is present exactly when `d.get` finds a value for it. */
  lemma LookupSomeIff<K, V>(d: Dict<K, V>, k: K)
    ensures Lookup(d, k).Some? <==> HasKey(d, k)
  {
  }

  lemma HasKeyTail<K, V>(d: Dict<K, V>, k: K)
    requires |d| > 0
    ensures HasKey(d, k) <==> d[0].0 == k || HasKey(d[1..], k)
  {
    if HasKey(d[1..], k) {
      var i :| 0 <= i < |d[1..]| && d[1..][i].0 == k;
      assert d[i + 1].0 == k;
    }
    if HasKey(d, k) && d[0].0 != k {
      var i :| 0 <= i < |d| && d[i].0 == k;
      assert d[1..][i - 1].0 == k;
    }
  }

  /** In a dict with unique keys the entry holding `k` is where `Find` looks. */
  lemma FindAt<K, V>(d: Dict<K, V>, i: nat)
    requires UniqueKeys(d) && i < |d|
    ensures Find(d, d[i].0) == Some(i)
  {
  }

  lemma LookupAt<K, V>(d: Dict<K, V>, i: nat)
    requires UniqueKeys(d) && i < |d|
    ensures Lookup(d, d[i].0) == Some(d[i].1)
  {
    FindAt(d, i);
  }

  lemma LookupMissing<K, V>(d: Dict<K, V>, k: K)
    requires !HasKey(d, k)
    ensures Lookup(d, k) == None
  {
  }

  /** Assignment: the key now holds `v`, every other key is untouched, keys
      stay unique and an existing key keeps its position. */
  lemma SetSpec<K, V>(d: Dict<K, V>, k: K, v: V)
    requires UniqueKeys(d)
    ensures UniqueKeys(Set(d, k, v))
    ensures Lookup(Set(d, k, v), k) == Some(v)
    ensures forall k' | k' != k :: Lookup(Set(d, k, v), k') == Lookup(d, k')
    ensures HasKey(d, k) ==> |Set(d, k, v)| == |d|
    ensures !HasKey(d, k) ==> Set(d, k, v) == d + [(k, v)]
  {
    var d' := Set(d, k, v);
    match Find(d, k)
    case None =>
      LookupAt(d', |d|);
      forall k' | k' != k
        ensures Lookup(d', k') == Lookup(d, k')
      {
        if HasKey(d, k') {
          var i :| 0 <= i < |d| && d[i].0 == k';
          LookupAt(d, i);
          LookupAt(d', i);
        } else {
          assert !HasKey(d', k');
        }
      }
    case Some(i) =>
      LookupAt(d', i);
      forall k' | k' != k
        ensures Lookup(d', k') == Lookup(d, k')
      {
        if HasKey(d, k') {
          var j :| 0 <= j < |d| && d[j].0 == k';
          LookupAt(d, j);
          LookupAt(d', j);
        } else {
          assert !HasKey(d', k');
        }
      }
  }

  /** Assigning the value a key already holds changes nothing. */
  lemma SetHeld<K, V>(d: Dict<K, V>, k: K, v: V)
    requires Lookup(d, k) == Some(v)
    ensures Set(d, k, v) == d
  {
    var i := Find(d, k).value;
    assert d[i] == (k, v);
  }

  /** Deletion: the key is gone, every other key is untouched, the other
      entries keep their order. */
  lemma DelSpec<K, V>(d: Dict<K, V>, k: K)
    requires UniqueKeys(d)
    ensures UniqueKeys(Del(d, k))
    ensures !HasKey(Del(d, k), k)
    ensures forall k' | k' != k :: Lookup(Del(d, k), k') == Lookup(d, k')
  {
    match Find(d, k)
    case None =>
    case Some(i) =>
      DelAtShape(d, i);
      forall k' | k' != k
        ensures Lookup(Del(d, k), k') == Lookup(d, k')
      {
        DelAtLookup(d, i, k');
      }
  }

  /** Removing the entry at `i` shifts the later entries down by one. */
  lemma DelAtShape<K, V>(d: Dict<K, V>, i: nat)
    requires UniqueKeys(d) && i < |d|
    ensures var d' := d[..i] + d[i + 1..];
      && |d'| == |d| - 1
      && (forall j | 0 <= j < |d'| :: d'[j] == (if j < i then d[j] else d[j + 1]))
      && UniqueKeys(d')
  {
  }

  lemma DelAtLookup<K, V>(d: Dict<K, V>, i: nat, k': K)
    requires UniqueKeys(d) && i < |d| && k' != d[i].0
    ensures Lookup(d[..i] + d[i + 1..], k') == Lookup(d, k')
  {
    var d' := d[..i] + d[i + 1..];
    DelAtShape(d, i);
    if HasKey(d, k') {
      var j :| 0 <= j < |d| && d[j].0 == k';
      LookupAt(d, j);
      assert j != i;
      var j' := if j < i then j else j - 1;
      assert d'[j'] == d[j];
      LookupAt(d', j');
    } else {
      forall m | 0 <= m < |d'|
        ensures d'[m].0 != k'
      {
        assert d'[m] == (if m < i then d[m] else d[m + 1]);
      }
      LookupMissing(d', k');
    }
  }

  // ---------------------------------------------------------------------
  // Moving values between keys

  /** Moving a value to another key: the value under `from` is put under
      `to` and `from` is deleted; nothing happens if `from` is missing
      (`d[to] = d[from]; del d[from]`). */
  function Move<K(==), V>(d: Dict<K, V>, from: K, to: K): Dict<K, V>
  {
    match Lookup(d, from)
    case None => d
    case Some(v) => Del(Set(d, to, v), from)
  }

  /** The moves `moves`, one after the other. */
  function MoveAll<K(==), V>(d: Dict<K, V>, moves: seq<(K, K)>): Dict<K, V>
    decreases |moves|
  {
    if |moves| == 0 then d else MoveAll(Move(d, moves[0].0, moves[0].1), moves[1..])
  }

  /** Each source is present and moved once, and no value is moved onto a
      key that is itself still to be moved. */
  predicate ValidMoves<K(==), V>(d: Dict<K, V>, moves: seq<(K, K)>)
  {
    && UniqueKeys(d)
    && (forall i, j | 0 <= i < j < |moves| :: moves[i].0 != moves[j].0)
    && (forall j | 0 <= j < |moves| :: HasKey(d, moves[j].0))
    && (forall i, j | 0 <= i < |moves| && 0 <= j < |moves| :: moves[i].1 != moves[j].0)
  }

  /** No later move has the same target. */
  predicate LastTarget<K(==)>(moves: seq<(K, K)>, j: int)
    requires 0 <= j < |moves|
  {
    forall j' | j < j' < |moves| :: moves[j'].1 != moves[j].1
  }

  /** `k` is a source or a target of some move. */
  predicate Moved<K(==)>(moves: seq<(K, K)>, k: K)
  {
    exists j | 0 <= j < |moves| :: k == moves[j].0 || k == moves[j].1
  }

  lemma MoveSpec<K, V>(d: Dict<K, V>, from: K, to: K)
    requires UniqueKeys(d) && HasKey(d, from) && from != to
    ensures UniqueKeys(Move(d, from, to))
    ensures Lookup(Move(d, from, to), from) == None
    ensures Lookup(Move(d, from, to), to) == Lookup(d, from)
    ensures forall k | k != from && k != to :: Lookup(Move(d, from, to), k) == Lookup(d, k)
  {
    LookupSomeIff(d, from);
    var v := Lookup(d, from).value;
    var d1 := Set(d, to, v);
    SetSpec(d, to, v);
    DelSpec(d1, from);
    LookupMissing(Del(d1, from), from);
  }

  /** The first move keeps the rest valid. */
  lemma ValidMovesTail<K, V>(d: Dict<K, V>, moves: seq<(K, K)>)
    requires ValidMoves(d, moves) && |moves| > 0
    ensures ValidMoves(Move(d, moves[0].0, moves[0].1), moves[1..])
  {
    var d1 := Move(d, moves[0].0, moves[0].1);
    var rest := moves[1..];
    MoveSpec(d, moves[0].0, moves[0].1);
    forall j | 0 <= j < |rest|
      ensures HasKey(d1, rest[j].0)
    {
      assert rest[j] == moves[j + 1];
      LookupSomeIff(d, rest[j].0);
      LookupSomeIff(d1, rest[j].0);
    }
  }

  lemma MovedTail<K>(moves: seq<(K, K)>, k: K)
    requires |moves| > 0 && !Moved(moves, k)
    ensures !Moved(moves[1..], k) && k != moves[0].0 && k != moves[0].1
  {
    var rest := moves[1..];
    if Moved(rest, k) {
      var j :| 0 <= j < |rest| && (k == rest[j].0 || k == rest[j].1);
    }
  }

  /** A last target is neither a later source nor a later target. */
  lemma LastTargetNotMovedLater<K>(moves: seq<(K, K)>)
    requires |moves| > 0 && LastTarget(moves, 0)
    requires forall i, j | 0 <= i < |moves| && 0 <= j < |moves| :: moves[i].1 != moves[j].0
    ensures !Moved(moves[1..], moves[0].1)
  {
  }

  /** Keys no move mentions keep their values, and keys stay unique. */
  lemma {:induction false} MoveAllFrame<K, V>(d: Dict<K, V>, moves: seq<(K, K)>)
    requires ValidMoves(d, moves)
    decreases |moves|
    ensures UniqueKeys(MoveAll(d, moves))
    ensures forall k | !Moved(moves, k) :: Lookup(MoveAll(d, moves), k) == Lookup(d, k)
  {
    if |moves| > 0 {
      var d1 := Move(d, moves[0].0, moves[0].1);
      MoveSpec(d, moves[0].0, moves[0].1);
      ValidMovesTail(d, moves);
      MoveAllFrame(d1, moves[1..]);
      forall k | !Moved(moves, k)
        ensures Lookup(MoveAll(d, moves), k) == Lookup(d, k)
      {
        MovedTail(moves, k);
      }
    }
  }

  /** Every source is gone afterwards. */
  lemma {:induction false} MoveAllSources<K, V>(d: Dict<K, V>, moves: seq<(K, K)>)
    requires ValidMoves(d, moves)
    decreases |moves|
    ensures forall j | 0 <= j < |moves| :: Lookup(MoveAll(d, moves), moves[j].0) == None
  {
    if |moves| > 0 {
      var d1 := Move(d, moves[0].0, moves[0].1);
      var rest := moves[1..];
      MoveSpec(d, moves[0].0, moves[0].1);
      ValidMovesTail(d, moves);
      MoveAllSources(d1, rest);
      MoveAllFrame(d1, rest);
      assert !Moved(rest, moves[0].0);
      forall j | 0 < j < |moves|
        ensures Lookup(MoveAll(d, moves), moves[j].0) == None
      {
        assert moves[j] == rest[j - 1];
      }
    }
  }

  /** Each target holds the value of the last source moved onto it. */
  lemma {:induction false} MoveAllTargets<K, V>(d: Dict<K, V>, moves: seq<(K, K)>)
    requires ValidMoves(d, moves)
    decreases |moves|
    ensures forall j | 0 <= j < |moves| && LastTarget(moves, j) ::
      Lookup(MoveAll(d, moves), moves[j].1) == Lookup(d, moves[j].0)
  {
    if |moves| > 0 {
      var d1 := Move(d, moves[0].0, moves[0].1);
      var rest := moves[1..];
      MoveSpec(d, moves[0].0, moves[0].1);
      ValidMovesTail(d, moves);
      MoveAllTargets(d1, rest);
      MoveAllFrame(d1, rest);
      forall j | 0 <= j < |moves| && LastTarget(moves, j)
        ensures Lookup(MoveAll(d, moves), moves[j].1) == Lookup(d, moves[j].0)
      {
        if j == 0 {
          LastTargetNotMovedLater(moves);
        } else {
          assert moves[j] == rest[j - 1];
          assert LastTarget(rest, j - 1) by {
            forall j' | j - 1 < j' < |rest|
              ensures rest[j'].1 != rest[j - 1].1
            {
              assert rest[j'] == moves[j' + 1];
            }
          }
          LookupSomeIff(d, moves[j].0);
          assert Lookup(d1, moves[j].0) == Lookup(d, moves[j].0);
        }
      }
    }
  }

  /** After the moves every source is gone, each target holds the value of
      the last source moved onto it, and every other key is untouched. */
  lemma MoveAllSpec<K, V>(d: Dict<K, V>, moves: seq<(K, K)>)
    requires ValidMoves(d, moves)
    ensures UniqueKeys(MoveAll(d, moves))
    ensures forall j | 0 <= j < |moves| :: Lookup(MoveAll(d, moves), moves[j].0) == None
    ensures forall j | 0 <= j < |moves| && LastTarget(moves, j) ::
      Lookup(MoveAll(d, moves), moves[j].1) == Lookup(d, moves[j].0)
    ensures forall k | !Moved(moves, k) :: Lookup(MoveAll(d, moves), k) == Lookup(d, k)
  {
    MoveAllFrame(d, moves);
    MoveAllSources(d, moves);
    MoveAllTargets(d, moves);
  }

  // ---------------------------------------------------------------------
  // Assigning a sequence of pairs

  /** The value of the last pair whose key is `k`, if any. */
  function LastWith<K(==), V>(ps: seq<(K, V)>, k: K): (r: Option<V>)
    ensures r.None? <==> forall j | 0 <= j < |ps| :: ps[j].0 != k
    ensures r.Some? ==>
      exists j | 0 <= j < |ps| :: ps[j] == (k, r.value) && forall j' | j < j' < |ps| :: ps[j'].0 != k
  {
    if |ps| == 0 then None
    else if ps[|ps| - 1].0 == k then Some(ps[|ps| - 1].1)
    else LastWith(ps[..|ps| - 1], k)
  }

  /** Assigning a sequence of pairs one after the other, later pairs
      overriding earlier ones: `for k, v in ps: d[k] = v`. */
  function SetAll<K(==), V>(d: Dict<K, V>, ps: seq<(K, V)>): Dict<K, V>
  {
    if |ps| == 0 then d else Set(SetAll(d, ps[..|ps| - 1]), ps[|ps| - 1].0, ps[|ps| - 1].1)
  }

  /** After the assignments a key holds the value of the last pair naming it;
      keys no pair names are untouched. */
  lemma {:induction false} SetAllSpec<K, V>(d: Dict<K, V>, ps: seq<(K, V)>)
    requires UniqueKeys(d)
    ensures UniqueKeys(SetAll(d, ps))
    ensures forall k | LastWith(ps, k).Some? :: Lookup(SetAll(d, ps), k) == LastWith(ps, k)
    ensures forall k | LastWith(ps, k).None? :: Lookup(SetAll(d, ps), k) == Lookup(d, k)
  {
    if |ps| > 0 {
      var init := ps[..|ps| - 1];
      SetAllSpec(d, init);
      SetSpec(SetAll(d, init), ps[|ps| - 1].0, ps[|ps| - 1].1);
    }
  }

  /** Assigning `a` and then `b` is assigning `a + b`. */
  lemma {:induction false} SetAllAppend<K, V>(d: Dict<K, V>, a: seq<(K, V)>, b: seq<(K, V)>)
    ensures SetAll(d, a + b) == SetAll(SetAll(d, a), b)
  {
    if |b| == 0 {
      assert a + b == a;
    } else {
      assert (a + b)[..|a + b| - 1] == a + b[..|b| - 1];
      SetAllAppend(d, a, b[..|b| - 1]);
    }
  }

  /** Assignments never remove a key. */
  lemma SetAllKeeps<K, V>(d: Dict<K, V>, ps: seq<(K, V)>)
    requires UniqueKeys(d)
    ensures forall k | HasKey(d, k) :: HasKey(SetAll(d, ps), k)
  {
    SetAllSpec(d, ps);
    forall k | HasKey(d, k)
      ensures HasKey(SetAll(d, ps), k)
    {
      LookupSomeIff(d, k);
      LookupSomeIff(SetAll(d, ps), k);
    }
  }

  /** A dict whose first entry has a key none of the others has. */
  lemma ConsFresh<K, V>(k0: K, v0: V, rest: Dict<K, V>)
    requires forall i | 0 <= i < |rest| :: rest[i].0 != k0
    requires UniqueKeys(rest)
    ensures KeysOf([(k0, v0)] + rest) == [k0] + KeysOf(rest)
    ensures UniqueKeys([(k0, v0)] + rest)
    ensures Lookup([(k0, v0)] + rest, k0) == Some(v0)
    ensures forall i | 0 <= i < |rest| :: Lookup([(k0, v0)] + rest, rest[i].0) == Some(rest[i].1)
  {
    var d := [(k0, v0)] + rest;
    assert d[1..] == rest;
    assert d[0] == (k0, v0);
    forall i, j | 0 <= i < j < |d|
      ensures d[i].0 != d[j].0
    {
      assert d[j] == rest[j - 1];
      if 0 < i {
        assert d[i] == rest[i - 1];
      }
    }
    assert UniqueKeys(d);
    LookupAt(d, 0);
    forall i | 0 <= i < |rest|
      ensures Lookup(d, rest[i].0) == Some(rest[i].1)
    {
      assert d[i + 1] == rest[i];
      LookupAt(d, i + 1);
    }
  }
}
