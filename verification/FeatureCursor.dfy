/** The prefetching cursor of FeatureCursor.cpp against the plain list of features it stands for. */
module FeatureCursor {
  import opened Basics

  /** A feature, by identity. */
  type Feature = nat

  /** What reading a store by object id and testing against the search extent give. */
  datatype Store = Store(get: nat -> Option<Feature>, intersects: Feature -> bool)

  predicate Wanted(store: Store, matchExactly: bool, oid: nat) {
    match store.get(oid)
    case None => false
    case Some(f) => matchExactly ==> store.intersects(f)
  }

  /** The features of the ids that exist and match, in the order of the ids. */
  function Matching(store: Store, matchExactly: bool, oids: seq<nat>): seq<Feature> {
    if oids == [] then []
    else (if Wanted(store, matchExactly, oids[0]) then [store.get(oids[0]).value] else [])
         + Matching(store, matchExactly, oids[1..])
  }

  class Cursor {
    const oids: seq<nat>
    const store: Option<Store>
    const matchExactly: bool
    var prefetchSize: int
    var iter: nat
    var prefetched: seq<Feature>
    var lastResult: Option<Feature>
    var atBof: bool

    ghost function AllFeatures(): seq<Feature> {
      if store.None? then [] else Matching(store.value, matchExactly, oids)
    }

    /** The features still to come. */
    ghost function Remaining(): seq<Feature>
      requires iter <= |oids|
      reads this
    {
      if store.None? then [] else prefetched + Matching(store.value, matchExactly, oids[iter..])
    }

    ghost predicate Sound()
      reads this
    {
      && prefetchSize >= 1 && iter <= |oids| && (store.None? ==> prefetched == [])
      && (atBof ==> Remaining() == AllFeatures())
    }

    /** Sound, and with a feature in hand unless all are gone. */
    ghost predicate Valid()
      reads this
    {
      Sound() && (store.Some? && prefetched == [] ==> iter == |oids|)
    }

    constructor (oids: seq<nat>, store: Option<Store>, matchExactly: bool)
      ensures Valid() && Remaining() == AllFeatures()
      ensures this.oids == oids && this.store == store && this.matchExactly == matchExactly && prefetchSize == 64
    {
      this.oids, this.store, this.matchExactly := oids, store, matchExactly;
      prefetchSize, iter, prefetched, lastResult, atBof := 64, 0, [], None, false;
      new;
      Reset();
    }

    method SetPrefetchSize(value: int)
      requires Valid()
      modifies this`prefetchSize
      ensures Valid() && Remaining() == old(Remaining()) && prefetchSize == if value < 1 then 1 else value
    {
      prefetchSize := if value < 1 then 1 else value;
    }

    /** Filling up moves features from the ids to the queue and changes nothing of what is to come. */
    method Prefetch()
      requires Sound()
      modifies this`prefetched, this`iter
      ensures Valid() && Remaining() == old(Remaining())
      ensures |old(prefetched)| > 1 ==> prefetched == old(prefetched) && iter == old(iter)
      ensures prefetched == old(prefetched) || |prefetched| <= prefetchSize
    {
      if store.Some? && |prefetched| <= 1 {
        hide Matching, AllFeatures;
        while |prefetched| < prefetchSize && iter < |oids|
          invariant Sound() && Remaining() == old(Remaining())
          invariant prefetched == old(prefetched) || |prefetched| <= prefetchSize
          decreases |oids| - iter
        {
          FetchOne();
        }
      }
    }

    method FetchOne()
      requires Sound() && store.Some? && iter < |oids|
      modifies this`prefetched, this`iter
      ensures Sound() && Remaining() == old(Remaining()) && iter == old(iter) + 1
      ensures |prefetched| <= |old(prefetched)| + 1 && old(prefetched) <= prefetched
    {
      hide Matching, AllFeatures;
      MatchingNext(store.value, matchExactly, oids, iter);
      ghost var (queue, rest) := (prefetched, Matching(store.value, matchExactly, oids[iter + 1..]));
      var f := store.value.get(oids[iter]);
      iter := iter + 1;
      if f.Some? {
        if !matchExactly || store.value.intersects(f.value) {
          prefetched := prefetched + [f.value];
          assert queue + ([f.value] + rest) == prefetched + rest;
        }
      }
    }

    /** Back to the first feature; already there, nothing is read again. */
    method Reset()
      requires Sound() && (atBof ==> Valid())
      modifies this
      ensures Valid() && atBof && Remaining() == AllFeatures() && prefetchSize == old(prefetchSize)
    {
      if !atBof {
        iter, prefetched, lastResult := 0, [], None;
        assert oids[0..] == oids;
        Prefetch();
        atBof := true;
      }
    }

    /** True exactly while there is a feature to come. */
    method HasNext() returns (more: bool)
      requires Valid()
      ensures more <==> Remaining() != []
    {
      more := store.Some? && |prefetched| > 0;
    }

    lemma NothingLeft()
      requires Valid()
      ensures prefetched == [] <==> Remaining() == []
    {
    }

    /** The next feature, or none when all are gone. */
    method Next() returns (f: Option<Feature>)
      requires Valid()
      modifies this
      ensures Valid() && prefetchSize == old(prefetchSize)
      ensures if old(Remaining()) == [] then f == None && Remaining() == []
              else f == Some(old(Remaining())[0]) && Remaining() == old(Remaining())[1..]
    {
      hide Matching, AllFeatures;
      NothingLeft();
      atBof := false;
      if |prefetched| == 0 {
        lastResult := None;
      } else {
        lastResult := Some(prefetched[0]);
        prefetched := prefetched[1..];
      }
      Prefetch();
      f := lastResult;
    }
  }

  lemma MatchingNext(store: Store, matchExactly: bool, oids: seq<nat>, k: nat)
    requires k < |oids|
    ensures Matching(store, matchExactly, oids[k..]) ==
            (if Wanted(store, matchExactly, oids[k]) then [store.get(oids[k]).value] else [])
            + Matching(store, matchExactly, oids[k + 1..])
  {
    assert oids[k..][1..] == oids[k + 1..];
  }

  lemma ValidIsSound(c: Cursor)
    requires c.Valid()
    ensures c.iter <= |c.oids|
  {
  }

  /** Reading a cursor to its end gives every feature it stands for once, in order, whatever the prefetch size. */
  method ReadAll(c: Cursor) returns (features: seq<Feature>)
    requires c.Valid()
    modifies c
    ensures features == old(c.Remaining()) && c.Valid() && c.Remaining() == []
  {
    hide Matching, c.Sound, c.AllFeatures, c.Remaining;
    ValidIsSound(c);
    features := [];
    var more := c.HasNext();
    while more
      invariant c.Valid() && c.iter <= |c.oids| && features + c.Remaining() == old(c.Remaining())
      invariant more <==> c.Remaining() != []
      decreases |c.Remaining()|
    {
      ValidIsSound(c);
      ghost var left := c.Remaining();
      var f := c.Next();
      assert features + left == (features + [f.value]) + left[1..];
      features := features + [f.value];
      ValidIsSound(c);
      more := c.HasNext();
    }
  }

  lemma {:induction false} MatchingConcat(store: Store, matchExactly: bool, a: seq<nat>, b: seq<nat>)
    ensures Matching(store, matchExactly, a + b) == Matching(store, matchExactly, a) + Matching(store, matchExactly, b)
  {
    hide Wanted;
    if a == [] {
      assert a + b == b;
    } else {
      MatchingConcat(store, matchExactly, a[1..], b);
      assert (a + b)[1..] == a[1..] + b;
    }
  }

  /** A feature is to come exactly when the store has it under one of the ids and, if matching is exact, it meets the
      search extent. */
  lemma {:induction false} MatchesAre(store: Store, matchExactly: bool, oids: seq<nat>, f: Feature)
    ensures f in Matching(store, matchExactly, oids) <==>
              exists oid :: oid in oids && store.get(oid) == Some(f) && (matchExactly ==> store.intersects(f))
  {
    if oids != [] {
      MatchesAre(store, matchExactly, oids[1..], f);
      assert oids == [oids[0]] + oids[1..];
    }
  }

  /** The list of features: those of the wanted ids, each at the place the count of wanted ids before it gives. */
  lemma MatchingAt(store: Store, matchExactly: bool, oids: seq<nat>, k: nat)
    requires k < |oids|
    ensures var (all, before) := (Matching(store, matchExactly, oids), Matching(store, matchExactly, oids[..k]));
            && before <= all
            && (Wanted(store, matchExactly, oids[k]) ==> |before| < |all| && all[|before|] == store.get(oids[k]).value)
            && Matching(store, matchExactly, oids[..k + 1]) ==
               before + if Wanted(store, matchExactly, oids[k]) then [store.get(oids[k]).value] else []
  {
    assert oids == oids[..k] + oids[k..] && oids[..k + 1] == oids[..k] + [oids[k]];
    MatchingConcat(store, matchExactly, oids[..k], oids[k..]);
    MatchingConcat(store, matchExactly, oids[..k], [oids[k]]);
  }
}
