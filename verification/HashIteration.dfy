/** Iterating over the hash table with deferred deletion: hash_iterator_* and hash_remove_by_value. */
module HashIteration {
  import opened Basics
  import opened HashTable

  class HashIterator<K(==), V(==)> {
    const hash: Hash<K, V>
    const bucketIndexEnd: nat
    var bucketIndex: int
    var elem: Element?<K, V>
    var last: Element?<K, V>
    /** The locked bucket, negative if there is none. */
    var bucket: int
    var bucketMarked: bool
    /** Position of `elem` in the locked bucket's list. */
    ghost var pos: nat

    ghost predicate Ok()
      reads this, hash, hash.buckets, hash.elems
    {
      && hash.Inv() && bucketIndexEnd <= |hash.chains| && -1 <= bucketIndex
      && (hash.marked != {} ==> bucketMarked)
      && if bucket < 0 then elem == null && last == null && hash.marked == {} else
         && bucket < |hash.chains| && bucket <= bucketIndex && AtPosition(hash.chains[bucket])
         && (elem != null ==> bucket == bucketIndex)
         && (forall e :: e in hash.marked ==> e in hash.chains[bucket][..pos])
    }

    ghost predicate AtPosition(chain: seq<Element<K, V>>)
      reads this
    {
      pos <= |chain| && elem == At(chain, pos) && last == if pos == 0 then null else chain[pos - 1]
    }

    /** The elements still to be returned. */
    ghost function Pending(): set<Element<K, V>>
      requires Ok()
      reads this, hash, hash.buckets, hash.elems
    {
      set e | e in hash.elems && (bucketIndex < hash.Index(e.hashValue) < bucketIndexEnd ||
                                  (elem != null && e in hash.chains[bucketIndex][pos..]))
    }

    /** hash_iterator_init_range: the elements of the buckets from `start` up to `end`, cut to their number. */
    constructor InitRange(hash: Hash<K, V>, start: nat, end: nat)
      requires hash.Valid() && start <= end && start <= hash.buckets.Length
      ensures Ok() && this.hash == hash
      ensures Pending() == set e | e in hash.elems && start <= hash.Index(e.hashValue) < end
    {
      this.hash := hash;
      bucketIndexEnd := if end > hash.buckets.Length then hash.buckets.Length else end;
      bucketIndex, elem, last, bucket, bucketMarked, pos := start - 1, null, null, -1, false, 0;
      new;
      assert forall e :: e in hash.elems ==> hash.Index(e.hashValue) < hash.buckets.Length;
    }

    /** hash_iterator_init */
    constructor (hash: Hash<K, V>)
      requires hash.Valid()
      ensures Ok() && this.hash == hash && Pending() == hash.elems
    {
      this.hash := hash;
      bucketIndexEnd := hash.buckets.Length;
      bucketIndex, elem, last, bucket, bucketMarked, pos := -1, null, null, -1, false, 0;
      new;
      assert forall e :: e in hash.elems ==> hash.Index(e.hashValue) < bucketIndexEnd;
    }

    method Advance() returns (ret: Element<K, V>)
      requires Ok() && elem != null
      modifies this`last, this`elem, this`pos
      ensures Ok() && ret in old(Pending()) && Pending() == old(Pending()) - {ret}
      ensures last == ret && bucket == old(bucket)
    {
      hash.BucketOf(bucket);
      ghost var chain := hash.chains[bucket];
      assert chain[pos..] == [chain[pos]] + chain[pos + 1..];
      assert chain[..pos + 1] == chain[..pos] + [chain[pos]];
      ret := elem;
      last := elem;
      elem := elem.next;
      pos := pos + 1;
    }

    /** In the middle of a bucket too: what is marked lies behind the iterator. */
    method Unlock()
      requires Ok()
      modifies this`bucket, this`last, this`bucketMarked, hash, hash.buckets, hash.elems`next
      ensures hash.Valid() && hash.at == old(hash.at) && bucket < 0 && (elem == null ==> Ok())
      ensures hash.elems <= old(hash.elems) && forall e :: e in old(hash.elems) ==>
              (e in hash.elems <==> e !in old(hash.marked))
    {
      if bucket >= 0 {
        hash.BucketOf(bucket);
        if bucketMarked {
          hash.RemoveMarked(bucket);
          bucketMarked := false;
        }
        bucket := -1;
        last := null;
      }
    }

    /** hash_iterator_lock on a bucket with a list, and the step onto its first element. */
    method Lock()
      requires Ok() && bucket < 0 && 0 <= bucketIndex < bucketIndexEnd && hash.chains[bucketIndex] != []
      modifies this`bucket, this`last, this`bucketMarked, this`elem, this`pos
      ensures Ok() && elem != null && bucket == bucketIndex && pos == 0
    {
      hash.BucketOf(bucketIndex);
      bucket, last, bucketMarked := bucketIndex, null, false;
      elem, pos := hash.buckets[bucketIndex], 0;
    }

    /** The elements of buckets from `lo` on, up to the end of the range. */
    ghost function From(lo: int): set<Element<K, V>>
      requires hash.Inv()
      reads this, hash, hash.buckets, hash.elems
    {
      set e | e in hash.elems && lo <= hash.Index(e.hashValue) < bucketIndexEnd
    }

    /** hash_iterator_next: every pending element once, then null. */
    method Next() returns (ret: Element?<K, V>)
      requires Ok()
      modifies this, hash, hash.buckets, hash.elems`next
      ensures Ok() && hash.at == old(hash.at)
      ensures hash.elems <= old(hash.elems) && forall e :: e in old(hash.elems) && e !in hash.elems ==>
              e in old(hash.marked)
      ensures hash.marked <= old(hash.marked)
      ensures ret == null ==> old(Pending()) == {} && Pending() == {} && elem == null
      ensures ret != null ==> ret in old(Pending()) && Pending() == old(Pending()) - {ret}
      ensures ret != null ==> last == ret && ret !in hash.marked && ret in hash.elems
    {
      if elem != null {
        PendingUnmarked();
        ret := Advance();
      } else {
        ret := NextBucket();
      }
    }

    /** Pending elements are never marked. */
    lemma PendingUnmarked()
      requires Ok()
      ensures Pending() !! hash.marked && Pending() <= hash.elems
    {
      if bucket >= 0 { hash.BucketOf(bucket); }
    }

    /** Leaves the bucket behind and enters the one at `bucketIndex`, if it has a list. */
    method Enter() returns (ret: Element?<K, V>)
      requires Ok() && elem == null && 0 <= bucketIndex < bucketIndexEnd
      modifies this, hash, hash.buckets, hash.elems`next
      ensures Ok() && hash.at == old(hash.at) && hash.marked == {} && bucketIndex == old(bucketIndex)
      ensures hash.elems <= old(hash.elems) && forall e :: e in old(hash.elems) ==>
              (e in hash.elems <==> e !in old(hash.marked))
      ensures From(bucketIndex) == old(From(bucketIndex)) - old(hash.marked)
      ensures ret == null ==> elem == null && From(bucketIndex + 1) == From(bucketIndex)
      ensures ret != null ==> ret in From(bucketIndex) && Pending() == From(bucketIndex) - {ret} && last == ret
    {
      Unlock();
      hash.BucketOf(bucketIndex);
      if hash.buckets[bucketIndex] != null {
        Lock();
        WholeBucket();
        ret := Advance();
      } else {
        ret := null;
        NoneIn(bucketIndex);
      }
    }

    lemma WholeBucket()
      requires Ok() && elem != null && pos == 0 && bucketIndex < bucketIndexEnd
      ensures Pending() == From(bucketIndex)
    {
      hash.BucketOf(bucketIndex);
      assert hash.chains[bucketIndex][0..] == hash.chains[bucketIndex];
    }

    lemma NoneIn(b: nat)
      requires Ok() && b < |hash.chains| && hash.chains[b] == []
      ensures From(b + 1) == From(b)
    {
      hash.BucketOf(b);
    }

    method NextBucket() returns (ret: Element?<K, V>)
      requires Ok() && elem == null
      modifies this, hash, hash.buckets, hash.elems`next
      ensures Ok() && hash.at == old(hash.at)
      ensures hash.elems <= old(hash.elems) && forall e :: e in old(hash.elems) && e !in hash.elems ==>
              e in old(hash.marked)
      ensures hash.marked <= old(hash.marked)
      ensures ret == null ==> old(Pending()) == {} && Pending() == {} && elem == null
      ensures ret != null ==> ret in old(Pending()) && Pending() == old(Pending()) - {ret}
      ensures ret != null ==> last == ret && ret !in hash.marked && ret in hash.elems
    {
      PendingUnmarked();
      ghost var start := Pending();
      ret := null;
      bucketIndex := bucketIndex + 1;
      assert From(bucketIndex) == start;
      while bucketIndex < bucketIndexEnd
        invariant Ok() && ret == null && elem == null && hash.at == old(hash.at) && 0 <= bucketIndex
        invariant hash.elems <= old(hash.elems) && forall e :: e in old(hash.elems) && e !in hash.elems ==>
                  e in old(hash.marked)
        invariant hash.marked <= old(hash.marked)
        invariant From(bucketIndex) == start && start !! hash.marked
        decreases bucketIndexEnd - bucketIndex
      {
        assert start - hash.marked == start;
        ret := Enter();
        assert From(bucketIndex) == start;
        if ret != null { return; }
        bucketIndex := bucketIndex + 1;
      }
    }

    /** hash_iterator_delete_element: the last element returned is marked, not unlinked. */
    method DeleteElement()
      requires Ok() && last != null
      modifies this`bucketMarked, hash`at, hash`marked, last`key
      ensures Ok() && hash.elems == old(hash.elems) && Pending() == old(Pending())
      ensures last.key == None && hash.marked == old(hash.marked) + {last}
      ensures hash.at == if old(last.key).Some? then old(hash.at) - {old(last.key).value} else old(hash.at)
    {
      hash.BucketOf(bucket);
      hash.Mark(last);
      bucketMarked := true;
    }

    /** hash_iterator_free, also before the iteration has come to its end */
    method Free()
      requires Ok()
      modifies this`bucket, this`last, this`bucketMarked, hash, hash.buckets, hash.elems`next
      ensures hash.Valid() && hash.at == old(hash.at)
      ensures hash.elems <= old(hash.elems) && forall e :: e in old(hash.elems) ==>
              (e in hash.elems <==> e !in old(hash.marked))
    {
      Unlock();
    }
  }

  /** What is left of the entries `all`, with these `values`, when those with `value` go, except the ones
      in `todo`, which have not been looked at yet. */
  ghost predicate Purged<K, V>(at: map<K, Element<K, V>>, all: map<K, Element<K, V>>, values: map<K, V>, value: V,
                               todo: set<Element<K, V>>) {
    && all.Keys == values.Keys
    && (forall k :: k in at ==> k in all && at[k] == all[k])
    && (forall k :: k in all ==> (k in at <==> all[k] in todo || values[k] != value))
  }

  /** The elements still carry their values. */
  ghost predicate ValuesKept<K, V>(hash: Hash<K, V>, values: map<K, V>)
    reads hash, hash.elems
  {
    forall k :: k in hash.at ==> k in values && hash.at[k] in hash.elems && hash.at[k].value == values[k]
  }

  lemma PurgedContents<K, V>(hash: Hash<K, V>, all: map<K, Element<K, V>>, values: map<K, V>, value: V)
    requires hash.Inv() && Purged(hash.at, all, values, value, {}) && ValuesKept(hash, values)
    ensures hash.Contents() == map k | k in values && values[k] != value :: values[k]
  {}

  /** The key of an unmarked element is the only one it stands for. */
  lemma KeyOf<K, V>(hash: Hash<K, V>, he: Element<K, V>)
    requires hash.Inv() && he in hash.elems && he !in hash.marked
    ensures he.key.Some? && he.key.value in hash.at && hash.at[he.key.value] == he
    ensures forall k :: k in hash.at && hash.at[k] == he ==> k == he.key.value
  {
    assert hash.ElementOk(he);
    hash.OnlyAt(he);
  }

  lemma PurgedStep<K, V>(at: map<K, Element<K, V>>, all: map<K, Element<K, V>>, values: map<K, V>, value: V,
                         todo: set<Element<K, V>>, key: K)
    requires Purged(at, all, values, value, todo) && key in at && at[key] in todo
    requires forall k :: k in at && at[k] == at[key] ==> k == key
    ensures Purged(if values[key] == value then at - {key} else at, all, values, value, todo - {at[key]})
  {}

  /** The loop body: marks the element if it has the value. */
  method DeleteIfValue<K(==), V(==)>(hi: HashIterator<K, V>, he: Element<K, V>, value: V,
                                     ghost all: map<K, Element<K, V>>, ghost values: map<K, V>,
                                     ghost todo: set<Element<K, V>>)
    requires hi.Ok() && he in hi.hash.elems && he !in hi.hash.marked && hi.last == he && he in todo
    requires Purged(hi.hash.at, all, values, value, todo) && ValuesKept(hi.hash, values)
    modifies hi`bucketMarked, hi.hash`at, hi.hash`marked, he`key
    ensures hi.Ok() && hi.hash.elems == old(hi.hash.elems) && hi.Pending() == old(hi.Pending())
    ensures Purged(hi.hash.at, all, values, value, todo - {he}) && ValuesKept(hi.hash, values)
  {
    KeyOf(hi.hash, he);
    PurgedStep(hi.hash.at, all, values, value, todo, he.key.value);
    if he.value == value {
      hi.DeleteElement();
    }
  }

  method NextKept<K(==), V(==)>(hi: HashIterator<K, V>, ghost values: map<K, V>) returns (he: Element?<K, V>)
    requires hi.Ok() && ValuesKept(hi.hash, values)
    modifies hi, hi.hash, hi.hash.buckets, hi.hash.elems`next
    ensures hi.Ok() && hi.hash.elems <= old(hi.hash.elems) && hi.hash.at == old(hi.hash.at)
            && ValuesKept(hi.hash, values)
    ensures he != null ==> he in hi.hash.elems && he !in hi.hash.marked && hi.last == he
    ensures he != null ==> he in old(hi.Pending()) && hi.Pending() == old(hi.Pending()) - {he}
    ensures he == null ==> hi.elem == null && hi.Pending() == {} && old(hi.Pending()) == {}
  {
    he := hi.Next();
    forall k | k in hi.hash.at
      ensures hi.hash.at[k] in hi.hash.elems
    {
      assert hi.hash.KeyOk(k);
    }
  }

  method FreeKept<K(==), V(==)>(hi: HashIterator<K, V>, ghost values: map<K, V>)
    requires hi.Ok() && hi.elem == null && ValuesKept(hi.hash, values)
    modifies hi, hi.hash, hi.hash.buckets, hi.hash.elems`next
    ensures hi.hash.Valid() && hi.hash.elems <= old(hi.hash.elems) && hi.hash.at == old(hi.hash.at)
            && ValuesKept(hi.hash, values)
  {
    hi.Free();
    forall k | k in hi.hash.at
      ensures hi.hash.at[k] in hi.hash.elems
    {
      assert hi.hash.KeyOk(k);
    }
  }

  /** hash_remove_by_value: exactly the entries with this value go, and the count follows. */
  method RemoveByValue<K(==), V(==)>(hash: Hash<K, V>, value: V)
    requires hash.Valid()
    modifies hash, hash.buckets, hash.elems
    ensures hash.Valid() && hash.elems <= old(hash.elems)
    ensures hash.Contents() == map k | k in old(hash.Contents()) && old(hash.Contents())[k] != value ::
            old(hash.Contents())[k]
    ensures hash.nElements == |hash.Contents()|
  {
    forall k | k in hash.at
      ensures hash.at[k] in hash.elems
    {
      assert hash.KeyOk(k);
    }
    ghost var all, values, elems := hash.at, hash.Contents(), hash.elems;
    var hi := new HashIterator(hash);
    ghost var todo := hi.Pending();
    var he := NextKept(hi, values);
    while he != null
      invariant hi.Ok() && hi.hash == hash && fresh(hi) && hash.elems <= elems && ValuesKept(hash, values)
      invariant Purged(hash.at, all, values, value, todo)
      invariant he != null ==> he in hash.elems && he !in hash.marked && hi.last == he
      invariant he != null ==> he in todo && hi.Pending() == todo - {he}
      invariant he == null ==> hi.elem == null && todo == {}
      decreases todo
    {
      DeleteIfValue(hi, he, value, all, values, todo);
      todo := todo - {he};
      he := NextKept(hi, values);
    }
    FreeKept(hi, values);
    PurgedContents(hash, all, values, value);
    hash.ContentsSize();
  }
}
