/** The chained hash table of list.c: buckets of linked elements, lookup with move to front, and an
    iterator that marks elements for deletion and unlinks them when it leaves their bucket.

    Keys are compared by equality; the compiled-in hash function and its initial value are one
    function of the key. `hv & mask` is the remainder by the number of buckets. */
module HashTable {
  import opened Basics
  import opened Sequences

  /** A null key marks an element as deleted. */
  class Element<K, V> {
    var key: Option<K>
    var value: V
    const hashValue: nat
    var next: Element?<K, V>

    constructor (key: K, value: V, hashValue: nat, next: Element?<K, V>)
      ensures this.key == Some(key) && this.value == value && this.hashValue == hashValue && this.next == next
    {
      this.key, this.value, this.hashValue, this.next := Some(key), value, hashValue, next;
    }
  }

  /** The element at position `i`, or null behind the end. */
  ghost function At<K, V>(chain: seq<Element<K, V>>, i: nat): Element?<K, V> {
    if i < |chain| then chain[i] else null
  }

  /** Following `next` from `head` visits exactly `chain`. */
  ghost predicate Spine<K, V>(head: Element?<K, V>, chain: seq<Element<K, V>>)
    reads chain
  {
    && head == At(chain, 0)
    && (forall i {:trigger chain[i].next} :: 0 <= i < |chain| ==> chain[i].next == At(chain, i + 1))
    && (forall i, j :: 0 <= i < j < |chain| ==> chain[i] != chain[j])
  }

  /** Walks a bucket's list for an unmarked element with this hash value and key. */
  method Find<K(==), V>(head: Element?<K, V>, key: K, hv: nat, ghost chain: seq<Element<K, V>>)
      returns (prev: Element?<K, V>, he: Element?<K, V>, ghost i: nat)
    requires Spine(head, chain)
    ensures i <= |chain| && he == At(chain, i) && prev == if i == 0 then null else chain[i - 1]
    ensures he != null ==> he.hashValue == hv && he.key == Some(key)
    ensures he == null ==> forall e :: e in chain ==> !(e.hashValue == hv && e.key == Some(key))
  {
    prev, he, i := null, head, 0;
    while he != null
      invariant i <= |chain| && he == At(chain, i)
      invariant prev == if i == 0 then null else chain[i - 1]
      invariant forall j :: 0 <= j < i ==> !(chain[j].hashValue == hv && chain[j].key == Some(key))
      decreases |chain| - i
    {
      if hv == he.hashValue && he.key == Some(key) {
        return;
      }
      prev, he, i := he, he.next, i + 1;
    }
  }

  ghost function MovedToFront<T>(s: seq<T>, i: nat): seq<T>
    requires i < |s|
  {
    [s[i]] + s[..i] + s[i + 1..]
  }

  method MoveToFront<K, V>(head: Element<K, V>, prev: Element<K, V>, he: Element<K, V>,
                           ghost chain: seq<Element<K, V>>, ghost i: nat)
    requires Spine(head, chain) && 0 < i < |chain| && prev == chain[i - 1] && he == chain[i]
    modifies chain`next
    ensures Spine(he, MovedToFront(chain, i))
  {
    prev.next := he.next;
    he.next := head;
    ghost var moved := MovedToFront(chain, i);
    forall j | 0 <= j < |moved|
      ensures moved[j] == if j == 0 then he else if j <= i then chain[j - 1] else chain[j]
    {}
  }

  ghost function NonNull<K, V>(e: Element?<K, V>): set<Element<K, V>> {
    if e == null then {} else {e}
  }

  /** Takes element `i` out of its list. */
  method Unlink<K, V>(head: Element<K, V>, prev: Element?<K, V>, he: Element<K, V>, ghost chain: seq<Element<K, V>>,
                      ghost i: nat)
      returns (head': Element?<K, V>)
    requires Spine(head, chain) && i < |chain| && he == chain[i] && prev == if i == 0 then null else chain[i - 1]
    modifies NonNull(prev)`next
    ensures Spine(head', RemoveAt(chain, i))
    ensures he.next == old(he.next)
  {
    if prev != null {
      prev.next := he.next;
      head' := head;
    } else {
      head' := he.next;
    }
    ghost var rest := RemoveAt(chain, i);
    forall j | 0 <= j < |rest|
      ensures rest[j] == if j < i then chain[j] else chain[j + 1]
    {}
  }

  /** `rest` is `chain` without the elements `gone`, all of them marked, and looked through up to `i`. */
  ghost predicate Pruning<T>(chain: seq<T>, marks: set<T>, rest: seq<T>, gone: set<T>, i: nat) {
    && i <= |rest| && gone <= marks
    && (forall e :: e in rest ==> e in chain && e !in gone)
    && (forall e :: e in rest[..i] ==> e !in marks)
    && (forall e :: e in chain ==> e in rest || e in gone)
    && (forall e :: e in gone ==> e in chain)
  }

  lemma PruneKeeps<T>(chain: seq<T>, marks: set<T>, rest: seq<T>, gone: set<T>, i: nat)
    requires Pruning(chain, marks, rest, gone, i) && i < |rest| && rest[i] !in marks
    ensures Pruning(chain, marks, rest, gone, i + 1) && rest[i] in chain
  {
    assert rest[..i + 1] == rest[..i] + [rest[i]];
  }

  lemma PruneDrops<T>(chain: seq<T>, marks: set<T>, rest: seq<T>, gone: set<T>, i: nat, rest': seq<T>)
    requires Pruning(chain, marks, rest, gone, i) && i < |rest| && rest[i] in marks
    requires i <= |rest'| && rest'[..i] == rest[..i] && forall e :: e in rest' <==> e in rest && e != rest[i]
    ensures Pruning(chain, marks, rest', gone + {rest[i]}, i) && rest[i] !in gone
  {
    assert rest[i] in rest;
  }

  /** hash_remove_marked on one list: a single pass that unlinks every marked element. */
  method Prune<K, V>(head: Element?<K, V>, ghost chain: seq<Element<K, V>>, ghost marks: set<Element<K, V>>)
      returns (head': Element?<K, V>, removed: nat, ghost rest: seq<Element<K, V>>, ghost gone: set<Element<K, V>>)
    requires Spine(head, chain) && forall e :: e in chain ==> (e.key == None <==> e in marks)
    modifies chain`next
    ensures Spine(head', rest) && |gone| == removed && gone <= marks
    ensures forall e :: e in rest ==> e in chain && e !in marks
    ensures forall e :: e in chain ==> e in rest || e in gone
    ensures forall e :: e in gone ==> e in chain
  {
    var prev: Element?<K, V> := null;
    var he := head;
    head', removed, rest, gone := head, 0, chain, {};
    ghost var i := 0;
    while he != null
      invariant Spine(head', rest) && Pruning(chain, marks, rest, gone, i) && |gone| == removed && he == At(rest, i)
      invariant prev == (if i == 0 then null else rest[i - 1]) && (prev != null ==> prev in chain)
      decreases |rest| - i
    {
      assert he == rest[i] && rest[i] in chain;
      if he.key == None {
        head', he, rest, gone := PruneMarked(head', prev, he, chain, marks, rest, gone, i);
        removed := removed + 1;
      } else {
        PruneKeeps(chain, marks, rest, gone, i);
        prev, he, i := he, he.next, i + 1;
      }
    }
    assert rest[..i] == rest;
  }

  method PruneMarked<K, V>(head: Element?<K, V>, prev: Element?<K, V>, he: Element<K, V>,
                           ghost chain: seq<Element<K, V>>, ghost marks: set<Element<K, V>>,
                           ghost rest: seq<Element<K, V>>, ghost gone: set<Element<K, V>>, ghost i: nat)
      returns (head': Element?<K, V>, newhe: Element?<K, V>, ghost rest': seq<Element<K, V>>,
               ghost gone': set<Element<K, V>>)
    requires Spine(head, rest) && Pruning(chain, marks, rest, gone, i) && i < |rest| && he == rest[i] && he in marks
    requires prev == if i == 0 then null else rest[i - 1]
    modifies NonNull(prev)`next
    ensures Spine(head', rest') && Pruning(chain, marks, rest', gone', i) && newhe == At(rest', i)
    ensures |rest'| == |rest| - 1 && rest'[..i] == rest[..i] && |gone'| == |gone| + 1
  {
    head', newhe, rest' := PruneOne(head, prev, he, rest, i);
    PruneDrops(chain, marks, rest, gone, i, rest');
    gone' := gone + {he};
  }

  method PruneOne<K, V>(head: Element?<K, V>, prev: Element?<K, V>, he: Element<K, V>, ghost chain: seq<Element<K, V>>,
                        ghost i: nat)
      returns (head': Element?<K, V>, newhe: Element?<K, V>, ghost rest: seq<Element<K, V>>)
    requires Spine(head, chain) && i < |chain| && he == chain[i] && prev == if i == 0 then null else chain[i - 1]
    modifies NonNull(prev)`next
    ensures Spine(head', rest) && |rest| == |chain| - 1 && rest[..i] == chain[..i] && newhe == At(rest, i)
    ensures forall e :: e in rest <==> e in chain && e != he
  {
    newhe := he.next;
    WithoutSame(chain, i);
    head' := Unlink(head, prev, he, chain, i);
    rest := RemoveAt(chain, i);
  }

  lemma WithoutSame<T>(s: seq<T>, i: nat)
    requires i < |s| && forall j, k :: 0 <= j < k < |s| ==> s[j] != s[k]
    ensures forall e :: e in RemoveAt(s, i) <==> e in s && e != s[i]
  {
    assert s == s[..i] + [s[i]] + s[i + 1..];
  }

  class Hash<K(==), V(==)> {
    const hashFunction: K -> nat
    const buckets: array<Element?<K, V>>
    var nElements: int
    ghost var chains: seq<seq<Element<K, V>>>
    ghost var elems: set<Element<K, V>>
    /** The element of every key, and the elements marked for deletion. */
    ghost var at: map<K, Element<K, V>>
    ghost var marked: set<Element<K, V>>

    function Index(hv: nat): nat
      requires buckets.Length > 0
    {
      hv % buckets.Length
    }

    ghost predicate ChainOk(b: nat)
      requires b < |chains| == buckets.Length
      reads this, buckets, elems
    {
      && (forall e :: e in chains[b] ==> e in elems && Index(e.hashValue) == b)
      && Spine(buckets[b], chains[b])
    }

    /** What is known of one element. */
    ghost predicate ElementOk(e: Element<K, V>)
      requires 0 < |chains| == buckets.Length
      reads this, e
    {
      && e in chains[Index(e.hashValue)]
      && match e.key
         case Some(k) => k in at && at[k] == e && e.hashValue == hashFunction(k)
         case None => e in marked
    }

    ghost predicate KeyOk(k: K)
      requires k in at
      reads this, elems
    {
      at[k] in elems && at[k].key == Some(k)
    }

    ghost predicate MarkOk(e: Element<K, V>)
      reads this, elems
    {
      e in elems && e.key == None
    }

    ghost predicate Inv()
      reads this, buckets, elems
    {
      && 0 < |chains| == buckets.Length
      && (forall b: nat {:trigger ChainOk(b)} :: b < |chains| ==> ChainOk(b))
      && (forall e {:trigger ElementOk(e)} :: e in elems ==> ElementOk(e))
      && (forall k {:trigger KeyOk(k)} :: k in at ==> KeyOk(k))
      && (forall e {:trigger MarkOk(e)} :: e in marked ==> MarkOk(e))
      && nElements == |at| + |marked|
    }

    ghost predicate Valid()
      reads this, buckets, elems
    {
      Inv() && marked == {}
    }

    /** The finite map the table stands for. */
    ghost function Contents(): map<K, V>
      requires Inv()
      reads this, buckets, elems
    {
      map k | k in at :: assert KeyOk(k); at[k].value
    }

    lemma ContentsSize()
      requires Inv()
      ensures |Contents()| == |at| && Contents().Keys == at.Keys
    {
      assert Contents().Keys == at.Keys;
    }

    constructor (nBuckets: nat, hashFunction: K -> nat)
      requires nBuckets > 0
      ensures Valid() && Contents() == map[] && nElements == 0 && fresh(buckets)
    {
      this.hashFunction := hashFunction;
      buckets := new Element?<K, V>[nBuckets](_ => null);
      nElements := 0;
      chains := seq(nBuckets, _ => []);
      elems, at, marked := {}, map[], {};
    }

    /** Relinking the elements of one bucket keeps the invariant if its new chain has the same ones. */
    twostate lemma Relinked(b: nat)
      requires old(Inv()) && b < old(|chains|)
      requires |chains| == old(|chains|) && (forall c: nat :: c < |chains| && c != b ==>
                                             chains[c] == old(chains)[c] && buckets[c] == old(buckets[c]))
      requires at == old(at) && marked == old(marked) && elems == old(elems) && nElements == old(nElements)
      requires forall e :: e in elems ==> e.key == old(e.key)
      requires forall e :: e in elems && Index(e.hashValue) != b ==> e.next == old(e.next)
      requires forall e :: e in chains[b] <==> e in old(chains)[b]
      requires Spine(buckets[b], chains[b])
      ensures Inv()
    {
      forall c: nat | c < |chains|
        ensures ChainOk(c)
      {
        assert old(ChainOk(c));
      }
      forall e | e in elems
        ensures ElementOk(e)
      {
        assert old(ElementOk(e));
      }
      forall k | k in at
        ensures KeyOk(k)
      {
        assert old(KeyOk(k));
      }
      forall e | e in marked
        ensures MarkOk(e)
      {
        assert old(MarkOk(e));
      }
    }

    /** Moves element `i` of bucket `b` to the head of its list. */
    method Promote(b: nat, prev: Element<K, V>, he: Element<K, V>, ghost i: nat)
      requires Inv() && b < |chains| && 0 < i < |chains[b]| && prev == chains[b][i - 1] && he == chains[b][i]
      modifies this`chains, buckets, chains[b]`next
      ensures Inv() && elems == old(elems)
      ensures chains == old(chains)[b := MovedToFront(old(chains[b]), i)]
    {
      ghost var chain := chains[b];
      assert ChainOk(b);
      MoveToFront(buckets[b], prev, he, chain, i);
      buckets[b] := he;
      chains := chains[b := MovedToFront(chain, i)];
      MovedSame(chain, i);
      Relinked(b);
    }

    method LookupFast(b: nat, key: K, hv: nat) returns (he: Element?<K, V>)
      requires Valid() && hv == hashFunction(key) && b == Index(hv)
      modifies this`chains, buckets, elems`next
      ensures Valid() && elems == old(elems)
      ensures he == if key in at then at[key] else null
    {
      assert ChainOk(b);
      if key in at { assert KeyOk(key); assert ElementOk(at[key]); }
      var prev;
      ghost var i;
      prev, he, i := Find(buckets[b], key, hv, chains[b]);
      if he != null {
        assert ElementOk(he);
        if prev != null {
          Promote(b, prev, he, i);
        }
      }
    }

    method Lookup(key: K) returns (value: Option<V>)
      requires Valid()
      modifies this`chains, buckets, elems`next
      ensures Valid() && Contents() == old(Contents()) && nElements == |Contents()|
      ensures value == if key in Contents() then Some(Contents()[key]) else None
    {
      var hv := hashFunction(key);
      var he := LookupFast(Index(hv), key, hv);
      ContentsSize();
      value := if he == null then None else Some(he.value);
    }

    // ---- adding

    /** The new head of bucket `b`, in front of its old list, is the element of a new key. */
    twostate lemma Added(b: nat)
      requires old(Inv()) && b < old(|chains|) && buckets[b] != null && buckets[b] !in old(elems)
      requires buckets[b].key.Some? && buckets[b].key.value !in old(at)
      requires buckets[b].hashValue == hashFunction(buckets[b].key.value) && Index(buckets[b].hashValue) == b
      requires buckets[b].next == old(buckets[b])
      requires chains == old(chains)[b := [buckets[b]] + old(chains)[b]]
      requires forall c: nat :: c < |chains| && c != b ==> buckets[c] == old(buckets[c])
      requires at == old(at)[buckets[b].key.value := buckets[b]] && marked == old(marked)
      requires elems == old(elems) + {buckets[b]} && nElements == old(nElements) + 1
      requires forall e :: e in old(elems) ==> e.key == old(e.key) && e.next == old(e.next)
      ensures Inv()
    {
      forall c: nat | c < |chains|
        ensures ChainOk(c)
      {
        assert old(ChainOk(c));
      }
      forall e | e in elems
        ensures ElementOk(e)
      {
        if e != buckets[b] { assert old(ElementOk(e)); }
      }
      forall k | k in at
        ensures KeyOk(k)
      {
        if k in old(at) { assert old(KeyOk(k)); }
      }
      forall e | e in marked
        ensures MarkOk(e)
      {
        assert old(MarkOk(e));
      }
    }

    /** Makes a new element, already pointing at the old list, the head of its bucket. */
    method LinkHead(b: nat, key: K, he: Element<K, V>)
      requires Valid() && key !in at && he !in elems && he.key == Some(key)
      requires he.hashValue == hashFunction(key) && Index(he.hashValue) == b && he.next == buckets[b]
      modifies this, buckets
      ensures Valid() && elems == old(elems) + {he} && at == old(at)[key := he]
    {
      buckets[b] := he;
      nElements := nElements + 1;
      chains := chains[b := [he] + chains[b]];
      elems := elems + {he};
      at := at[key := he];
      Added(b);
    }

    /** hash_add_fast: a new element at the head of its bucket's list. */
    method AddFast(b: nat, key: K, hv: nat, value: V)
      requires Valid() && hv == hashFunction(key) && b == Index(hv) && key !in at
      modifies this, buckets
      ensures Valid() && fresh(elems - old(elems)) && elems >= old(elems)
      ensures Contents() == old(Contents())[key := value]
    {
      var he := new Element(key, value, hv, buckets[b]);
      LinkHead(b, key, he);
    }

    /** Overwrites the value of a present element. */
    method SetValue(he: Element<K, V>, ghost key: K, value: V)
      requires Valid() && key in at && he == at[key]
      modifies he`value
      ensures Valid() && Contents() == old(Contents())[key := value]
    {
      assert KeyOk(key);
      he.value := value;
      SameKeys();
      forall k | k in at && k != key
        ensures at[k] != he
      {
        assert KeyOk(k) && KeyOk(key);
      }
    }

    method Add(key: K, value: V, replace: bool) returns (ret: bool)
      requires Valid()
      modifies this, buckets, elems
      ensures Valid() && fresh(elems - old(elems))
      ensures ret == (replace || key !in old(Contents()))
      ensures Contents() == if ret then old(Contents())[key := value] else old(Contents())
      ensures nElements == |Contents()|
    {
      var hv := hashFunction(key);
      var he := LookupFast(Index(hv), key, hv);
      assert Contents() == old(Contents());
      if he == null {
        AddFast(Index(hv), key, hv, value);
        ret := true;
      } else if replace {
        assert KeyOk(key);
        SetValue(he, key, value);
        ret := true;
      } else {
        ret := false;
      }
      ContentsSize();
    }

    twostate lemma SameKeys()
      requires old(Inv()) && chains == old(chains) && at == old(at) && marked == old(marked) && elems == old(elems)
      requires nElements == old(nElements) && buckets[..] == old(buckets[..])
      requires forall e :: e in elems ==> e.key == old(e.key) && e.next == old(e.next)
      ensures Inv()
    {
      forall c: nat | c < |chains|
        ensures ChainOk(c)
      {
        assert old(ChainOk(c));
        assert buckets[c] == buckets[..][c];
      }
      forall e | e in elems
        ensures ElementOk(e)
      {
        assert old(ElementOk(e));
      }
      forall k | k in at
        ensures KeyOk(k)
      {
        assert old(KeyOk(k));
      }
      forall e | e in marked
        ensures MarkOk(e)
      {
        assert old(MarkOk(e));
      }
    }

    // ---- removing

    /** Element `pos.1` of bucket `pos.0` is gone from its list. */
    twostate predicate Dropped(pos: (nat, nat))
      reads *
    {
      var (b, i) := pos;
      && old(Inv()) && b < old(|chains|) && i < old(|chains[b]|)
      && chains == old(chains)[b := RemoveAt(old(chains)[b], i)]
      && (forall c: nat :: c < |chains| && c != b ==> buckets[c] == old(buckets[c]))
      && elems == old(elems) - {old(chains)[b][i]} && nElements == old(nElements) - 1
      && (forall e :: e in old(elems) ==> e.key == old(e.key))
      && (forall e :: e in elems && Index(e.hashValue) != b ==> e.next == old(e.next))
      && Spine(buckets[b], chains[b])
    }

    twostate lemma DroppedChains(pos: (nat, nat))
      requires Dropped(pos)
      ensures 0 < |chains| == buckets.Length
      ensures forall c: nat :: c < |chains| ==> ChainOk(c)
      ensures forall e :: e in elems ==> e in chains[Index(e.hashValue)]
    {
      var (b, i) := pos;
      assert old(ChainOk(b));
      WithoutSame(old(chains)[b], i);
      forall c: nat | c < |chains|
        ensures ChainOk(c)
      {
        assert old(ChainOk(c));
      }
      forall e | e in elems
        ensures e in chains[Index(e.hashValue)]
      {
        assert old(ElementOk(e));
      }
    }

    twostate lemma RemovedUnmarked(pos: (nat, nat))
      requires Dropped(pos)
      requires var key := old(chains[pos.0][pos.1].key); key.Some? && at == old(at) - {key.value}
      requires marked == old(marked)
      ensures Inv()
    {
      DroppedChains(pos);
      var he := old(chains)[pos.0][pos.1];
      assert old(ChainOk(pos.0)) && he in old(chains)[pos.0];
      assert old(ElementOk(he));
      forall e | e in elems
        ensures ElementOk(e)
      {
        assert old(ElementOk(e));
      }
      forall k | k in at
        ensures KeyOk(k)
      {
        assert old(KeyOk(k));
      }
      forall e | e in marked
        ensures MarkOk(e)
      {
        assert old(MarkOk(e));
      }
      assert at.Keys == old(at).Keys - {he.key.value};
    }

    twostate lemma RemovedMarked(pos: (nat, nat))
      requires Dropped(pos)
      requires old(chains[pos.0][pos.1].key) == None && at == old(at)
      requires marked == old(marked) - {old(chains)[pos.0][pos.1]}
      ensures Inv()
    {
      DroppedChains(pos);
      var he := old(chains)[pos.0][pos.1];
      assert old(ChainOk(pos.0)) && he in old(chains)[pos.0];
      assert old(ElementOk(he));
      forall e | e in elems
        ensures ElementOk(e)
      {
        assert old(ElementOk(e));
      }
      forall k | k in at
        ensures KeyOk(k)
      {
        assert old(KeyOk(k));
      }
      forall e | e in marked
        ensures MarkOk(e)
      {
        assert old(MarkOk(e));
      }
    }

    method Detach(b: nat, prev: Element?<K, V>, he: Element<K, V>, ghost i: nat)
      requires Inv() && b < |chains| && i < |chains[b]| && he == chains[b][i]
               && prev == if i == 0 then null else chains[b][i - 1]
      modifies this`nElements, this`chains, this`elems, buckets, chains[b]`next
      ensures Dropped((b, i)) && he.next == old(he.next)
    {
      assert ChainOk(b);
      ghost var chain := chains[b];
      buckets[b] := Unlink(buckets[b], prev, he, chain, i);
      nElements := nElements - 1;
      chains := chains[b := RemoveAt(chain, i)];
      elems := elems - {he};
    }

    /** Unlinks element `i` of bucket `b`, marked or not, and gives up its memory. */
    method Drop(b: nat, prev: Element?<K, V>, he: Element<K, V>, ghost i: nat)
      requires Inv() && b < |chains| && i < |chains[b]| && he == chains[b][i]
               && prev == if i == 0 then null else chains[b][i - 1]
      modifies this, buckets, chains[b]`next
      ensures Inv() && chains == old(chains)[b := RemoveAt(old(chains[b]), i)] && elems == old(elems) - {he}
      ensures at == (if he.key.Some? then old(at) - {he.key.value} else old(at))
      ensures marked == (if he.key.Some? then old(marked) else old(marked) - {he})
      ensures he.next == old(he.next)
    {
      Detach(b, prev, he, i);
      if he.key.Some? {
        at := at - {he.key.value};
        RemovedUnmarked((b, i));
      } else {
        marked := marked - {he};
        RemovedMarked((b, i));
      }
    }

    method RemoveFast(b: nat, key: K, hv: nat) returns (found: bool)
      requires Valid() && hv == hashFunction(key) && b == Index(hv)
      modifies this, buckets, elems`next
      ensures Valid() && elems <= old(elems)
      ensures found == (key in old(at)) && at == old(at) - {key}
    {
      assert ChainOk(b);
      if key in at { assert KeyOk(key); assert ElementOk(at[key]); }
      var prev, he;
      ghost var i;
      prev, he, i := Find(buckets[b], key, hv, chains[b]);
      if he == null {
        found := false;
      } else {
        assert ElementOk(he);
        Drop(b, prev, he, i);
        found := true;
      }
    }

    method Remove(key: K) returns (found: bool)
      requires Valid()
      modifies this, buckets, elems`next
      ensures Valid() && elems <= old(elems)
      ensures found == (key in old(Contents())) && Contents() == old(Contents()) - {key}
      ensures nElements == |Contents()|
    {
      var hv := hashFunction(key);
      found := RemoveFast(Index(hv), key, hv);
      ContentsWithout(key);
      ContentsSize();
    }

    twostate lemma ContentsWithout(key: K)
      requires old(Inv()) && Inv() && at == old(at) - {key}
      requires forall e :: e in elems ==> e in old(elems) && e.value == old(e.value)
      ensures Contents() == old(Contents()) - {key}
    {
      forall k | k in at
        ensures at[k].value == old(at[k].value)
      {
        assert KeyOk(k);
      }
    }

    /** Clears an element's key: it stays linked, but no longer belongs to the contents. */
    method Mark(he: Element<K, V>)
      requires Inv() && he in elems
      modifies this`at, this`marked, he`key
      ensures Inv() && he.key == None && marked == old(marked) + {he}
      ensures at == if old(he.key).Some? then old(at) - {old(he.key).value} else old(at)
    {
      assert ElementOk(he);
      if he.key.Some? {
        OnlyAt(he);
        forall e | e in marked
          ensures e in elems && e.key == None
        {
          assert MarkOk(e);
        }
        at := at - {he.key.value};
        marked := marked + {he};
        he.key := None;
        Marked();
      }
    }

    lemma OnlyAt(he: Element<K, V>)
      requires Inv() && he in elems && he.key.Some?
      ensures he !in marked && he.key.value in at
      ensures forall k :: k in at && k != he.key.value ==> at[k] != he && at[k] !in marked
      ensures |at - {he.key.value}| == |at| - 1
    {
      assert ElementOk(he);
      forall k | k in at && k != he.key.value
        ensures at[k] != he && at[k] !in marked
      {
        assert KeyOk(k);
        assert at[k] in marked ==> MarkOk(at[k]);
      }
      assert he in marked ==> MarkOk(he);
      assert (at - {he.key.value}).Keys == at.Keys - {he.key.value};
    }

    twostate lemma Marked()
      requires old(Inv()) && chains == old(chains) && elems == old(elems) && nElements == old(nElements)
      requires buckets[..] == old(buckets[..])
      requires marked > old(marked) && |marked| == |old(marked)| + 1
      requires forall e :: e in elems ==>
               e.next == old(e.next) && (e.key == old(e.key) || (e.key == None && e in marked))
      requires forall e :: e in marked ==> e in elems && e.key == None
      requires forall k :: k in at ==> k in old(at) && at[k] == old(at)[k] && at[k] !in marked
      requires forall k :: k in old(at) && k !in at ==> old(at)[k] in marked
      requires |at| == |old(at)| - 1
      ensures Inv()
    {
      forall c: nat | c < |chains|
        ensures ChainOk(c)
      {
        assert old(ChainOk(c));
        assert buckets[c] == buckets[..][c];
      }
      forall e | e in elems
        ensures ElementOk(e)
      {
        assert old(ElementOk(e));
      }
      forall k | k in at
        ensures KeyOk(k)
      {
        assert old(KeyOk(k));
      }
      forall e | e in marked
        ensures MarkOk(e)
      {
        if e in old(marked) { assert old(MarkOk(e)); }
      }
    }

    /** The marked elements of bucket `b` are gone. */
    twostate predicate PrunedBucket(b: nat)
      reads *
    {
      && old(Inv()) && b < old(|chains|) == |chains|
      && (forall c: nat :: c < |chains| && c != b ==> chains[c] == old(chains)[c] && buckets[c] == old(buckets[c]))
      && Spine(buckets[b], chains[b])
      && (forall e :: e in chains[b] ==> e in old(chains)[b] && e !in old(marked))
      && (forall e :: e in old(chains)[b] ==> e in chains[b] || e in old(marked))
      && elems <= old(elems)
      && (forall e :: e in old(elems) ==> (e in elems <==> !(Index(e.hashValue) == b && e in old(marked))))
      && (forall e :: e in old(elems) ==> e.key == old(e.key))
      && (forall e :: e in elems && Index(e.hashValue) != b ==> e.next == old(e.next))
    }

    twostate lemma PrunedChains(b: nat)
      requires PrunedBucket(b)
      ensures forall c: nat :: c < |chains| ==> ChainOk(c)
    {
      forall c: nat | c < |chains|
        ensures ChainOk(c)
      {
        assert old(ChainOk(c));
      }
    }

    twostate lemma Pruned(b: nat)
      requires PrunedBucket(b) && at == old(at) && nElements == |at| + |marked|
      requires marked <= old(marked) && forall e :: e in old(marked) ==> (e in marked <==> Index(e.hashValue) != b)
      ensures Inv()
    {
      PrunedChains(b);
      forall e | e in elems
        ensures ElementOk(e)
      {
        assert old(ElementOk(e));
      }
      forall k | k in at
        ensures KeyOk(k)
      {
        assert old(KeyOk(k));
        assert at[k] in old(marked) ==> old(MarkOk(at[k]));
      }
      forall e | e in marked
        ensures MarkOk(e)
      {
        assert old(MarkOk(e));
      }
    }

    method DetachMarked(b: nat) returns (ghost gone: set<Element<K, V>>)
      requires Inv() && b < buckets.Length
      modifies this`nElements, this`chains, this`elems, buckets, chains[b]`next
      ensures PrunedBucket(b) && nElements == old(nElements) - |gone|
      ensures gone <= marked && forall e :: e in marked ==> (e in gone <==> Index(e.hashValue) == b)
    {
      BucketOf(b);
      var removed;
      ghost var rest;
      buckets[b], removed, rest, gone := Prune(buckets[b], chains[b], marked);
      nElements := nElements - removed;
      chains := chains[b := rest];
      elems := elems - gone;
    }

    method RemoveMarked(b: nat)
      requires Inv() && b < buckets.Length
      modifies this, buckets, elems`next
      ensures Inv() && at == old(at) && |chains| == old(|chains|)
      ensures elems <= old(elems) && marked <= old(marked)
      ensures forall e :: e in old(elems) ==> (e in elems <==> !(Index(e.hashValue) == b && e in old(marked)))
      ensures forall e :: e in old(marked) ==> (e in marked <==> Index(e.hashValue) != b)
    {
      assert ChainOk(b);
      ghost var gone := DetachMarked(b);
      RestSize(marked, gone);
      marked := marked - gone;
      Pruned(b);
    }

    lemma BucketOf(b: nat)
      requires Inv() && b < |chains|
      ensures Spine(buckets[b], chains[b]) && marked <= elems
      ensures forall e :: e in chains[b] ==> e in elems && (e.key == None <==> e in marked)
      ensures forall e :: e in elems ==> (e in chains[b] <==> Index(e.hashValue) == b)
    {
      assert ChainOk(b);
      forall e | e in marked
        ensures e in elems
      {
        assert MarkOk(e);
      }
      forall e | e in elems
        ensures e in chains[b] <==> Index(e.hashValue) == b
        ensures e.key == None <==> e in marked
      {
        assert ElementOk(e);
        if e in marked { assert MarkOk(e); }
      }
    }
  }

  lemma RestSize<T>(s: set<T>, gone: set<T>)
    requires gone <= s
    ensures |s - gone| == |s| - |gone|
  {
    assert s == (s - gone) + gone;
  }

  lemma MovedSame<T>(s: seq<T>, i: nat)
    requires i < |s|
    ensures forall e :: e in MovedToFront(s, i) <==> e in s
  {
    assert s == s[..i] + [s[i]] + s[i + 1..];
  }
}
