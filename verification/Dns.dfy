/**
 * DNS server lists: singly linked, in order of priority, searched and merged in place.
 */
module Dns {
  import opened Sequences

  class DnsServer {
    const priority: int
    var next: DnsServer?
    /** The addresses and settings of the server. */
    var settings: seq<int>

    constructor (priority: int, next: DnsServer?)
      ensures this.priority == priority && this.next == next && settings == []
    {
      this.priority, this.next, settings := priority, next, [];
    }
  }

  // ---- lists as sequences of their nodes

  /** The node at `i`, or `tail` behind the last. */
  ghost function At(chain: seq<DnsServer>, i: nat, tail: DnsServer?): DnsServer? {
    if i < |chain| then chain[i] else tail
  }

  /** `chain` lists the nodes from `head` up to `tail`. */
  ghost predicate Linked(head: DnsServer?, chain: seq<DnsServer>, tail: DnsServer?)
    reads chain`next
  {
    && head == At(chain, 0, tail)
    && forall i {:trigger chain[i].next} :: 0 <= i < |chain| ==> chain[i].next == At(chain, i + 1, tail)
  }

  lemma LinkedConcat(head: DnsServer?, a: seq<DnsServer>, mid: DnsServer?, b: seq<DnsServer>, tail: DnsServer?)
    requires Linked(head, a, mid) && Linked(mid, b, tail)
    ensures Linked(head, a + b, tail)
  {
    forall i {:trigger (a + b)[i].next} | 0 <= i < |a + b|
      ensures (a + b)[i].next == At(a + b, i + 1, tail)
    {
      if i < |a| { assert a[i].next == At(a, i + 1, mid); } else { assert b[i - |a|].next == At(b, i - |a| + 1, tail); }
    }
  }

  lemma LinkedSplit(head: DnsServer?, chain: seq<DnsServer>, k: nat, tail: DnsServer?)
    requires Linked(head, chain, tail) && k <= |chain|
    ensures Linked(head, chain[..k], At(chain, k, tail)) && Linked(At(chain, k, tail), chain[k..], tail)
  {
    var a, b := chain[..k], chain[k..];
    forall i {:trigger b[i].next} | 0 <= i < |b| ensures b[i].next == At(b, i + 1, tail) {
      assert chain[k + i].next == At(chain, k + i + 1, tail);
    }
  }

  /** Strictly in order, so with one node per priority. */
  ghost predicate Sorted(chain: seq<DnsServer>) {
    forall i, j :: 0 <= i < j < |chain| ==> chain[i].priority < chain[j].priority
  }

  /** The node of each priority. */
  ghost function Table(chain: seq<DnsServer>): map<int, DnsServer> {
    if chain == [] then map[] else Table(chain[1..])[chain[0].priority := chain[0]]
  }

  /** The result of the merge of pulled servers `a` and static servers `b`. */
  ghost function Merge(a: seq<DnsServer>, b: seq<DnsServer>): seq<DnsServer>
    decreases |a| + |b|
  {
    if a == [] then b
    else if b == [] then a
    else if a[0].priority > b[0].priority then [b[0]] + Merge(a, b[1..])
    else if a[0].priority == b[0].priority then [a[0]] + Merge(a[1..], b[1..])
    else [a[0]] + Merge(a[1..], b)
  }

  lemma {:induction false} TableKeys(chain: seq<DnsServer>, k: int)
    requires Sorted(chain)
    ensures k in Table(chain) ==> Table(chain)[k] in chain && Table(chain)[k].priority == k >= chain[0].priority
  {
    if chain != [] {
      TableKeys(chain[1..], k);
    }
  }

  /** The merge is the union of the two tables in which a pulled server overrides a static one. */
  lemma {:induction false} MergeIsUnion(a: seq<DnsServer>, b: seq<DnsServer>)
    requires Sorted(a) && Sorted(b)
    ensures Table(Merge(a, b)) == Table(b) + Table(a)
    decreases |a| + |b|
  {
    if a != [] && b != [] {
      if a[0].priority > b[0].priority {
        MergeIsUnion(a, b[1..]);
        TableKeys(a, b[0].priority);
        TablePrefix(b[0], Merge(a, b[1..]));
      } else if a[0].priority == b[0].priority {
        MergeIsUnion(a[1..], b[1..]);
        TablePrefix(a[0], Merge(a[1..], b[1..]));
      } else {
        MergeIsUnion(a[1..], b);
        TablePrefix(a[0], Merge(a[1..], b));
      }
    }
  }

  lemma TablePrefix(x: DnsServer, chain: seq<DnsServer>)
    ensures Table([x] + chain) == Table(chain)[x.priority := x]
  {
    assert ([x] + chain)[1..] == chain;
  }

  /** Everything in `chain` comes after priority `p`. */
  ghost predicate Above(chain: seq<DnsServer>, p: int) {
    forall i :: 0 <= i < |chain| ==> p < chain[i].priority
  }

  lemma {:induction false} MergeAbove(a: seq<DnsServer>, b: seq<DnsServer>, p: int)
    requires Above(a, p) && Above(b, p)
    ensures Above(Merge(a, b), p)
    decreases |a| + |b|
  {
    if a != [] && b != [] {
      if a[0].priority > b[0].priority {
        MergeAbove(a, b[1..], p);
      } else if a[0].priority == b[0].priority {
        MergeAbove(a[1..], b[1..], p);
      } else {
        MergeAbove(a[1..], b, p);
      }
    }
  }

  lemma {:induction false} MergeSorted(a: seq<DnsServer>, b: seq<DnsServer>)
    requires Sorted(a) && Sorted(b)
    ensures Sorted(Merge(a, b))
    decreases |a| + |b|
  {
    if a != [] && b != [] {
      if a[0].priority > b[0].priority {
        MergeSorted(a, b[1..]);
        MergeAbove(a, b[1..], b[0].priority);
      } else if a[0].priority == b[0].priority {
        MergeSorted(a[1..], b[1..]);
        MergeAbove(a[1..], b[1..], a[0].priority);
      } else {
        MergeSorted(a[1..], b);
        MergeAbove(a[1..], b, a[0].priority);
      }
    }
  }

  // ---- the lists of the options

  ghost function NonNull(x: DnsServer?): set<DnsServer> {
    if x == null then {} else {x}
  }

  ghost predicate Disjoint(a: seq<DnsServer>, b: seq<DnsServer>) {
    forall x :: x in a ==> x !in b
  }

  /** The last node of `done`, or null: the cursor into the list stands behind it. */
  ghost predicate Cursor(prev: DnsServer?, done: seq<DnsServer>) {
    prev == if done == [] then null else done[|done| - 1]
  }

  class DnsOptions {
    var servers: DnsServer?
    var serversPrepull: DnsServer?
    ghost var chain: seq<DnsServer>
    ghost var chainPrepull: seq<DnsServer>

    ghost predicate Valid()
      reads this, chain`next, chainPrepull`next
    {
      && Linked(servers, chain, null) && Sorted(chain)
      && Linked(serversPrepull, chainPrepull, null) && Sorted(chainPrepull)
      && Disjoint(chain, chainPrepull)
    }

    constructor ()
      ensures Valid() && chain == [] && chainPrepull == []
    {
      servers, serversPrepull, chain, chainPrepull := null, null, [], [];
    }

    /** `*entry = x`, where the cursor stands behind `done`. */
    method SetEntry(prev: DnsServer?, x: DnsServer?, ghost done: seq<DnsServer>, ghost was: DnsServer?)
      requires Cursor(prev, done) && Sorted(done) && Linked(servers, done, was)
      modifies this`servers, NonNull(prev)`next
      ensures Linked(servers, done, x)
    {
      if prev == null {
        servers := x;
      } else {
        prev.next := x;
      }
    }

    /** The server with this priority; a new one is put in its place when there is none. */
    method ServerGet(priority: int) returns (r: DnsServer)
      requires Valid()
      modifies this`servers, this`chain, chain`next
      ensures Valid() && chainPrepull == old(chainPrepull) && r.priority == priority
      ensures Table(chain) == old(Table(chain))[priority := r]
      ensures if priority in old(Table(chain)) then r == old(Table(chain))[priority] && chain == old(chain)
              else fresh(r) && r.settings == []
    {
      var prev: DnsServer?, obj := null, servers;
      ghost var k := 0;
      while true
        invariant Valid() && chain == old(chain) && k <= |chain|
        invariant obj == At(chain, k, null) && Cursor(prev, chain[..k])
        invariant forall i :: 0 <= i < k ==> chain[i].priority < priority
        decreases |chain| - k
      {
        if obj == null || obj.priority > priority {
          r := Insert(prev, obj, priority, k);
          TableInsert(old(chain), k, r);
          return;
        } else if obj.priority == priority {
          TableHas(chain, k);
          return obj;
        }
        prev := obj;
        obj := obj.next;
        k := k + 1;
      }
    }

    /** A new server between `prev` and `obj`. */
    method Insert(prev: DnsServer?, obj: DnsServer?, priority: int, ghost k: nat) returns (r: DnsServer)
      requires Valid() && k <= |chain| && obj == At(chain, k, null) && Cursor(prev, chain[..k])
      requires forall i :: 0 <= i < k ==> chain[i].priority < priority
      requires obj != null ==> priority < obj.priority
      modifies this`servers, this`chain, chain`next
      ensures Valid() && fresh(r) && r.priority == priority && r.settings == []
      ensures chain == old(chain)[..k] + [r] + old(chain)[k..] && chainPrepull == old(chainPrepull)
    {
      assert forall i :: 0 <= i < |chainPrepull| ==> chainPrepull[i] !in chain;
      r := InsertEntry(prev, obj, priority, k);
      SortedInsert(chain, k, r);
      DisjointInsert(chain, k, r, chainPrepull);
      chain := chain[..k] + [r] + chain[k..];
    }

    method InsertEntry(prev: DnsServer?, obj: DnsServer?, priority: int, ghost k: nat) returns (r: DnsServer)
      requires Linked(servers, chain, null) && Sorted(chain)
      requires k <= |chain| && obj == At(chain, k, null) && Cursor(prev, chain[..k])
      modifies this`servers, chain`next
      ensures fresh(r) && r.priority == priority && r.settings == []
      ensures Linked(servers, chain[..k] + [r] + chain[k..], null)
    {
      LinkedSplit(servers, chain, k, null);
      CursorSplit(prev, chain, k);
      r := AllocEntry(prev, obj, priority, chain[..k], chain[k..]);
    }

    method AllocEntry(prev: DnsServer?, obj: DnsServer?, priority: int, ghost done: seq<DnsServer>,
                      ghost rest: seq<DnsServer>)
        returns (r: DnsServer)
      requires Cursor(prev, done) && Sorted(done + rest) && Linked(servers, done, obj) && Linked(obj, rest, null)
      modifies this`servers, NonNull(prev)`next
      ensures fresh(r) && r.priority == priority && r.settings == [] && Linked(servers, done + [r] + rest, null)
    {
      r := new DnsServer(priority, obj);
      Splice(prev, r, done, rest);
    }

    /** Node `x`, whose successor is already set, is linked in behind the cursor. */
    method Splice(prev: DnsServer?, x: DnsServer, ghost done: seq<DnsServer>, ghost rest: seq<DnsServer>)
      requires Cursor(prev, done) && Sorted(done + rest) && x !in done
      requires Linked(servers, done, x.next) && Linked(x.next, rest, null)
      modifies this`servers, NonNull(prev)`next
      ensures Linked(servers, done + [x] + rest, null) && Linked(servers, done + [x], x.next)
              && Linked(x.next, rest, null)
    {
      ghost var obj := x.next;
      SortedParts(done, rest);
      SetEntry(prev, x, done, obj);
      assert Linked(x, [x], obj);
      LinkedConcat(servers, done, x, [x], obj);
      LinkedConcat(servers, done + [x], obj, rest, null);
    }

    /** Before a pull the configured servers are set aside. */
    method PreprocessPull()
      requires Valid()
      modifies this
      ensures Valid() && chain == [] && chainPrepull == old(chain)
    {
      serversPrepull := servers;
      servers := null;
      chainPrepull, chain := chain, [];
    }

    /** The merge stands behind `done`; pulled servers `a` and static servers `b` are still to come. */
    ghost predicate Merging(prev: DnsServer?, server: DnsServer?, pp: DnsServer?,
                            done: seq<DnsServer>, a: seq<DnsServer>, b: seq<DnsServer>)
      reads this, done`next, a`next, b`next
    {
      && Cursor(prev, done) && Linked(servers, done, server) && Linked(server, a, null) && Linked(pp, b, null)
      && Ordered(done, a, b)
    }

    /** The static server `pp` is linked in front of the pulled one. */
    method MergeFront(prev: DnsServer?, server: DnsServer, pp: DnsServer,
                      ghost done: seq<DnsServer>, ghost a: seq<DnsServer>, ghost b: seq<DnsServer>)
        returns (nextPp: DnsServer?)
      requires Merging(prev, server, pp, done, a, b) && a != [] && b != [] && server.priority > pp.priority
      modifies this`servers, NonNull(prev)`next, pp`next
      ensures pp.next == server && Merging(pp, server, nextPp, done + [pp], a, b[1..])
    {
      SortedParts(done, a);
      SortedParts(done, b);
      LinkedSplit(pp, b, 1, null);
      TakeStatic(done, a, b);
      nextPp := pp.next;
      assert pp !in b[1..] && pp !in done && pp !in a;
      assert prev != null ==> prev in done && prev !in b;
      pp.next := server;
      Splice(prev, pp, done, a);
    }

    /** The cursor passes a pulled server, which overrides a static one of the same priority. */
    lemma MergePast(prev: DnsServer?, server: DnsServer, pp: DnsServer,
                    done: seq<DnsServer>, a: seq<DnsServer>, b: seq<DnsServer>)
      requires Merging(prev, server, pp, done, a, b) && a != [] && b != [] && server.priority <= pp.priority
      ensures if server.priority == pp.priority
              then Merging(server, server.next, pp.next, done + [server], a[1..], b[1..])
              else Merging(server, server.next, pp, done + [server], a[1..], b)
    {
      LinkedSplit(server, a, 1, null);
      LinkedSplit(pp, b, 1, null);
      assert a[..1] == [server];
      LinkedConcat(servers, done, server, [server], server.next);
      if server.priority == pp.priority { TakeEqual(done, a, b); } else { TakePulled(done, a, b); }
    }

    /** The static servers behind the last pulled one. */
    method AppendRest(prev: DnsServer?, server: DnsServer?, pp: DnsServer?,
                      ghost done: seq<DnsServer>, ghost a: seq<DnsServer>, ghost b: seq<DnsServer>)
      requires Merging(prev, server, pp, done, a, b) && (server == null || pp == null)
      modifies this`servers, NonNull(prev)`next
      ensures Linked(servers, done + Merge(a, b), null) && Sorted(done + Merge(a, b))
    {
      if pp != null {
        SortedParts(done, b);
        assert prev != null ==> prev in done;
        SetEntry(prev, pp, done, server);
        LinkedConcat(servers, done, pp, b, null);
      } else {
        LinkedConcat(servers, done, server, a, null);
      }
    }

    /** One round of the merge. */
    method MergeStep(prev: DnsServer?, server: DnsServer, pp: DnsServer,
                     ghost done: seq<DnsServer>, ghost a: seq<DnsServer>, ghost b: seq<DnsServer>)
        returns (prev': DnsServer, server': DnsServer?, pp': DnsServer?,
                 ghost done': seq<DnsServer>, ghost a': seq<DnsServer>, ghost b': seq<DnsServer>)
      requires Merging(prev, server, pp, done, a, b)
      modifies this`servers, NonNull(prev)`next, pp`next
      ensures Merging(prev', server', pp', done', a', b') && |a'| + |b'| < |a| + |b|
      ensures done + Merge(a, b) == done' + Merge(a', b')
      ensures (done' == done + [server] || done' == done + [pp]) && (a' == a || a' == a[1..])
              && (b' == b || b' == b[1..])
    {
      prev', pp', done', a', b' := server, pp, done + [server], a, b;
      if server.priority > pp.priority {
        TakeStatic(done, a, b);
        pp' := MergeFront(prev, server, pp, done, a, b);
        prev', done', b' := pp, done + [pp], b[1..];
      } else {
        MergePast(prev, server, pp, done, a, b);
        a' := a[1..];
        if server.priority == pp.priority {
          TakeEqual(done, a, b);
          pp' := pp.next;
          b' := b[1..];
        } else {
          TakePulled(done, a, b);
        }
      }
      server' := prev'.next;
    }

    /** After a pull the servers set aside are merged in; a pulled server overrides a static one. */
    method PostprocessPull()
      requires Valid()
      modifies this, chain`next, chainPrepull`next
      ensures Valid() && chain == Merge(old(chain), old(chainPrepull)) && chainPrepull == []
      ensures Table(chain) == Table(old(chainPrepull)) + Table(old(chain))
    {
      MergeLists();
      MergeIsUnion(old(chain), old(chainPrepull));
    }

    /** The loop is over: what is left is linked in and the merge is the list. */
    method MergeEnd(prev: DnsServer?, server: DnsServer?, pp: DnsServer?,
                    ghost done: seq<DnsServer>, ghost a: seq<DnsServer>, ghost b: seq<DnsServer>)
      requires Merging(prev, server, pp, done, a, b) && (server == null || pp == null)
      modifies this, NonNull(prev)`next
      ensures Valid() && chain == done + Merge(a, b) && chainPrepull == []
    {
      AppendRest(prev, server, pp, done, a, b);
      chain := done + Merge(a, b);
      serversPrepull, chainPrepull := null, [];
    }

    method MergeLists()
      requires Valid()
      modifies this, chain`next, chainPrepull`next
      ensures Valid() && chain == Merge(old(chain), old(chainPrepull)) && chainPrepull == []
    {
      var prev: DnsServer?, server, pp := null, servers, serversPrepull;
      ghost var done: seq<DnsServer>, a, b := [], chain, chainPrepull;
      ghost var goal := Merge(chain, chainPrepull);
      StartMerge(chain, chainPrepull);
      while server != null && pp != null
        invariant Merging(prev, server, pp, done, a, b) && goal == done + Merge(a, b)
        invariant Within(done) && Within(a) && Within(b)
        invariant chain == old(chain) && chainPrepull == old(chainPrepull)
        decreases |a| + |b|
      {
        CursorsWithin(prev, server, pp, done, a, b);
        prev, server, pp, done, a, b := MergeStep(prev, server, pp, done, a, b);
      }
      CursorWithin(prev, done);
      MergeEnd(prev, server, pp, done, a, b);
    }

    lemma CursorWithin(prev: DnsServer?, done: seq<DnsServer>)
      requires Cursor(prev, done) && Within(done)
      ensures prev != null ==> prev in chain || prev in chainPrepull
    {
      assert prev != null ==> prev in done;
    }

    lemma CursorsWithin(prev: DnsServer?, server: DnsServer, pp: DnsServer,
                        done: seq<DnsServer>, a: seq<DnsServer>, b: seq<DnsServer>)
      requires Merging(prev, server, pp, done, a, b) && Within(done) && Within(a) && Within(b)
      ensures prev != null ==> prev in chain || prev in chainPrepull
      ensures pp in chain || pp in chainPrepull
      ensures Within(done + [server]) && Within(done + [pp]) && Within(a[1..]) && Within(b[1..])
    {
      assert server == a[0] && pp == b[0];
      CursorWithin(prev, done);
    }

    /** Nodes of the two lists. */
    ghost predicate Within(s: seq<DnsServer>)
      reads this
    {
      forall x :: x in s ==> x in chain || x in chainPrepull
    }
  }

  lemma StartMerge(a: seq<DnsServer>, b: seq<DnsServer>)
    ensures [] + a == a && [] + b == b && [] + Merge(a, b) == Merge(a, b)
  {}

  lemma SortedParts(a: seq<DnsServer>, b: seq<DnsServer>)
    requires Sorted(a + b)
    ensures Sorted(a) && Sorted(b) && Disjoint(a, b)
  {
    var c := a + b;
    forall i, j | 0 <= i < |a| && 0 <= j < |b| ensures a[i] != b[j] {
      assert c[i].priority < c[|a| + j].priority;
    }
    forall i, j | 0 <= i < j < |b| ensures b[i].priority < b[j].priority {
      assert c[|a| + i].priority < c[|a| + j].priority;
    }
    forall i, j | 0 <= i < j < |a| ensures a[i].priority < a[j].priority {
      assert c[i].priority < c[j].priority;
    }
  }

  /** Everything merged so far comes before what is to come. */
  ghost predicate Ordered(done: seq<DnsServer>, a: seq<DnsServer>, b: seq<DnsServer>) {
    Sorted(done + a) && Sorted(done + b) && Disjoint(a, b)
  }

  lemma DisjointDrop(a: seq<DnsServer>, b: seq<DnsServer>)
    requires Disjoint(a, b) && a != [] && b != []
    ensures Disjoint(a[1..], b) && Disjoint(a, b[1..]) && Disjoint(a[1..], b[1..])
  {
    assert forall x :: x in a[1..] ==> x in a;
    assert forall x :: x in b[1..] ==> x in b;
  }

  lemma TakeStatic(done: seq<DnsServer>, a: seq<DnsServer>, b: seq<DnsServer>)
    requires Ordered(done, a, b) && a != [] && b != [] && a[0].priority > b[0].priority
    ensures Ordered(done + [b[0]], a, b[1..])
    ensures done + Merge(a, b) == (done + [b[0]]) + Merge(a, b[1..])
  {
    assert (done + [b[0]]) + b[1..] == done + b;
    SortedAppend(done, b[0], a, b);
    DisjointDrop(a, b);
    Associative(done, [b[0]], Merge(a, b[1..]));
  }

  lemma TakeEqual(done: seq<DnsServer>, a: seq<DnsServer>, b: seq<DnsServer>)
    requires Ordered(done, a, b) && a != [] && b != [] && a[0].priority == b[0].priority
    ensures Ordered(done + [a[0]], a[1..], b[1..])
    ensures done + Merge(a, b) == (done + [a[0]]) + Merge(a[1..], b[1..])
  {
    assert (done + [a[0]]) + a[1..] == done + a;
    SortedDrop(done, b);
    SortedParts(done, b);
    SortedAppend(done, a[0], b[1..], a);
    DisjointDrop(a, b);
    Associative(done, [a[0]], Merge(a[1..], b[1..]));
  }

  lemma TakePulled(done: seq<DnsServer>, a: seq<DnsServer>, b: seq<DnsServer>)
    requires Ordered(done, a, b) && a != [] && b != [] && a[0].priority < b[0].priority
    ensures Ordered(done + [a[0]], a[1..], b)
    ensures done + Merge(a, b) == (done + [a[0]]) + Merge(a[1..], b)
  {
    assert (done + [a[0]]) + a[1..] == done + a;
    SortedAppend(done, a[0], b, a);
    DisjointDrop(a, b);
    Associative(done, [a[0]], Merge(a[1..], b));
  }

  /** `x`, the first of `c`, goes between `done` and the later `rest`. */
  lemma SortedAppend(done: seq<DnsServer>, x: DnsServer, rest: seq<DnsServer>, c: seq<DnsServer>)
    requires Sorted(done + rest) && Sorted(done + c) && c != [] && c[0] == x
             && (rest != [] ==> x.priority < rest[0].priority)
    ensures Sorted((done + [x]) + rest)
  {
    forall i | 0 <= i < |done| ensures done[i].priority < x.priority {
      assert (done + c)[i].priority < (done + c)[|done|].priority;
    }
    assert rest != [] ==> (done + rest)[|done|] == rest[0];
    SortedInsert(done + rest, |done|, x);
    assert (done + rest)[..|done|] == done && (done + rest)[|done|..] == rest;
  }

  lemma SortedDrop(done: seq<DnsServer>, b: seq<DnsServer>)
    requires Sorted(done + b) && b != []
    ensures Sorted(done + b[1..])
  {
    var s, t := done + b, done + b[1..];
    assert forall i :: 0 <= i < |t| ==> t[i] == s[if i < |done| then i else i + 1];
  }

  lemma CursorSplit(prev: DnsServer?, chain: seq<DnsServer>, k: nat)
    requires k <= |chain| && Cursor(prev, chain[..k])
    ensures chain[..k] + chain[k..] == chain && (prev != null ==> prev in chain)
  {}

  lemma DisjointInsert(chain: seq<DnsServer>, k: nat, x: DnsServer, other: seq<DnsServer>)
    requires k <= |chain| && Disjoint(chain, other) && x !in other
    ensures Disjoint(chain[..k] + [x] + chain[k..], other)
  {}

  lemma SortedInsert(chain: seq<DnsServer>, k: nat, x: DnsServer)
    requires Sorted(chain) && k <= |chain|
    requires forall i :: 0 <= i < k ==> chain[i].priority < x.priority
    requires k < |chain| ==> x.priority < chain[k].priority
    ensures Sorted(chain[..k] + [x] + chain[k..])
  {}

  lemma {:induction false} TableHas(chain: seq<DnsServer>, k: nat)
    requires Sorted(chain) && k < |chain|
    ensures chain[k].priority in Table(chain) && Table(chain)[chain[k].priority] == chain[k]
  {
    if k > 0 { TableHas(chain[1..], k - 1); }
  }

  lemma {:induction false} TableInsert(chain: seq<DnsServer>, k: nat, x: DnsServer)
    requires Sorted(chain) && k <= |chain|
    requires forall i :: 0 <= i < k ==> chain[i].priority < x.priority
    requires k < |chain| ==> x.priority < chain[k].priority
    ensures Table(chain[..k] + [x] + chain[k..]) == Table(chain)[x.priority := x]
    ensures x.priority !in Table(chain)
  {
    TableInsertAt(chain[..k], chain[k..], x);
    assert chain[..k] + chain[k..] == chain;
  }

  lemma {:induction false} TableInsertAt(done: seq<DnsServer>, rest: seq<DnsServer>, x: DnsServer)
    requires Sorted(rest) && (rest != [] ==> x.priority < rest[0].priority)
    requires forall i :: 0 <= i < |done| ==> done[i].priority < x.priority
    ensures Table(done + [x] + rest) == Table(done + rest)[x.priority := x]
    ensures x.priority !in Table(done + rest)
  {
    if done == [] {
      assert done + [x] + rest == [x] + rest && done + rest == rest;
      TablePrefix(x, rest);
      TableKeys(rest, x.priority);
    } else {
      TableInsertAt(done[1..], rest, x);
      Peel(done, [x], rest);
      TablePrefix(done[0], done[1..] + [x] + rest);
      TablePrefix(done[0], done[1..] + rest);
    }
  }

  lemma Peel(a: seq<DnsServer>, b: seq<DnsServer>, c: seq<DnsServer>)
    requires a != []
    ensures a + b + c == [a[0]] + (a[1..] + b + c) && a + c == [a[0]] + (a[1..] + c)
  {}
}
