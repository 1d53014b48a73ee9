/** The chained hash table of libwzd-base/hash.c over the lists of list.c: buckets of
    entries, refining a finite map. */
module HashTable {
  import opened Common
  import opened LinkedList
  import opened ListArray

  /** A CHTBL_Elmnt; the data pointer may be NULL. */
  datatype Entry<K, V> = Entry(key: K, data: Option<V>)

  /** A sort function: negative, zero or positive as `a` comes before, is, or comes after `b`. */
  ghost predicate TotalOrder<K(!new)>(sort: (K, K) -> int) {
    (forall a, b :: sort(a, b) == 0 <==> a == b) &&
    (forall a, b :: sort(a, b) < 0 <==> sort(b, a) > 0) &&
    (forall a, b, c :: sort(a, b) < 0 && sort(b, c) < 0 ==> sort(a, c) < 0)
  }

  ghost predicate Increasing<K(!new), V>(sort: (K, K) -> int, es: seq<Entry<K, V>>) {
    forall i, j :: 0 <= i < j < |es| ==> sort(es[i].key, es[j].key) < 0
  }

  ghost predicate DistinctKeys<K, V>(es: seq<Entry<K, V>>) {
    forall i, j :: 0 <= i < j < |es| ==> es[i].key != es[j].key
  }

  ghost predicate HasKey<K, V>(es: seq<Entry<K, V>>, key: K) { exists i :: 0 <= i < |es| && es[i].key == key }

  /** The chain of one bucket holds exactly the keys of `m` that belong there, each
      once, with their data. */
  ghost predicate ChainOk<K(!new), V>(es: seq<Entry<K, V>>, m: map<K, Option<V>>, bucket: K -> nat, n: nat) {
    DistinctKeys(es) &&
    (forall i :: 0 <= i < |es| ==> es[i].key in m && m[es[i].key] == es[i].data && bucket(es[i].key) == n) &&
    (forall k :: k in m && bucket(k) == n ==> HasKey(es, k))
  }

  lemma OtherChain<K(!new), V>(es: seq<Entry<K, V>>, m: map<K, Option<V>>, m': map<K, Option<V>>, bucket: K -> nat,
                               n: nat)
    requires ChainOk(es, m, bucket, n)
    requires forall k :: bucket(k) == n ==> (k in m <==> k in m') && (k in m ==> m[k] == m'[k])
    ensures ChainOk(es, m', bucket, n)
  {
  }

  lemma ChainInserted<K(!new), V>(es: seq<Entry<K, V>>, m: map<K, Option<V>>, bucket: K -> nat, key: K, data: Option<V>)
    requires ChainOk(es, m, bucket, bucket(key)) && key !in m
    ensures ChainOk([Entry(key, data)] + es, m[key := data], bucket, bucket(key))
  {
    var es', m' := [Entry(key, data)] + es, m[key := data];
    forall k | k in m' && bucket(k) == bucket(key)
      ensures HasKey(es', k)
    {
      if k == key {
        assert es'[0].key == k;
      } else {
        var i :| 0 <= i < |es| && es[i].key == k;
        assert es'[i + 1].key == k;
      }
    }
  }

  lemma HeadInsert<T>(s: seq<T>, e: T)
    ensures InsertAt(s, 0, e) == [e] + s
  {
  }

  lemma ChainChanged<K(!new), V>(es: seq<Entry<K, V>>, m: map<K, Option<V>>, bucket: K -> nat, i: nat, data: Option<V>)
    requires i < |es| && ChainOk(es, m, bucket, bucket(es[i].key))
    ensures var key := es[i].key; ChainOk(es[i := Entry(key, data)], m[key := data], bucket, bucket(key))
  {
    var key := es[i].key;
    var es', m' := es[i := Entry(key, data)], m[key := data];
    assert forall j :: 0 <= j < |es| ==> es'[j].key == es[j].key;
    forall k | k in m' && bucket(k) == bucket(key)
      ensures HasKey(es', k)
    {
      assert HasKey(es, k);
      var j :| 0 <= j < |es| && es[j].key == k;
      assert es'[j].key == k;
    }
  }

  lemma ChainRemoved<K(!new), V>(es: seq<Entry<K, V>>, m: map<K, Option<V>>, bucket: K -> nat, i: nat)
    requires i < |es| && ChainOk(es, m, bucket, bucket(es[i].key))
    ensures var key := es[i].key; ChainOk(RemoveAt(es, i), m - {key}, bucket, bucket(key))
  {
    var key := es[i].key;
    var es', m' := RemoveAt(es, i), m - {key};
    assert forall j :: 0 <= j < |es'| ==> es'[j] == if j < i then es[j] else es[j + 1];
    forall k | k in m' && bucket(k) == bucket(key)
      ensures HasKey(es', k)
    {
      assert HasKey(es, k);
      var j :| 0 <= j < |es| && es[j].key == k;
      assert es'[if j < i then j else j - 1].key == k;
    }
  }

  // ----- Operations on the map -----

  datatype Op<K, V> =
    | InsertOp(key: K, data: Option<V>)
    | ChangeOp(key: K, data: Option<V>)
    | PutOp(key: K, data: Option<V>)
    | RemoveOp(key: K)

  function Apply<K, V>(m: map<K, Option<V>>, op: Op<K, V>): map<K, Option<V>> {
    match op
    case InsertOp(key, data) => if key in m then m else m[key := data]
    case ChangeOp(key, data) => if key in m && data.Some? then m[key := data] else m
    case PutOp(key, data) => if key in m && data.None? then m else m[key := data]
    case RemoveOp(key) => m - {key}
  }

  function ApplyAll<K, V>(m: map<K, Option<V>>, ops: seq<Op<K, V>>): map<K, Option<V>>
    decreases |ops|
  {
    if ops == [] then m else ApplyAll(Apply(m, ops[0]), ops[1..])
  }

  // ----- Sorted lists of entries -----

  lemma Compared<K(!new)>(sort: (K, K) -> int, a: K, b: K)
    requires TotalOrder(sort) && a != b
    ensures sort(a, b) < 0 || (sort(a, b) > 0 && sort(b, a) < 0)
  {
    assert sort(a, b) < 0 <==> sort(b, a) > 0;
    assert sort(b, a) < 0 <==> sort(a, b) > 0;
  }

  lemma KeyAbsent<K, V>(list: seq<Entry<K, V>>, key: K)
    requires !HasKey(list, key)
    ensures forall i :: 0 <= i < |list| ==> list[i].key != key
  {
  }

  lemma KeyMissing<K, V>(list: seq<Entry<K, V>>, key: K)
    requires forall i :: 0 <= i < |list| ==> list[i].key != key
    ensures !HasKey(list, key)
  {
  }

  lemma Transitive<K(!new)>(sort: (K, K) -> int, a: K, b: K, c: K)
    requires TotalOrder(sort) && sort(a, b) < 0 && sort(b, c) < 0
    ensures sort(a, c) < 0
  {
  }

  lemma NodeFacts<T>(list: List<T>, k: nat)
    requires list.Valid() && k < |list.spine|
    ensures list.spine[k].next == NodeAt(list.spine, k + 1) && list.spine[k].data == Contents(list.spine)[k]
  {
  }

  /** The node after which an entry belongs, NULL for the head. */
  method FindPlace<K(!new), V>(list: List<Entry<K, V>>, key: K, sort: (K, K) -> int)
    returns (element: Node?<Entry<K, V>>, ghost p: nat)
    requires list.Valid() && TotalOrder(sort) && !HasKey(Contents(list.spine), key)
    ensures p <= |list.spine| && element == Before(list.spine, p)
    ensures p > 0 ==> sort(Contents(list.spine)[p - 1].key, key) < 0
    ensures p < |list.spine| ==> sort(key, Contents(list.spine)[p].key) < 0
  {
    hide TotalOrder, HasKey, Linked, Contents;
    ghost var es := Contents(list.spine);
    KeyAbsent(es, key);
    if list.size == 0 {
      return null, 0;
    }
    NodeFacts(list, 0);
    element, p := list.head, 1;
    Compared(sort, es[0].key, key);
    if sort(element.data.key, key) > 0 {
      return null, 0;
    }
    if 1 < |es| { NodeFacts(list, 1); }
    while element.next != null && sort(element.next.data.key, key) < 0
      invariant 0 < p <= |es| && element == list.spine[p - 1] && element.next == NodeAt(list.spine, p)
      invariant sort(es[p - 1].key, key) < 0 && (p < |es| ==> list.spine[p].data == es[p])
      decreases |es| - p
    {
      NodeFacts(list, p);
      element, p := element.next, p + 1;
      if p < |es| { NodeFacts(list, p); }
    }
    if p < |es| { Compared(sort, es[p].key, key); }
  }

  /** _h_list_ins_sorted; `p` is where the entry went. */
  method InsertSorted<K(!new), V>(list: List<Entry<K, V>>, e: Entry<K, V>, sort: (K, K) -> int) returns (ghost p: nat)
    requires list.Valid() && TotalOrder(sort) && Increasing(sort, Contents(list.spine)) &&
      !HasKey(Contents(list.spine), e.key)
    modifies list, list.spine
    ensures list.Valid() && p <= |old(list.spine)|
    ensures forall i :: 0 <= i < |list.spine| ==> list.spine[i] in old(list.spine) || fresh(list.spine[i])
    ensures Contents(list.spine) == InsertAt(old(Contents(list.spine)), p, e) && Increasing(sort, Contents(list.spine))
  {
    hide TotalOrder, Increasing, HasKey, InsertAt, Linked, Contents;
    var element;
    element, p := FindPlace(list, e.key, sort);
    Spliced(sort, Contents(list.spine), e, p);
    ghost var was := list.spine;
    list.InsNext(element, e, p);
    InsertMembers(was, p, list.spine[p]);
  }

  lemma InsertMembers<T>(s: seq<T>, p: nat, e: T)
    requires p <= |s|
    ensures forall i :: 0 <= i < |InsertAt(s, p, e)| ==> InsertAt(s, p, e)[i] == e || InsertAt(s, p, e)[i] in s
  {
  }

  lemma Spliced<K(!new), V>(sort: (K, K) -> int, list: seq<Entry<K, V>>, e: Entry<K, V>, p: nat)
    requires TotalOrder(sort) && Increasing(sort, list) && p <= |list|
    requires p > 0 ==> sort(list[p - 1].key, e.key) < 0
    requires p < |list| ==> sort(e.key, list[p].key) < 0
    ensures Increasing(sort, InsertAt(list, p, e))
  {
    hide TotalOrder;
    var r := InsertAt(list, p, e);
    forall i, j | 0 <= i < j < |r|
      ensures sort(r[i].key, r[j].key) < 0
    {
      if i < p {
        if i < p - 1 { Transitive(sort, list[i].key, list[p - 1].key, e.key); }
        assert j > p ==> sort(list[i].key, list[j - 1].key) < 0;
      } else if i == p {
        if p < j - 1 { Transitive(sort, e.key, list[p].key, list[j - 1].key); }
      }
    }
  }

  lemma SplicedKeys<K, V>(list: seq<Entry<K, V>>, e: Entry<K, V>, p: nat, k: K)
    requires p <= |list|
    ensures HasKey(InsertAt(list, p, e), k) <==> HasKey(list, k) || k == e.key
  {
    var r := InsertAt(list, p, e);
    if HasKey(list, k) {
      var i :| 0 <= i < |list| && list[i].key == k;
      assert r[if i < p then i else i + 1].key == k;
    }
    if k == e.key { assert r[p].key == k; }
  }

  lemma SizePut<K, V>(m: map<K, V>, key: K, data: V)
    ensures |m[key := data]| == if key in m then |m| else |m| + 1
  {
    assert m[key := data].Keys == m.Keys + {key};
  }

  lemma SizeRemoved<K, V>(m: map<K, V>, key: K)
    ensures if key in m then |m - {key}| == |m| - 1 else m - {key} == m
  {
    if key in m {
      assert m.Keys == (m - {key}).Keys + {key};
    } else {
      assert m - {key} == m;
    }
  }

  // ----- All chains together -----

  ghost predicate AllChains<K(!new), V>(chains: seq<seq<Entry<K, V>>>, m: map<K, Option<V>>, bucket: K -> nat) {
    forall n :: 0 <= n < |chains| ==> ChainOk(chains[n], m, bucket, n)
  }

  lemma NoEntries<K(!new), V>(chains: seq<seq<Entry<K, V>>>, bucket: K -> nat)
    requires forall n :: 0 <= n < |chains| ==> chains[n] == []
    ensures AllChains(chains, map[], bucket)
  {
  }

  lemma ChainAt<K(!new), V>(chains: seq<seq<Entry<K, V>>>, m: map<K, Option<V>>, bucket: K -> nat, key: K)
    requires AllChains(chains, m, bucket) && bucket(key) < |chains|
    ensures ChainOk(chains[bucket(key)], m, bucket, bucket(key))
    ensures !HasKey(chains[bucket(key)], key) ==> key !in m
  {
  }

  lemma KeyThere<K(!new), V>(es: seq<Entry<K, V>>, m: map<K, Option<V>>, bucket: K -> nat, n: nat, i: nat)
    requires ChainOk(es, m, bucket, n) && i < |es|
    ensures es[i].key in m && m[es[i].key] == es[i].data && bucket(es[i].key) == n
  {
  }

  /** A new chain for one bucket and a map that differs on its keys only. */
  lemma OneChanged<K(!new), V>(chains: seq<seq<Entry<K, V>>>, m: map<K, Option<V>>, m': map<K, Option<V>>,
                               bucket: K -> nat, n: nat, es: seq<Entry<K, V>>)
    requires AllChains(chains, m, bucket) && n < |chains| && ChainOk(es, m', bucket, n)
    requires forall k :: bucket(k) != n ==> (k in m <==> k in m') && (k in m ==> m[k] == m'[k])
    ensures AllChains(chains[n := es], m', bucket)
  {
    hide ChainOk;
    var after := chains[n := es];
    forall i | 0 <= i < |after|
      ensures ChainOk(after[i], m', bucket, i)
    {
      if i != n { OtherChain(chains[i], m, m', bucket, i); }
    }
  }

  lemma InsertKeeps<K(!new), V>(chains: seq<seq<Entry<K, V>>>, m: map<K, Option<V>>, bucket: K -> nat, key: K,
                                data: Option<V>)
    requires AllChains(chains, m, bucket) && bucket(key) < |chains| && key !in m
    ensures var n := bucket(key); AllChains(chains[n := InsertAt(chains[n], 0, Entry(key, data))], m[key := data],
      bucket)
  {
    hide ChainOk, InsertAt;
    var n := bucket(key);
    ChainAt(chains, m, bucket, key);
    ChainInserted(chains[n], m, bucket, key, data);
    HeadInsert(chains[n], Entry(key, data));
    OneChanged(chains, m, m[key := data], bucket, n, InsertAt(chains[n], 0, Entry(key, data)));
  }

  lemma ChangeKeeps<K(!new), V>(chains: seq<seq<Entry<K, V>>>, m: map<K, Option<V>>, bucket: K -> nat, n: nat, i: nat,
                                data: Option<V>)
    requires AllChains(chains, m, bucket) && n < |chains| && i < |chains[n]| && bucket(chains[n][i].key) == n
    ensures var key := chains[n][i].key;
      AllChains(chains[n := chains[n][i := Entry(key, data)]], m[key := data], bucket)
  {
    hide ChainOk;
    var key := chains[n][i].key;
    ChainChanged(chains[n], m, bucket, i, data);
    OneChanged(chains, m, m[key := data], bucket, n, chains[n][i := Entry(key, data)]);
  }

  lemma RemoveKeeps<K(!new), V>(chains: seq<seq<Entry<K, V>>>, m: map<K, Option<V>>, bucket: K -> nat, n: nat, i: nat)
    requires AllChains(chains, m, bucket) && n < |chains| && i < |chains[n]| && bucket(chains[n][i].key) == n
    ensures AllChains(chains[n := RemoveAt(chains[n], i)], m - {chains[n][i].key}, bucket)
  {
    hide ChainOk, RemoveAt;
    ChainRemoved(chains[n], m, bucket, i);
    OneChanged(chains, m, m - {chains[n][i].key}, bucket, n, RemoveAt(chains[n], i));
  }

  // ----- Gathering the entries of all chains -----

  /** A key that comes before entry `j` of chain `n` in the walk over all chains. */
  ghost predicate Passed<K(!new), V>(chains: seq<seq<Entry<K, V>>>, m: map<K, Option<V>>, bucket: K -> nat, n: nat,
                                     j: nat, k: K) {
    k in m && (bucket(k) < n || (bucket(k) == n && n < |chains| && j <= |chains[n]| && HasKey(chains[n][..j], k)))
  }

  /** `es` are the matching entries of the walk so far, each once, in the order of their keys. */
  ghost predicate Gathered<K(!new), V>(es: seq<Entry<K, V>>, chains: seq<seq<Entry<K, V>>>, m: map<K, Option<V>>,
                                       bucket: K -> nat, matches: K -> bool, sort: (K, K) -> int, n: nat, j: nat) {
    Increasing(sort, es) &&
    (forall k :: HasKey(es, k) <==> matches(k) && Passed(chains, m, bucket, n, j, k)) &&
    (forall i :: 0 <= i < |es| ==> es[i].key in m && es[i].data == m[es[i].key])
  }

  lemma PassedNext<K(!new), V>(chains: seq<seq<Entry<K, V>>>, m: map<K, Option<V>>, bucket: K -> nat, n: nat, j: nat)
    requires AllChains(chains, m, bucket) && n < |chains| && j < |chains[n]|
    ensures !Passed(chains, m, bucket, n, j, chains[n][j].key)
    ensures forall k :: Passed(chains, m, bucket, n, j + 1, k) <==>
      Passed(chains, m, bucket, n, j, k) || k == chains[n][j].key
  {
    var es, key := chains[n], chains[n][j].key;
    assert ChainOk(es, m, bucket, n);
    forall k
      ensures HasKey(es[..j + 1], k) <==> HasKey(es[..j], k) || k == key
    {
      if HasKey(es[..j], k) {
        var i :| 0 <= i < j && es[..j][i].key == k;
        assert es[..j + 1][i].key == k;
      }
      if k == key { assert es[..j + 1][j].key == k; }
      if HasKey(es[..j + 1], k) && k != key {
        var i :| 0 <= i < j + 1 && es[..j + 1][i].key == k;
        assert es[..j][i].key == k;
      }
    }
  }

  lemma PassedChain<K(!new), V>(chains: seq<seq<Entry<K, V>>>, m: map<K, Option<V>>, bucket: K -> nat, n: nat, k: K)
    requires AllChains(chains, m, bucket) && n < |chains|
    ensures Passed(chains, m, bucket, n, |chains[n]|, k) <==> Passed(chains, m, bucket, n + 1, 0, k)
  {
    assert ChainOk(chains[n], m, bucket, n);
    assert chains[n][..|chains[n]|] == chains[n];
  }

  lemma GatherSkip<K(!new), V>(es: seq<Entry<K, V>>, chains: seq<seq<Entry<K, V>>>, m: map<K, Option<V>>,
                               bucket: K -> nat, matches: K -> bool, sort: (K, K) -> int, n: nat, j: nat)
    requires AllChains(chains, m, bucket) && n < |chains| && j < |chains[n]| && !matches(chains[n][j].key)
    requires Gathered(es, chains, m, bucket, matches, sort, n, j)
    ensures Gathered(es, chains, m, bucket, matches, sort, n, j + 1)
  {
    hide AllChains, Passed, Increasing;
    PassedNext(chains, m, bucket, n, j);
  }

  lemma GatherFresh<K(!new), V>(es: seq<Entry<K, V>>, chains: seq<seq<Entry<K, V>>>, m: map<K, Option<V>>,
                                bucket: K -> nat, matches: K -> bool, sort: (K, K) -> int, n: nat, j: nat)
    requires AllChains(chains, m, bucket) && n < |chains| && j < |chains[n]|
    requires Gathered(es, chains, m, bucket, matches, sort, n, j)
    ensures Increasing(sort, es) && !HasKey(es, chains[n][j].key)
  {
    hide AllChains, Passed, Increasing, HasKey;
    PassedNext(chains, m, bucket, n, j);
  }

  lemma GatherOne<K(!new), V>(es: seq<Entry<K, V>>, p: nat, chains: seq<seq<Entry<K, V>>>, m: map<K, Option<V>>,
                              bucket: K -> nat, matches: K -> bool, sort: (K, K) -> int, n: nat, j: nat)
    requires AllChains(chains, m, bucket) && n < |chains| && j < |chains[n]| && matches(chains[n][j].key)
    requires Gathered(es, chains, m, bucket, matches, sort, n, j) && p <= |es|
    requires Increasing(sort, InsertAt(es, p, chains[n][j]))
    ensures Gathered(InsertAt(es, p, chains[n][j]), chains, m, bucket, matches, sort, n, j + 1)
  {
    var e, r := chains[n][j], InsertAt(es, p, chains[n][j]);
    assert ChainOk(chains[n], m, bucket, n);
    assert forall i :: 0 <= i < |r| ==> r[i] == e || r[i] in es;
    hide AllChains, Passed, Increasing, HasKey, InsertAt;
    PassedNext(chains, m, bucket, n, j);
    forall k
      ensures HasKey(r, k) <==> HasKey(es, k) || k == e.key
    {
      SplicedKeys(es, e, p, k);
    }
  }

  lemma GatherNext<K(!new), V>(es: seq<Entry<K, V>>, chains: seq<seq<Entry<K, V>>>, m: map<K, Option<V>>,
                               bucket: K -> nat, matches: K -> bool, sort: (K, K) -> int, n: nat)
    requires AllChains(chains, m, bucket) && n < |chains| &&
      Gathered(es, chains, m, bucket, matches, sort, n, |chains[n]|)
    ensures Gathered(es, chains, m, bucket, matches, sort, n + 1, 0)
  {
    hide AllChains, Passed, Increasing, HasKey;
    forall k
      ensures Passed(chains, m, bucket, n, |chains[n]|, k) <==> Passed(chains, m, bucket, n + 1, 0, k)
    {
      PassedChain(chains, m, bucket, n, k);
    }
  }

  class Table<K(!new, ==), V> {
    const h: K -> nat
    const lists: Lists<Entry<K, V>>
    var size: nat
    ghost var contents: map<K, Option<V>>

    ghost function Bucket(): K -> nat
      requires |lists.table| > 0
    {
      var n := |lists.table|;
      k => h(k) % n
    }

    ghost predicate Valid()
      reads this, lists, lists.table, lists.Nodes()
    {
      |lists.table| > 0 && lists.Valid() && size == |contents| && AllChains(lists.Chains(), contents, Bucket())
    }

    /** chtbl_init. */
    constructor (containers: nat, h: K -> nat)
      requires containers > 0
      ensures Valid() && this.h == h && contents == map[] && fresh(lists) && fresh(lists.table) && fresh(lists.Nodes())
    {
      hide AllChains, Linked, Contents, NodesOf, AllApart;
      this.h := h;
      lists := new Lists(containers);
      size := 0;
      contents := map[];
      new;
      NoEntries(lists.Chains(), Bucket());
    }

    /** Walks a chain to the entry with a key. */
    method Find(n: nat, key: K) returns (prec: Node?<Entry<K, V>>, element: Node?<Entry<K, V>>, ghost i: nat)
      requires Valid() && n < |lists.table|
      ensures Valid() && lists.Chains() == old(lists.Chains())
      ensures i <= |lists.spines[n]| && element == NodeAt(lists.spines[n], i) && prec == Before(lists.spines[n], i)
      ensures element != null ==> element.data == lists.Chains()[n][i] && element.data.key == key
      ensures element == null ==> !HasKey(lists.Chains()[n], key)
    {
      hide AllChains, HasKey, Linked, Contents, NodesOf, AllApart;
      assert lists.ListOk(n);
      var list := lists.table[n];
      prec, element, i := null, list.head, 0;
      while element != null
        invariant i <= |list.spine| && element == NodeAt(list.spine, i) && prec == Before(list.spine, i)
        invariant Valid() && lists.Chains() == old(lists.Chains())
        invariant forall j :: 0 <= j < i ==> lists.Chains()[n][j].key != key
        decreases |list.spine| - i
      {
        NodeFacts(list, i);
        if element.data.key == key {
          return;
        }
        prec, element, i := element, element.next, i + 1;
      }
      KeyMissing(lists.Chains()[n], key);
    }

    /** chtbl_lookup: agrees with the map. */
    method Lookup(key: K) returns (ret: int, data: Option<V>)
      requires Valid()
      ensures Valid() && lists.Chains() == old(lists.Chains())
      ensures ret == if key in contents then 0 else 1
      ensures ret == 0 ==> data == contents[key]
    {
      hide AllChains, ChainOk, HasKey, Linked, Contents, NodesOf, AllApart;
      var n := h(key) % |lists.table|;
      ChainAt(lists.Chains(), contents, Bucket(), key);
      var prec, element;
      ghost var i;
      prec, element, i := Find(n, key);
      if element != null {
        KeyThere(lists.Chains()[n], contents, Bucket(), n, i);
        return 0, element.data.data;
      }
      return 1, None;
    }

    /** chtbl_insert: refuses a key that is there. */
    method Insert(key: K, data: Option<V>) returns (ret: int)
      requires Valid()
      modifies this`size, this`contents, lists, lists.table, lists.Nodes()
      ensures Valid() && fresh(lists.Nodes() - old(lists.Nodes()))
      ensures ret == if key in old(contents) then 1 else 0
      ensures contents == if key in old(contents) then old(contents) else old(contents)[key := data]
    {
      hide AllChains, InsertAt, Linked, Contents, NodesOf, AllApart;
      var there, _ := Lookup(key);
      if there == 0 {
        return 1;
      }
      var n := h(key) % |lists.table|;
      ghost var chains := lists.Chains();
      InsertKeeps(chains, contents, Bucket(), key, data);
      SizePut(contents, key, data);
      contents, size := contents[key := data], size + 1;
      ghost var nodes := lists.Nodes();
      assert nodes == old(lists.Nodes());
      lists.InsNext(n, null, Entry(key, data), 0);
      ghost var node := lists.spines[n][0];
      assert fresh(node) && lists.Nodes() - nodes <= {node};
      assert AllChains(lists.Chains(), contents, Bucket());
      ret := 0;
    }

    /** chtbl_change: a NULL leaves the data as they are. */
    method Change(key: K, data: Option<V>) returns (ret: int)
      requires Valid()
      modifies this`contents, lists.Nodes()
      ensures Valid() && lists.Nodes() == old(lists.Nodes())
      ensures ret == if key in old(contents) then 0 else 1
      ensures contents == if key in old(contents) && data.Some? then old(contents)[key := data] else old(contents)
    {
      hide AllChains, ChainOk, HasKey, Linked, Contents, NodesOf, AllApart;
      var n := h(key) % |lists.table|;
      ChainAt(lists.Chains(), contents, Bucket(), key);
      var prec, element;
      ghost var i;
      prec, element, i := Find(n, key);
      if element == null {
        return 1;
      }
      ghost var chains := lists.Chains();
      KeyThere(chains[n], contents, Bucket(), n, i);
      if data.Some? {
        ChangeKeeps(chains, contents, Bucket(), n, i, data);
        SizePut(contents, key, data);
        contents := contents[key := data];
        lists.Store(n, element, Entry(key, data), i);
      }
      ret := 0;
    }

    /** chtbl_insert_or_change. */
    method InsertOrChange(key: K, data: Option<V>) returns (ret: int)
      requires Valid()
      modifies this`size, this`contents, lists, lists.table, lists.Nodes()
      ensures Valid() && ret == 0 && fresh(lists.Nodes() - old(lists.Nodes()))
      ensures contents == if key in old(contents) && data.None? then old(contents) else old(contents)[key := data]
    {
      ret := Insert(key, data);
      if ret != 0 {
        ret := Change(key, data);
      }
    }

    /** chtbl_remove. */
    method Remove(key: K) returns (ret: int)
      requires Valid()
      modifies this`size, this`contents, lists, lists.table, lists.Nodes()
      ensures Valid() && lists.Nodes() <= old(lists.Nodes())
      ensures ret == if key in old(contents) then 0 else -1
      ensures contents == old(contents) - {key}
    {
      hide AllChains, ChainOk, HasKey, Linked, Contents, NodesOf, AllApart;
      var n := h(key) % |lists.table|;
      ChainAt(lists.Chains(), contents, Bucket(), key);
      var prec, element;
      ghost var i;
      prec, element, i := Find(n, key);
      if element == null {
        SizeRemoved(contents, key);
        return -1;
      }
      KeyThere(lists.Chains()[n], contents, Bucket(), n, i);
      ret := RemoveNode(n, prec, i, key);
    }

    method RemoveNode(n: nat, prec: Node?<Entry<K, V>>, ghost i: nat, ghost key: K) returns (ret: int)
      requires Valid() && n < |lists.table| && i < |lists.spines[n]| && prec == Before(lists.spines[n], i)
      requires lists.Chains()[n][i].key == key && Bucket()(key) == n && key in contents
      modifies this`size, this`contents, lists, lists.table, lists.Nodes()
      ensures Valid() && lists.Nodes() <= old(lists.Nodes()) && ret == 0 && contents == old(contents) - {key}
    {
      hide AllChains, RemoveAt, Linked, Contents, NodesOf, AllApart;
      ghost var chains, bucket := lists.Chains(), Bucket();
      RemoveKeeps(chains, contents, bucket, n, i);
      SizeRemoved(contents, key);
      contents, size := contents - {key}, size - 1;
      ret := lists.RemNext(n, prec, i);
      assert AllChains(lists.Chains(), contents, bucket);
    }

    /** Under any sequence of operations the table stays a map and follows it. */
    method Run(ops: seq<Op<K, V>>)
      requires Valid()
      modifies this`size, this`contents, lists, lists.table, lists.Nodes()
      ensures Valid() && contents == ApplyAll(old(contents), ops) && fresh(lists.Nodes() - old(lists.Nodes()))
    {
      var k := 0;
      assert ops[0..] == ops;
      while k < |ops|
        invariant 0 <= k <= |ops| && Valid() && ApplyAll(contents, ops[k..]) == ApplyAll(old(contents), ops)
        invariant fresh(lists.Nodes() - old(lists.Nodes()))
      {
        assert ops[k..][1..] == ops[k + 1..];
        var ret := RunOne(ops[k]);
        k := k + 1;
      }
      assert ops[k..] == [];
    }

    method RunOne(op: Op<K, V>) returns (ret: int)
      requires Valid()
      modifies this`size, this`contents, lists, lists.table, lists.Nodes()
      ensures Valid() && contents == Apply(old(contents), op) && fresh(lists.Nodes() - old(lists.Nodes()))
    {
      match op {
        case InsertOp(key, data) => ret := Insert(key, data);
        case ChangeOp(key, data) => ret := Change(key, data);
        case PutOp(key, data) => ret := InsertOrChange(key, data);
        case RemoveOp(key) => ret := Remove(key);
      }
    }

    /** chtbl_extract with a sort function: the data of the matching entries, each once,
        in the order of their keys. */
    method Extract(matches: K -> bool, sort: (K, K) -> int) returns (list: seq<Option<V>>, keys: seq<K>)
      requires Valid() && TotalOrder(sort)
      ensures forall k :: k in keys <==> k in contents && matches(k)
      ensures forall i, j :: 0 <= i < j < |keys| ==> sort(keys[i], keys[j]) < 0
      ensures |list| == |keys| && forall i :: 0 <= i < |keys| ==> keys[i] in contents && list[i] == contents[keys[i]]
    {
      hide Gathered, AllChains, TotalOrder, Linked, Contents;
      ghost var chains, bucket := lists.Chains(), Bucket();
      var found := new List<Entry<K, V>>();
      var n := 0;
      GatheredNone(Contents(found.spine), chains, contents, bucket, matches, sort);
      while n < |lists.table|
        invariant 0 <= n <= |lists.table| && fresh(found) && found.Valid() && forall i :: 0 <= i < |found.spine| ==>
          fresh(found.spine[i])
        invariant Gathered(Contents(found.spine), chains, contents, bucket, matches, sort, n, 0)
      {
        assert lists.ListOk(n) && chains[n] == lists.Chain(n);
        ExtractChain(lists.table[n], found, matches, sort, chains, contents, bucket, n);
        GatherNext(Contents(found.spine), chains, contents, bucket, matches, sort, n);
        n := n + 1;
      }
      list, keys := Collect(found);
      GatheredAll(Contents(found.spine), keys, chains, contents, bucket, matches, sort);
    }
  }

  lemma GatheredNone<K(!new), V>(es: seq<Entry<K, V>>, chains: seq<seq<Entry<K, V>>>, m: map<K, Option<V>>,
                                 bucket: K -> nat, matches: K -> bool, sort: (K, K) -> int)
    requires es == []
    ensures Gathered(es, chains, m, bucket, matches, sort, 0, 0)
  {
  }

  /** The walk over one chain. */
  method ExtractChain<K(!new), V>(list: List<Entry<K, V>>, found: List<Entry<K, V>>, matches: K -> bool,
                                  sort: (K, K) -> int,
                                  ghost chains: seq<seq<Entry<K, V>>>, ghost m: map<K, Option<V>>,
                                  ghost bucket: K -> nat, ghost n: nat)
    requires list.Valid() && found.Valid() && list != found && Apart(found.spine, list.spine)
    requires n < |chains| && chains[n] == Contents(list.spine) && AllChains(chains, m, bucket) && TotalOrder(sort)
    requires Gathered(Contents(found.spine), chains, m, bucket, matches, sort, n, 0)
    modifies found, found.spine
    ensures found.Valid() && forall i :: 0 <= i < |found.spine| ==>
      found.spine[i] in old(found.spine) || fresh(found.spine[i])
    ensures Gathered(Contents(found.spine), chains, m, bucket, matches, sort, n, |chains[n]|)
  {
    hide Gathered, AllChains, TotalOrder, Increasing, HasKey, InsertAt, Contents, Linked;
    var element := list.head;
    ghost var j, spine := 0, list.spine;
    while element != null
      invariant 0 <= j <= |spine| && element == NodeAt(spine, j) && found.Valid()
      invariant list.Valid() && list.spine == spine && Contents(spine) == chains[n]
      invariant forall i :: 0 <= i < |found.spine| ==> found.spine[i] in old(found.spine) || fresh(found.spine[i])
      invariant Gathered(Contents(found.spine), chains, m, bucket, matches, sort, n, j)
      decreases |spine| - j
    {
      NodeFacts(list, j);
      var e := element.data;
      element := element.next;
      if matches(e.key) {
        ghost var before := Contents(found.spine);
        GatherFresh(before, chains, m, bucket, matches, sort, n, j);
        ghost var p := InsertSorted(found, e, sort);
        GatherOne(before, p, chains, m, bucket, matches, sort, n, j);
      } else {
        GatherSkip(Contents(found.spine), chains, m, bucket, matches, sort, n, j);
      }
      j := j + 1;
    }
  }

  /** The second pass of chtbl_extract: from entries to their data. */
  method Collect<K, V>(found: List<Entry<K, V>>) returns (list: seq<Option<V>>, keys: seq<K>)
    requires found.Valid()
    ensures |list| == |keys| == |found.spine|
    ensures forall i :: 0 <= i < |keys| ==> Contents(found.spine)[i] == Entry(keys[i], list[i])
  {
    list, keys := [], [];
    var element := found.head;
    while element != null
      invariant |list| == |keys| <= |found.spine| && element == NodeAt(found.spine, |keys|)
      invariant forall i :: 0 <= i < |keys| ==> Contents(found.spine)[i] == Entry(keys[i], list[i])
      decreases |found.spine| - |keys|
    {
      NodeFacts(found, |keys|);
      list, keys := list + [element.data.data], keys + [element.data.key];
      element := element.next;
    }
  }

  lemma GatheredAll<K(!new), V>(es: seq<Entry<K, V>>, keys: seq<K>, chains: seq<seq<Entry<K, V>>>, m: map<K, Option<V>>,
                                bucket: K -> nat, matches: K -> bool, sort: (K, K) -> int)
    requires Gathered(es, chains, m, bucket, matches, sort, |chains|, 0) && forall k :: bucket(k) < |chains|
    requires |keys| == |es| && forall i :: 0 <= i < |es| ==> es[i].key == keys[i]
    ensures forall k :: k in keys <==> k in m && matches(k)
    ensures forall i, j :: 0 <= i < j < |keys| ==> sort(keys[i], keys[j]) < 0
    ensures forall i :: 0 <= i < |keys| ==> keys[i] in m && es[i].data == m[keys[i]]
  {
    forall k
      ensures k in keys <==> k in m && matches(k)
    {
      assert HasKey(es, k) <==> matches(k) && Passed(chains, m, bucket, |chains|, 0, k);
      if HasKey(es, k) {
        var i :| 0 <= i < |es| && es[i].key == k;
        assert keys[i] == k;
      }
    }
  }
}
