/** The array of lists in a hash table (libwzd-base/hash.c:60-81): every operation on one
    list leaves the others alone. */
module ListArray {
  import opened LinkedList

  ghost predicate Apart<T>(a: seq<Node<T>>, b: seq<Node<T>>) { forall i :: 0 <= i < |a| ==> a[i] !in b }

  /** No two chains share a node. */
  ghost predicate AllApart<T>(spines: seq<seq<Node<T>>>) {
    forall m, n :: 0 <= m < |spines| && 0 <= n < |spines| && m != n ==> Apart(spines[m], spines[n])
  }

  ghost function NodesOf<T>(spines: seq<seq<Node<T>>>): (nodes: set<Node<T>>)
    ensures forall n, i :: 0 <= n < |spines| && 0 <= i < |spines[n]| ==> spines[n][i] in nodes
  {
    set n, i | 0 <= n < |spines| && 0 <= i < |spines[n]| :: spines[n][i]
  }

  lemma NodesInsert<T>(spines: seq<seq<Node<T>>>, n: nat, at: nat, node: Node<T>)
    requires n < |spines| && at <= |spines[n]|
    ensures NodesOf(spines[n := InsertAt(spines[n], at, node)]) <= NodesOf(spines) + {node}
  {
    var r := InsertAt(spines[n], at, node);
    var after := spines[n := r];
    forall m, i | 0 <= m < |after| && 0 <= i < |after[m]| ensures after[m][i] in NodesOf(spines) + {node} {
      if m == n {
        assert r[i] == if i < at then spines[n][i] else if i == at then node else spines[n][i - 1];
      } else {
        assert after[m][i] == spines[m][i];
      }
    }
  }

  lemma NodesRemove<T>(spines: seq<seq<Node<T>>>, n: nat, at: nat)
    requires n < |spines| && at < |spines[n]|
    ensures NodesOf(spines[n := RemoveAt(spines[n], at)]) <= NodesOf(spines)
  {
    var r := RemoveAt(spines[n], at);
    var after := spines[n := r];
    forall m, i | 0 <= m < |after| && 0 <= i < |after[m]| ensures after[m][i] in NodesOf(spines) {
      if m == n {
        assert r[i] == spines[n][if i < at then i else i + 1];
      } else {
        assert after[m][i] == spines[m][i];
      }
    }
  }

  lemma ApartInsert<T>(spines: seq<seq<Node<T>>>, n: nat, at: nat, node: Node<T>)
    requires n < |spines| && at <= |spines[n]| && AllApart(spines)
    requires forall m :: 0 <= m < |spines| ==> node !in spines[m]
    ensures AllApart(spines[n := InsertAt(spines[n], at, node)])
  {
    var s, r := spines[n], InsertAt(spines[n], at, node);
    var after := spines[n := r];
    forall x ensures x in r <==> x in s || x == node { assert s == s[..at] + s[at..]; }
    hide InsertAt;
    forall m | 0 <= m < |spines| && m != n ensures Apart(r, spines[m]) && Apart(spines[m], r) {
      assert Apart(spines[m], s) && Apart(s, spines[m]);
      forall i | 0 <= i < |r| ensures r[i] !in spines[m] { assert r[i] in r; }
    }
    forall k, m | 0 <= k < |after| && 0 <= m < |after| && k != m ensures Apart(after[k], after[m]) {
      if k != n && m != n { assert Apart(spines[k], spines[m]); }
    }
  }

  lemma ApartRemove<T>(spines: seq<seq<Node<T>>>, n: nat, at: nat)
    requires n < |spines| && at < |spines[n]| && AllApart(spines)
    ensures AllApart(spines[n := RemoveAt(spines[n], at)])
  {
    var s, r := spines[n], RemoveAt(spines[n], at);
    var after := spines[n := r];
    forall i | 0 <= i < |r| ensures r[i] in s { assert r[i] == s[if i < at then i else i + 1]; }
    hide RemoveAt;
    forall k, m | 0 <= k < |after| && 0 <= m < |after| && k != m ensures Apart(after[k], after[m]) {
      assert Apart(spines[k], spines[m]);
      if k == n {
        forall i | 0 <= i < |r| ensures r[i] !in spines[m] {}
      } else if m == n {
        forall i | 0 <= i < |spines[k]| ensures spines[k][i] !in r {}
      }
    }
  }

  class Lists<T> {
    const table: seq<List<T>>
    ghost var spines: seq<seq<Node<T>>>

    ghost function Nodes(): (nodes: set<Node<T>>)
      reads this
      ensures nodes == NodesOf(spines)
    {
      NodesOf(spines)
    }

    ghost predicate ListOk(n: nat)
      requires n < |table| == |spines|
      reads this, table[n], spines[n]
    {
      table[n].spine == spines[n] && table[n].Valid()
    }

    /** Every list is well formed, and no two share a node. */
    ghost predicate Valid()
      reads this, table, Nodes()
    {
      |table| == |spines| && AllApart(spines) && (forall n :: 0 <= n < |table| ==> ListOk(n)) &&
      forall m, n :: 0 <= m < n < |table| ==> table[m] != table[n]
    }

    lemma OthersApart(m: nat, n: nat)
      requires Valid() && m < |table| && n < |table| && m != n
      ensures ListOk(m) && Apart(spines[m], spines[n]) && table[m] != table[n]
    {
    }

    ghost function Chain(n: nat): seq<T>
      requires n < |spines|
      reads this, spines[n]
    {
      Contents(spines[n])
    }

    ghost function Chains(): (chains: seq<seq<T>>)
      requires Valid()
      reads this, table, Nodes()
      ensures |chains| == |table| && forall n :: 0 <= n < |chains| ==> chains[n] == Chain(n)
    {
      seq(|spines|, n requires 0 <= n < |spines| reads this, Nodes() => Chain(n))
    }

    /** One empty list for each container. */
    constructor (containers: nat)
      ensures Valid() && |table| == containers && fresh(table) && fresh(Nodes())
      ensures forall n :: 0 <= n < containers ==> Chains()[n] == []
    {
      var lists := EmptyLists<T>(containers);
      table := lists;
      spines := seq(containers, _ => []);
    }

    /** list_ins_next on list `n`. */
    method InsNext(n: nat, element: Node?<T>, data: T, ghost at: nat)
      requires Valid() && n < |table| && at <= |spines[n]| && element == Before(spines[n], at)
      modifies this, table[n], spines[n]
      ensures Valid() && |spines[n]| > at && fresh(spines[n][at]) && Nodes() <= old(Nodes()) + {spines[n][at]}
      ensures Chains() == old(Chains())[n := InsertAt(old(Chains())[n], at, data)]
    {
      hide InsertAt, Linked, Contents, Distinct, AllApart, NodesOf;
      ghost var was := spines;
      assert ListOk(n);
      forall m | 0 <= m < |table| && m != n ensures ListOk(m) && Apart(was[m], was[n]) && table[m] != table[n] {
        OthersApart(m, n);
      }
      table[n].InsNext(element, data, at);
      ghost var node := table[n].spine[at];
      ApartInsert(was, n, at, node);
      NodesInsert(was, n, at, node);
      spines := was[n := table[n].spine];
    }

    /** list_rem_next on list `n`. */
    method RemNext(n: nat, element: Node?<T>, ghost at: nat) returns (ret: int)
      requires Valid() && n < |table| && at <= |spines[n]| && element == Before(spines[n], at)
      modifies this, table[n], spines[n]
      ensures Valid() && Nodes() <= old(Nodes()) && ret == if at < |old(spines[n])| then 0 else -1
      ensures Chains() ==
        if at < |old(spines[n])| then old(Chains())[n := RemoveAt(old(Chains())[n], at)] else old(Chains())
    {
      hide RemoveAt, Linked, Contents, Distinct, AllApart, NodesOf;
      ghost var was := spines;
      assert ListOk(n);
      forall m | 0 <= m < |table| && m != n ensures ListOk(m) && Apart(was[m], was[n]) && table[m] != table[n] {
        OthersApart(m, n);
      }
      var removed;
      ret, removed := table[n].RemNext(element, at);
      if at < |was[n]| {
        ApartRemove(was, n, at);
        NodesRemove(was, n, at);
      } else {
        assert was[n := was[n]] == was;
      }
      spines := was[n := table[n].spine];
    }

    /** Overwrites the data of a node. */
    method Store(n: nat, node: Node<T>, data: T, ghost at: nat)
      requires Valid() && n < |table| && at < |spines[n]| && node == spines[n][at]
      modifies node`data
      ensures Valid() && Nodes() == old(Nodes())
      ensures Chains() == old(Chains())[n := old(Chains())[n][at := data]]
    {
      hide Contents, Linked, AllApart, NodesOf;
      assert ListOk(n);
      forall m | 0 <= m < |table| && m != n ensures ListOk(m) && Apart(spines[m], spines[n]) {
        OthersApart(m, n);
      }
      StoreNode(node, data, spines[n], at);
    }
  }

  method StoreNode<T>(node: Node<T>, data: T, ghost spine: seq<Node<T>>, ghost at: nat)
    requires at < |spine| && node == spine[at] && Linked(spine)
    modifies node`data
    ensures Linked(spine) && Contents(spine) == old(Contents(spine))[at := data]
  {
    node.data := data;
  }

  method EmptyLists<T>(n: nat) returns (lists: seq<List<T>>)
    ensures |lists| == n && forall i :: 0 <= i < n ==> fresh(lists[i]) && lists[i].Valid() && lists[i].spine == []
    ensures forall i, j :: 0 <= i < j < n ==> lists[i] != lists[j]
  {
    lists := [];
    while |lists| < n
      invariant |lists| <= n && forall i :: 0 <= i < |lists| ==>
        fresh(lists[i]) && lists[i].Valid() && lists[i].spine == []
      invariant forall i, j :: 0 <= i < j < |lists| ==> lists[i] != lists[j]
    {
      var list := new List();
      lists := lists + [list];
    }
  }
}
