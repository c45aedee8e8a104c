/** hash.c: chained buckets of doubly linked heap nodes, proved to be a finite map. */
module HashTable {
  import opened Basics

  class Node<K, V> {
    const key: K
    var value: V
    var prev: Node?<K, V>
    var next: Node?<K, V>
    /** Insertion time: chains run from newer to older. */
    ghost const rank: nat

    constructor (k: K, v: V, ghost r: nat)
      ensures key == k && value == v && rank == r && prev == null && next == null
    {
      key, value, rank := k, v, r;
      prev, next := null, null;
    }
  }

  class Table<K(==,!new), V(!new)> {
    const buckets: nat
    const hash: K -> nat
    const heads: array<Node?<K, V>>
    /** The node of each key. */
    ghost var nodes: map<K, Node<K, V>>
    /** Every node the table ever made. */
    ghost var repr: set<Node<K, V>>
    ghost var stamp: nat

    /** The node is the one for its key. */
    ghost predicate Mine(n: Node<K, V>)
      reads this`nodes
    {
      n.key in nodes && nodes[n.key] == n
    }

    ghost predicate Owned()
      reads this`nodes, this`repr
    {
      forall k {:trigger nodes[k]} | k in nodes :: nodes[k] in repr
    }

    /** Where a node sits: `prev` and `next` undo each other, and the bucket points to the first. */
    ghost predicate Linked(k: K)
      requires Owned() && k in nodes
      reads this, heads, repr`prev, repr`next
    {
      var n := nodes[k];
      && n.key == k && n.rank < stamp && hash(k) < heads.Length
      && (n.next != null ==> Mine(n.next) && hash(n.next.key) == hash(k) && n.next.prev == n && n.next.rank < n.rank)
      && (if n.prev == null then heads[hash(k)] == n else Mine(n.prev) && n.prev.next == n)
    }

    /** Two nodes of a bucket are ordered by age, and no link jumps over a node. */
    ghost predicate Ordered(j: K, k: K)
      requires Owned() && j in nodes && k in nodes
      reads this`nodes, this`repr, repr`next
    {
      && (nodes[j].rank == nodes[k].rank ==> j == k)
      && (hash(j) == hash(k) && nodes[j].rank < nodes[k].rank ==>
            nodes[k].next != null && nodes[j].rank <= nodes[k].next.rank)
    }

    ghost predicate HeadOk(b: nat)
      requires Owned() && b < heads.Length
      reads this`nodes, this`repr, heads, repr`prev
    {
      heads[b] != null ==> Mine(heads[b]) && hash(heads[b].key) == b && heads[b].prev == null
    }

    /** No node is newer than its bucket's first. */
    ghost predicate Below(k: K)
      requires k in nodes
      reads this`nodes, heads
    {
      hash(k) < heads.Length && heads[hash(k)] != null && nodes[k].rank <= heads[hash(k)].rank
    }

    ghost predicate Valid()
      reads this, heads, repr`prev, repr`next
    {
      && heads.Length == buckets && Owned()
      && (forall k {:trigger Linked(k)} | k in nodes :: Linked(k))
      && (forall k {:trigger Below(k)} | k in nodes :: Below(k))
      && (forall j, k {:trigger Ordered(j, k)} | j in nodes && k in nodes :: Ordered(j, k))
      && (forall b {:trigger HeadOk(b)} | 0 <= b < heads.Length :: HeadOk(b))
    }

    /** hash_add_entry's changes: n goes in front of its bucket. */
    twostate predicate Inserted(key: K)
      requires Owned() && key in nodes
      reads this, heads, repr`prev, repr`next
    {
      var n, b := nodes[key], hash(key);
      && n.key == key && b < heads.Length && heads[b] == n && n.prev == null && n.next == old(heads[b])
      && n.rank == old(stamp) && stamp == old(stamp) + 1
      && key !in old(nodes) && nodes == old(nodes)[key := n]
      && (forall c {:trigger heads[c]} | 0 <= c < heads.Length && c != b :: heads[c] == old(heads[c]))
      && (forall k {:trigger nodes[k]} | k in nodes && k != key ::
            var m := nodes[k];
            m.next == old(m.next) && m.prev == if m == old(heads[b]) then n else old(m.prev))
    }

    twostate lemma InsertedLinked(key: K)
      requires old(Valid()) && Owned() && key in nodes && Inserted(key)
      ensures forall k {:trigger Linked(k)} {:trigger Below(k)} | k in nodes :: Linked(k) && Below(k)
    {
      assert old(HeadOk(hash(key)));
      var first := old(heads[hash(key)]);
      assert first != null ==> old(Linked(first.key));
      forall k | k in nodes ensures Linked(k) && Below(k) {
        assert k != key ==> old(Linked(k)) && old(Below(k));
      }
    }

    twostate lemma InsertedOrdered(key: K)
      requires old(Valid()) && Owned() && key in nodes && Inserted(key)
      ensures forall j, k {:trigger Ordered(j, k)} | j in nodes && k in nodes :: Ordered(j, k)
    {
      forall j, k | j in nodes && k in nodes ensures Ordered(j, k) {
        assert j != key ==> old(Linked(j)) && old(Below(j));
        assert k != key ==> old(Linked(k));
        assert j != key && k != key ==> old(Ordered(j, k));
      }
    }

    twostate lemma InsertedValid(key: K)
      requires old(Valid()) && Owned() && key in nodes && Inserted(key)
      ensures Valid()
    {
      InsertedLinked(key);
      InsertedOrdered(key);
      assert old(HeadOk(hash(key)));
      forall c | 0 <= c < heads.Length ensures HeadOk(c) {
        assert old(HeadOk(c));
      }
    }

    /** hash_free_entry's changes: n's neighbours are joined. */
    twostate predicate Removed(n: Node<K, V>)
      reads this, heads, repr`prev, repr`next
    {
      var b := hash(n.key);
      && Owned() && b < heads.Length && old(Owned()) && old(Mine(n)) && nodes == old(nodes) - {n.key} && stamp == old(stamp)
      && heads[b] == (if old(n.prev) == null then old(n.next) else old(heads[b]))
      && (forall c {:trigger heads[c]} | 0 <= c < heads.Length && c != b :: heads[c] == old(heads[c]))
      && (forall k {:trigger nodes[k]} | k in nodes ::
            var m := nodes[k];
            && m.next == (if m == old(n.prev) then old(n.next) else old(m.next))
            && m.prev == (if m == old(n.next) then old(n.prev) else old(m.prev)))
    }

    twostate lemma RemovedLinked(n: Node<K, V>)
      requires old(Valid()) && Removed(n)
      ensures forall k {:trigger Linked(k)} {:trigger Below(k)} | k in nodes :: Linked(k) && Below(k)
    {
      assert old(Linked(n.key));
      forall k | k in nodes ensures Linked(k) && Below(k) {
        assert old(Linked(k)) && old(Below(k)) && old(Ordered(k, n.key)) && old(Ordered(n.key, k));
      }
    }

    twostate lemma RemovedOrdered(n: Node<K, V>)
      requires old(Valid()) && Removed(n)
      ensures forall j, k {:trigger Ordered(j, k)} | j in nodes && k in nodes :: Ordered(j, k)
    {
      assert old(Linked(n.key));
      forall j, k | j in nodes && k in nodes ensures Ordered(j, k) {
        assert old(Ordered(j, k)) && old(Linked(k)) && old(Ordered(j, n.key));
      }
    }

    twostate lemma RemovedValid(n: Node<K, V>)
      requires old(Valid()) && Removed(n)
      ensures Valid()
    {
      RemovedLinked(n);
      RemovedOrdered(n);
      assert old(Linked(n.key));
      forall c | 0 <= c < heads.Length ensures HeadOk(c) {
        assert old(HeadOk(c));
      }
    }

    /** What the table means. */
    ghost function Map(): map<K, V>
      reads this`nodes, this`repr, repr`value
    {
      map k | k in nodes && nodes[k] in repr :: nodes[k].value
    }

    /** hash_alloc */
    constructor (size: nat, h: K -> nat)
      ensures Valid() && Map() == map[] && buckets == size && hash == h
      ensures fresh(heads) && repr == {}
    {
      buckets, hash := size, h;
      heads := new Node?<K, V>[size](_ => null);
      nodes, repr, stamp := map[], {}, 0;
    }

    /** hash_get_node_by_key, with the bad-bucket check of hash_get_bucket. */
    method Find(key: K) returns (died: bool, p: Node?<K, V>)
      requires Valid()
      ensures died <==> hash(key) >= buckets
      ensures !died ==> (p != null <==> key in nodes)
      ensures p != null ==> key in nodes && p == nodes[key] && p.key == key
    {
      if hash(key) >= buckets {
        return true, null;
      }
      died, p := false, heads[hash(key)];
      assert HeadOk(hash(key));
      assert key in nodes ==> Below(key);
      while p != null && p.key != key
        invariant p != null ==> Mine(p) && hash(p.key) == hash(key)
        invariant key in nodes ==> p != null && nodes[key].rank <= p.rank
        decreases if p == null then 0 else p.rank + 1
      {
        assert Linked(p.key);
        assert key in nodes ==> Ordered(key, p.key);
        p := p.next;
      }
    }

    /** hash_lookup_entry, for callers that only read the value. */
    method Lookup(key: K) returns (died: bool, v: Option<V>)
      requires Valid()
      ensures died <==> hash(key) >= buckets
      ensures !died ==> v == if key in Map() then Some(Map()[key]) else None
    {
      var p;
      died, p := Find(key);
      v := if p == null then None else Some(p.value);
    }

    /** hash_add_entry; a duplicate key or a bad bucket is a bug and nothing is stored. */
    method Add(key: K, value: V) returns (died: bool)
      requires Valid()
      modifies this`nodes, this`repr, this`stamp, heads, repr`prev
      ensures Valid()
      ensures died <==> hash(key) >= buckets || key in old(Map())
      ensures Map() == if died then old(Map()) else old(Map())[key := value]
      ensures fresh(repr - old(repr))
    {
      hide Table.Ordered, Table.Below;
      var bad, found := Find(key);
      if bad || found != null {
        return true;
      }
      var b := hash(key);
      assert HeadOk(b);
      var n := new Node(key, value, stamp);
      if heads[b] == null {
        heads[b] := n;
      } else {
        n.next := heads[b];
        heads[b].prev := n;
        heads[b] := n;
      }
      nodes := nodes[key := n];
      repr := repr + {n};
      stamp := stamp + 1;
      died := false;
      InsertedValid(key);
    }

    /** hash_free_entry; freeing an absent key is a bug. */
    method Free(key: K) returns (died: bool)
      requires Valid()
      modifies this`nodes, heads, repr`prev, repr`next
      ensures Valid()
      ensures died <==> hash(key) >= buckets || key !in old(Map())
      ensures Map() == if died then old(Map()) else old(Map()) - {key}
    {
      hide Table.Ordered, Table.Below, Table.HeadOk;
      var bad, n := Find(key);
      if bad || n == null {
        return true;
      }
      assert Linked(key);
      if n.prev != null {
        n.prev.next := n.next;
      } else {
        heads[hash(key)] := n.next;
      }
      if n.next != null {
        n.next.prev := n.prev;
      }
      nodes := nodes - {key};
      died := false;
      RemovedValid(n);
    }

    /** A write through the pointer that a lookup returned. */
    method Store(n: Node<K, V>, value: V)
      requires Valid() && Mine(n)
      modifies n`value
      ensures Valid() && Map() == old(Map())[n.key := value]
    {
      n.value := value;
      forall k | k in nodes && k != n.key ensures nodes[k] != n {
        assert Linked(k);
      }
    }

    /** The keys met by following `next` from a node. */
    ghost function Chain(p: Node?<K, V>): seq<K>
      requires Valid() && (p != null ==> Mine(p))
      reads this, heads, repr`prev, repr`next
      decreases if p == null then 0 else p.rank + 1
    {
      if p == null then [] else
      assert Linked(p.key);
      [p.key] + Chain(p.next)
    }

    /** The chain from a node holds exactly the keys of its bucket that are no newer, each once. */
    lemma {:induction false} ChainHolds(p: Node<K, V>, k: K)
      requires Valid() && Mine(p)
      ensures multiset(Chain(p))[k] ==
              if k in nodes && hash(k) == hash(p.key) && nodes[k].rank <= p.rank then 1 else 0
      decreases p.rank
    {
      assert Linked(p.key);
      assert k in nodes ==> Linked(k) && Ordered(k, p.key) && Ordered(p.key, k);
      if p.next != null {
        ChainHolds(p.next, k);
      }
    }

    /** Every key sits in one node, in the chain of its own bucket and of no other. */
    lemma OneNodePerKey(b: nat, k: K)
      requires Valid() && b < heads.Length
      ensures HeadOk(b)
      ensures multiset(Chain(heads[b]))[k] == if k in Map() && hash(k) == b then 1 else 0
    {
      assert HeadOk(b);
      if heads[b] != null {
        ChainHolds(heads[b], k);
      }
      assert k in nodes ==> Below(k);
    }
  }
}
