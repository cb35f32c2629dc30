/** The relocation of dlib/c_hash_map.c: growing the table moves every node of every chain to its new bucket. */
module HashMap {
  const DEFAULT_CAP := 8

  class CNode<K, V> {
    const key: K
    const value: V
    const hash: nat  // `c_hash` of the key, as an unsigned number
    var next: CNode?<K, V>

    constructor (key: K, value: V, hash: nat)
      ensures this.key == key && this.value == value && this.hash == hash && next == null
    {
      this.key, this.value, this.hash := key, value, hash;
      next := null;
    }
  }

  /** The nodes of all chains. */
  ghost function Nodes<K, V>(chains: seq<seq<CNode<K, V>>>): set<CNode<K, V>>
  {
    set b, k | 0 <= b < |chains| && 0 <= k < |chains[b]| :: chains[b][k]
  }

  /** `place` is where each node is, so no node is in two places. */
  ghost predicate Placed<K, V>(chains: seq<seq<CNode<K, V>>>, place: map<CNode<K, V>, (nat, nat)>)
  {
    && (forall b, k :: 0 <= b < |chains| && 0 <= k < |chains[b]| ==>
          chains[b][k] in place && place[chains[b][k]] == (b, k))
    && (forall n :: n in place ==> 
          0 <= place[n].0 < |chains| && 0 <= place[n].1 < |chains[place[n].0]| && chains[place[n].0][place[n].1] == n)
  }

  /** The chain from a node on is linked up to its end. */
  ghost predicate Linked<K, V>(s: seq<CNode<K, V>>)
    reads s
  {
    forall k {:trigger s[k].next} :: 0 <= k < |s| ==> s[k].next == if k + 1 < |s| then s[k + 1] else null
  }

  ghost predicate Table<K, V>(buckets: array<CNode?<K, V>>, chains: seq<seq<CNode<K, V>>>)
    reads buckets, Nodes(chains)
  {
    && buckets.Length == |chains|
    && forall b :: 0 <= b < |chains| ==>
         buckets[b] == (if chains[b] == [] then null else chains[b][0]) && Linked(chains[b])
  }

  /** `c_node_put_node_to_end` without replacing: walk to the end of the chain and link the node there. */
  method PutToEnd<K, V>(head: CNode<K, V>, node: CNode<K, V>, ghost s: seq<CNode<K, V>>)
    requires Linked(s) && s != [] && s[0] == head
    modifies s[|s| - 1]
    ensures s[|s| - 1].next == node
  {
    var n := head;
    ghost var k := 0;
    while n.next != null
      invariant 0 <= k < |s| && n == s[k]
      decreases |s| - k
    {
      n := n.next;
      k := k + 1;
    }
    n.next := node;
  }

  /** One step of the relocation: the node goes to the end of bucket `index`. */
  method Relocate<K, V>(buckets: array<CNode?<K, V>>, index: nat, node: CNode<K, V>,
                        ghost chains: seq<seq<CNode<K, V>>>, ghost place: map<CNode<K, V>, (nat, nat)>)
    requires Table(buckets, chains) && Placed(chains, place) && node !in place && index < |chains|
    modifies buckets, Nodes(chains), node
    ensures Table(buckets, chains[index := chains[index] + [node]])
    ensures Placed(chains[index := chains[index] + [node]], place[node := (index, |chains[index]|)])
  {
    hide Placed;
    PlacedFacts(chains, place);
    PlacedAppend(chains, place, index, node);
    if buckets[index] != null {
      PutToEnd(buckets[index], node, chains[index]);
    } else {
      buckets[index] := node;
    }
    node.next := null;
  }

  /** No node is in two chains or twice in one. */
  lemma PlacedFacts<K, V>(chains: seq<seq<CNode<K, V>>>, place: map<CNode<K, V>, (nat, nat)>)
    requires Placed(chains, place)
    ensures forall b, k :: 0 <= b < |chains| && 0 <= k < |chains[b]| ==>
              chains[b][k] in place && place[chains[b][k]] == (b, k)
  {
  }

  lemma PlacedAppend<K, V>(chains: seq<seq<CNode<K, V>>>, place: map<CNode<K, V>, (nat, nat)>, index: nat,
                           node: CNode<K, V>)
    requires Placed(chains, place) && node !in place && index < |chains|
    ensures Placed(chains[index := chains[index] + [node]], place[node := (index, |chains[index]|)])
  {
  }

  /** The bucket of the doubled table for a node that was in bucket `i` of `cap`: the new bit of the hash decides. */
  function NewIndex(hash: nat, cap: nat, i: nat): nat
    requires 0 < cap
  {
    if Bit(hash, 2 * cap) then hash % (2 * cap) else i
  }

  /** Each node's bucket agrees with its hash modulo the initial capacity. */
  ghost predicate Congruent<K, V>(chains: seq<seq<CNode<K, V>>>)
  {
    forall b, k :: 0 <= b < |chains| && 0 <= k < |chains[b]| ==>
      chains[b][k].hash % DEFAULT_CAP == b % DEFAULT_CAP
  }

  lemma CongruentAppend<K, V>(chains: seq<seq<CNode<K, V>>>, b: nat, n: CNode<K, V>)
    requires Congruent(chains) && b < |chains| && n.hash % DEFAULT_CAP == b % DEFAULT_CAP
    ensures Congruent(chains[b := chains[b] + [n]])
  {
  }

  lemma NewIndexCongruent(hash: nat, cap: nat, i: nat)
    requires 0 < cap && cap % DEFAULT_CAP == 0 && i < cap && hash % DEFAULT_CAP == i % DEFAULT_CAP
    ensures NewIndex(hash, cap, i) < 2 * cap && NewIndex(hash, cap, i) % DEFAULT_CAP == hash % DEFAULT_CAP
  {
    ModOfMod(hash, 2 * cap);
  }

  lemma ModOfMod(x: nat, m: nat)
    requires 0 < m && m % DEFAULT_CAP == 0
    ensures x % m % DEFAULT_CAP == x % DEFAULT_CAP
  {
    var b, q := m / DEFAULT_CAP, x / m;
    assert x == m * q + x % m;
    assert m * q == DEFAULT_CAP * (b * q);
  }

  lemma NodesPlaced<K, V>(chains: seq<seq<CNode<K, V>>>, place: map<CNode<K, V>, (nat, nat)>)
    requires Placed(chains, place)
    ensures Nodes(chains) == place.Keys
  {
  }

  /** One round of the inner loop: `node`, from bucket `i`, is put into its new bucket. */
  method MoveNode<K, V>(node: CNode<K, V>, i: nat, cap: nat, buckets: array<CNode?<K, V>>,
                        ghost chains: seq<seq<CNode<K, V>>>, ghost place: map<CNode<K, V>, (nat, nat)>)
    returns (ghost chains': seq<seq<CNode<K, V>>>, ghost place': map<CNode<K, V>, (nat, nat)>)
    requires 0 < cap && cap % DEFAULT_CAP == 0 && i < cap && node.hash % DEFAULT_CAP == i % DEFAULT_CAP
    requires |chains| == 2 * cap && Table(buckets, chains) && Placed(chains, place) && Congruent(chains)
    requires node !in place
    modifies buckets, place.Keys, node
    ensures |chains'| == 2 * cap && Table(buckets, chains') && Placed(chains', place') && Congruent(chains')
    ensures place'.Keys == place.Keys + {node} && place'[node].0 == NewIndex(node.hash, cap, i)
    ensures forall n :: n in place ==> place'[n] == place[n]
  {
    hide NewIndex, Congruent, Placed, Table, Nodes;
    var index := NewIndex(node.hash, cap, i);
    NewIndexCongruent(node.hash, cap, i);
    CongruentAppend(chains, index, node);
    NodesPlaced(chains, place);
    Relocate(buckets, index, node, chains, place);
    place' := place[node := (index, |chains[index]|)];
    chains' := chains[index := chains[index] + [node]];
  }

  ghost function Members<K, V>(s: seq<CNode<K, V>>): set<CNode<K, V>>
  {
    set n | n in s
  }

  lemma MembersUpTo<K, V>(s: seq<CNode<K, V>>, j: nat)
    requires j <= |s|
    ensures Members(s[..j]) <= Members(s) && Members(s[..|s|]) == Members(s) && Members(s[..0]) == {}
    ensures j < |s| ==> Members(s[..j + 1]) == Members(s[..j]) + {s[j]}
    ensures forall n :: n in Members(s) <==> n in s
  {
    assert s[..|s|] == s;
    if j < |s| {
      assert s[..j + 1] == s[..j] + [s[j]];
    }
  }

  /** The inner loop of the relocation, for the chain `s` of bucket `i`. */
  method MoveChain<K, V>(head: CNode?<K, V>, i: nat, cap: nat, buckets: array<CNode?<K, V>>, ghost s: seq<CNode<K, V>>,
                         ghost chains: seq<seq<CNode<K, V>>>, ghost place: map<CNode<K, V>, (nat, nat)>)
    returns (ghost chains': seq<seq<CNode<K, V>>>, ghost place': map<CNode<K, V>, (nat, nat)>)
    requires 0 < cap && cap % DEFAULT_CAP == 0 && i < cap && buckets.Length == 2 * cap
    requires head == (if s == [] then null else s[0]) && Linked(s)
    requires forall j :: 0 <= j < |s| ==> s[j] !in place && s[j].hash % DEFAULT_CAP == i % DEFAULT_CAP
    requires forall j, k :: 0 <= j < k < |s| ==> s[j] != s[k]
    requires |chains| == 2 * cap && Table(buckets, chains) && Placed(chains, place) && Congruent(chains)
    modifies buckets, Nodes(chains), s
    ensures |chains'| == 2 * cap && Table(buckets, chains') && Placed(chains', place') && Congruent(chains')
    ensures place'.Keys == place.Keys + Members(s)
    ensures forall n :: n in place ==> place'[n] == place[n]
    ensures forall n :: n in s ==> place'[n].0 == NewIndex(n.hash, cap, i)
  {
    hide NewIndex, Congruent, Placed, Table, Nodes, Members;
    MembersUpTo(s, 0);
    chains', place' := chains, place;
    NodesPlaced(chains, place);
    var node := head;
    ghost var j := 0;
    while node != null
      invariant 0 <= j <= |s| && node == (if j < |s| then s[j] else null)
      invariant forall k {:trigger s[k].next} :: j <= k < |s| ==> s[k].next == if k + 1 < |s| then s[k + 1] else null
      invariant forall k :: j <= k < |s| ==> s[k] !in place'
      invariant |chains'| == 2 * cap && Table(buckets, chains') && Placed(chains', place') && Congruent(chains')
      invariant place'.Keys == place.Keys + Members(s[..j])
      invariant forall n :: n in place ==> place'[n] == place[n]
      invariant forall k :: 0 <= k < j ==> s[k] in place' && place'[s[k]].0 == NewIndex(s[k].hash, cap, i)
      decreases |s| - j
    {
      MembersUpTo(s, j);
      var next := node.next;
      chains', place' := MoveNode(node, i, cap, buckets, chains', place');
      node := next;
      j := j + 1;
    }
    MembersUpTo(s, |s|);
  }

  /** The nodes of the buckets before `i`. */
  ghost function Before<K, V>(place: map<CNode<K, V>, (nat, nat)>, i: nat): set<CNode<K, V>>
  {
    set n | n in place && place[n].0 < i
  }

  /** One round of the outer loop: bucket `i` of the old table, whose later buckets stay as they are. */
  method MoveBucket<K, V>(head: CNode?<K, V>, i: nat, cap: nat, buckets: array<CNode?<K, V>>,
                          ghost old_: seq<seq<CNode<K, V>>>, ghost place: map<CNode<K, V>, (nat, nat)>,
                          ghost chains: seq<seq<CNode<K, V>>>, ghost where: map<CNode<K, V>, (nat, nat)>)
    returns (ghost chains': seq<seq<CNode<K, V>>>, ghost where': map<CNode<K, V>, (nat, nat)>)
    requires 0 < cap == |old_| && cap % DEFAULT_CAP == 0 && i < cap && buckets.Length == |chains| == 2 * cap
    requires Placed(old_, place) && Congruent(old_)
    requires head == (if old_[i] == [] then null else old_[i][0])
    requires forall b :: i <= b < cap ==> Linked(old_[b])
    requires Table(buckets, chains) && Placed(chains, where) && Congruent(chains) && where.Keys == Before(place, i)
    requires forall n :: n in where ==> where[n].0 == NewIndex(n.hash, cap, place[n].0)
    modifies buckets, Nodes(chains), old_[i]
    ensures |chains'| == 2 * cap && Table(buckets, chains') && Placed(chains', where') && Congruent(chains')
    ensures where'.Keys == Before(place, i + 1)
    ensures forall n :: n in where' ==> where'[n].0 == NewIndex(n.hash, cap, place[n].0)
    ensures forall b :: i < b < cap ==> Linked(old_[b])
  {
    hide NewIndex, Congruent, Placed, Table, Nodes;
    ChainFacts(old_, place);
    NodesPlaced(chains, where);
    assert forall b, k :: i < b < cap && 0 <= k < |old_[b]| ==> old_[b][k] !in where && old_[b][k] !in old_[i];
    chains', where' := MoveChain(head, i, cap, buckets, old_[i], chains, where);
    MembersUpTo(old_[i], |old_[i]|);
  }

  lemma BeforeAll<K, V>(place: map<CNode<K, V>, (nat, nat)>, cap: nat)
    requires forall n :: n in place ==> place[n].0 < cap
    ensures Before(place, 0) == {} && Before(place, cap) == place.Keys
  {
  }

  /** The outer loop of the relocation. */
  method MoveAll<K, V>(nodes: array<CNode?<K, V>>, cap: nat, buckets: array<CNode?<K, V>>,
                       ghost old_: seq<seq<CNode<K, V>>>, ghost place: map<CNode<K, V>, (nat, nat)>,
                       ghost empty: seq<seq<CNode<K, V>>>)
    returns (ghost chains: seq<seq<CNode<K, V>>>, ghost where: map<CNode<K, V>, (nat, nat)>)
    requires 0 < cap == |old_| && cap % DEFAULT_CAP == 0 && buckets.Length == |empty| == 2 * cap && nodes != buckets
    requires Table(nodes, old_) && Placed(old_, place) && Congruent(old_)
    requires Table(buckets, empty) && Placed(empty, map[]) && Congruent(empty)
    modifies buckets, Nodes(old_)
    ensures |chains| == 2 * cap && Table(buckets, chains) && Placed(chains, where) && Congruent(chains)
    ensures where.Keys == place.Keys
    ensures forall n :: n in where ==> where[n].0 == NewIndex(n.hash, cap, place[n].0)
  {
    hide NewIndex, Congruent, Placed, Nodes, Linked, Table, Before;
    ChainFacts(old_, place);
    TableFacts(nodes, old_);
    NodesPlaced(old_, place);
    BeforeAll(place, cap);
    chains, where := empty, map[];
    for i := 0 to cap
      invariant |chains| == 2 * cap && Table(buckets, chains) && Placed(chains, where) && Congruent(chains)
      invariant where.Keys == Before(place, i) <= place.Keys
      invariant forall n :: n in where ==> where[n].0 == NewIndex(n.hash, cap, place[n].0)
      invariant forall b :: i <= b < cap ==> Linked(old_[b])
    {
      NodesPlaced(chains, where);
      BeforeWithin(place, i + 1);
      chains, where := MoveBucket(nodes[i], i, cap, buckets, old_, place, chains, where);
    }
  }

  lemma BeforeWithin<K, V>(place: map<CNode<K, V>, (nat, nat)>, i: nat)
    ensures Before(place, i) <= place.Keys
  {
  }

  /** A capacity: the initial one, doubled any number of times. */
  ghost predicate Fits(cap: nat)
  {
    exists k: nat :: cap == Doubled(k)
  }

  ghost function Doubled(k: nat): nat
  {
    if k == 0 then DEFAULT_CAP else 2 * Doubled(k - 1)
  }

  lemma {:induction false} DoubledFacts(k: nat)
    ensures DEFAULT_CAP <= Doubled(k) && Doubled(k) % DEFAULT_CAP == 0
  {
    if k > 0 {
      DoubledFacts(k - 1);
    }
  }

  lemma FitsFacts(cap: nat)
    requires Fits(cap)
    ensures DEFAULT_CAP <= cap && cap % DEFAULT_CAP == 0
  {
    var k: nat :| cap == Doubled(k);
    DoubledFacts(k);
  }

  lemma FitsDoubled(cap: nat)
    requires Fits(cap)
    ensures 0 < cap && Fits(2 * cap)
  {
    FitsFacts(cap);
    var k: nat :| cap == Doubled(k);
    assert 2 * cap == Doubled(k + 1);
  }

  class CHashMap<K, V> {
    var cap: nat
    var count: nat
    var nodes: array<CNode?<K, V>>
    ghost var chains: seq<seq<CNode<K, V>>>
    ghost var place: map<CNode<K, V>, (nat, nat)>

    /** The buckets head acyclic chains that share no node, and each node's bucket agrees with its hash modulo 8. */
    ghost predicate Valid()
      reads this, nodes, Nodes(chains)
    {
      && cap == |chains| && Fits(cap)
      && Table(nodes, chains) && Placed(chains, place) && Congruent(chains)
    }

    constructor ()
      ensures Valid() && place == map[] && cap == DEFAULT_CAP && fresh(nodes)
    {
      cap, count := DEFAULT_CAP, 0;
      nodes := new CNode?<K, V>[DEFAULT_CAP](i => null);
      chains := seq(DEFAULT_CAP, i => []);
      place := map[];
      assert DEFAULT_CAP == Doubled(0);
    }

    /** The relocation part of `c_hash_map_resize`: a table of twice the size with the same nodes, each in the bucket
        that the new bit of its hash chooses. */
    method Relocation() returns (newNodes: array<CNode?<K, V>>, ghost out: seq<seq<CNode<K, V>>>,
                                 ghost where: map<CNode<K, V>, (nat, nat)>)
      requires Valid()
      modifies Nodes(chains)
      ensures fresh(newNodes) && |out| == 2 * cap
      ensures Table(newNodes, out) && Placed(out, where) && Congruent(out)
      ensures where.Keys == place.Keys
      ensures forall n :: n in where ==> where[n].0 == NewIndex(n.hash, cap, place[n].0)
    {
      hide NewIndex, Congruent, Placed, Nodes, Linked, Table, Fits;
      FitsFacts(cap);
      var newCap := 2 * cap;
      newNodes := new CNode?<K, V>[newCap](i => null);
      out, where := seq(newCap, i => []), map[];
      EmptyTable(newNodes, out);
      out, where := MoveAll(nodes, cap, newNodes, chains, place, out);
    }

    /** `c_hash_map_resize`: nothing happens below a load of three quarters, or on an empty map. */
    method Resize(target: nat)
      requires Valid()
      modifies this, Nodes(chains)
      ensures Valid() && count == old(count) && place.Keys == old(place).Keys
      ensures 3 * old(cap) > 4 * target || count == 0 ==>
                cap == old(cap) && place == old(place) && nodes == old(nodes)
      ensures !(3 * old(cap) > 4 * target || count == 0) ==>
                && cap == 2 * old(cap) && fresh(nodes)
                && forall n :: n in place ==>
                     && place[n].0 == NewIndex(n.hash, old(cap), old(place)[n].0)
                     && (Home(n.hash, cap, place[n].0) <==>
                         Bit(n.hash, cap) || (!Bit(n.hash, old(cap)) && Home(n.hash, old(cap), old(place)[n].0)))
    {
      hide NewIndex, Congruent, Placed, Linked, Home, Bit, Fits;
      if 3 * cap > 4 * target {
        return;
      }
      if count == 0 {
        return;
      }
      ghost var before := place;
      PlacedInside(chains, place);
      FitsDoubled(cap);
      var newNodes; ghost var out, where;
      newNodes, out, where := Relocation();
      FoundAfterResize(before, where, cap);
      cap := 2 * cap;
      nodes := newNodes;
      chains, place := out, where;
    }
  }

  /** Every node of a doubled table: where it is, and whether a lookup goes there. */
  lemma FoundAfterResize<K, V>(before: map<CNode<K, V>, (nat, nat)>, after: map<CNode<K, V>, (nat, nat)>, cap: nat)
    requires 0 < cap && after.Keys == before.Keys && forall n :: n in before ==> before[n].0 < cap
    requires forall n :: n in after ==> after[n].0 == NewIndex(n.hash, cap, before[n].0)
    ensures forall n :: n in after ==>
              (Home(n.hash, 2 * cap, after[n].0) <==>
               Bit(n.hash, 2 * cap) || (!Bit(n.hash, cap) && Home(n.hash, cap, before[n].0)))
  {
    hide NewIndex, Home, Bit;
    forall n | n in after
      ensures Home(n.hash, 2 * cap, after[n].0) <==>
              Bit(n.hash, 2 * cap) || (!Bit(n.hash, cap) && Home(n.hash, cap, before[n].0))
    {
      FoundAfterDoubling(n.hash, cap, before[n].0);
    }
  }

  lemma ChainFacts<K, V>(chains: seq<seq<CNode<K, V>>>, place: map<CNode<K, V>, (nat, nat)>)
    requires Placed(chains, place) && Congruent(chains)
    ensures forall b, k :: 0 <= b < |chains| && 0 <= k < |chains[b]| ==>
              && chains[b][k] in place && place[chains[b][k]].0 == b
              && chains[b][k].hash % DEFAULT_CAP == b % DEFAULT_CAP
    ensures forall b, j, k :: 0 <= b < |chains| && 0 <= j < k < |chains[b]| ==> chains[b][j] != chains[b][k]
    ensures forall n :: n in place ==> place[n].0 < |chains| && n in chains[place[n].0]
  {
  }

  lemma PlacedInside<K, V>(chains: seq<seq<CNode<K, V>>>, place: map<CNode<K, V>, (nat, nat)>)
    requires Placed(chains, place)
    ensures forall n :: n in place ==> place[n].0 < |chains|
  {
  }

  lemma TableFacts<K, V>(buckets: array<CNode?<K, V>>, chains: seq<seq<CNode<K, V>>>)
    requires Table(buckets, chains)
    ensures buckets.Length == |chains|
    ensures forall b :: 0 <= b < |chains| ==>
              buckets[b] == (if chains[b] == [] then null else chains[b][0]) && Linked(chains[b])
  {
  }

  lemma EmptyTable<K, V>(buckets: array<CNode?<K, V>>, chains: seq<seq<CNode<K, V>>>)
    requires buckets.Length == |chains| && forall i :: 0 <= i < |chains| ==> buckets[i] == null && chains[i] == []
    ensures Table(buckets, chains) && Placed(chains, map[]) && Congruent(chains) && Nodes(chains) == {}
  {
  }

  /** The hash has the bit of a capacity, which is a power of two. */
  predicate Bit(hash: nat, cap: nat)
    requires 0 < cap
  {
    hash / cap % 2 == 1
  }

  /** The code looks a key up in bucket `hash % cap`. */
  predicate Home(hash: nat, cap: nat, b: nat)
    requires 0 < cap
  {
    b == hash % cap
  }

  /** A node of bucket `i` is where a lookup goes after the table has doubled, if and only if its hash has the bit of
      the new capacity, or it has neither that nor the bit of the old one and was where it belongs before. So a node
      that was where it belongs gets lost exactly when it has the old bit but not the new one, and a lost node is found
      again exactly when it has the new one. */
  lemma FoundAfterDoubling(hash: nat, cap: nat, i: nat)
    requires 0 < cap && i < cap
    ensures Home(hash, 2 * cap, NewIndex(hash, cap, i)) <==>
            Bit(hash, 2 * cap) || (!Bit(hash, cap) && Home(hash, cap, i))
  {
    hide NewIndex, Bit;
    NewIndexIs(hash, cap, i);
    HalfOf(hash, cap);
  }

  lemma NewIndexIs(hash: nat, cap: nat, i: nat)
    requires 0 < cap
    ensures NewIndex(hash, cap, i) == if Bit(hash, 2 * cap) then hash % (2 * cap) else i
  {
  }

  /** The residue modulo twice the capacity: that modulo the capacity, and the capacity more if its bit is set. */
  lemma HalfOf(hash: nat, cap: nat)
    requires 0 < cap
    ensures hash % (2 * cap) == hash % cap + if Bit(hash, cap) then cap else 0
  {
    hide Bit;
    var m := 2 * cap;
    var q := DivMod(hash, m);
    BitIs(hash, cap, m, q, hash % m);
  }

  lemma DivMod(x: nat, m: nat) returns (q: nat)
    requires 0 < m
    ensures x == m * q + x % m
  {
    q := x / m;
  }

  lemma BitIs(hash: nat, cap: nat, m: nat, q: nat, r: nat)
    requires r < m == 2 * cap && hash == m * q + r
    ensures Bit(hash, cap) <==> cap <= r
    ensures hash % cap == if cap <= r then r - cap else r
  {
    TwiceIs(cap, q);
    if r < cap {
      DivisionIs(hash, cap, 2 * q, r);
    } else {
      DivisionIs(hash, cap, 2 * q + 1, r - cap);
    }
  }

  lemma TwiceIs(cap: nat, q: nat)
    ensures (2 * cap) * q == cap * (2 * q) && cap * (2 * q + 1) == cap * (2 * q) + cap
  {
  }

  /** `c_hash` of dlib/c_hash.c: characters are signed, the product is kept to 64 bits, and the result to 32. */
  function HashCode(key: seq<nat>): nat
  {
    Product(key) / 0x800_0000 % 0x1_0000_0000
  }

  function Product(key: seq<nat>): nat
  {
    if key == [] then 0
    else
      var last: int := key[|key| - 1];
      var c: int := if last < 128 then last else last - 256;
      if |key| == 1 then c % 0x1_0000_0000_0000_0000
      else Product(key[..|key| - 1]) * (1103515245 + c) % 0x1_0000_0000_0000_0000
  }

  /** The key `ca` stays in bucket 5 when the table grows from 8 to 16, and a lookup goes to bucket 13. */
  lemma LostKey()
    ensures HashCode([99, 97]) == 813 && Home(813, 8, 5)
    ensures NewIndex(813, 8, 5) == 5 && !Home(813, 16, 5) && Home(813, 16, 13)
  {
    assert [99, 97][..1] == [99];
    assert Product([99]) == 99;
    assert Product([99, 97]) == 99 * (1103515245 + 97) % 0x1_0000_0000_0000_0000;
  }

  /** Characters are signed: a single one of 128 or more has the largest hash. */
  lemma SignedHash(c: nat)
    requires 128 <= c < 256
    ensures HashCode([c]) == 0xFFFF_FFFF
  {
    assert Product([c]) == 0x1_0000_0000_0000_0000 + c - 256;
  }

  lemma MultipleBeyond(m: int, d: int)
    requires 0 <= m
    ensures (d >= 1 ==> m * d >= m) && (d <= -1 ==> m * d <= -m)
  {
    if d >= 1 {
      assert m * d == m * (d - 1) + m;
    } else if d <= -1 {
      assert m * d == m * (d + 1) - m;
    }
  }

  lemma DivisionIs(x: nat, m: nat, q: nat, r: nat)
    requires r < m && x == m * q + r
    ensures x / m == q && x % m == r
  {
    assert m * (x / m - q) == r - x % m;
    MultipleBeyond(m, x / m - q);
  }
}
