/** The sorted array of dlib/c_sparse_array.c, which maps integer keys to values. */
module SparseArray {
  import opened Wire

  const DEFAULT_CAP := 8

  datatype Node<V> = Node(key: int, value: V)

  ghost predicate Sorted<V>(s: seq<Node<V>>)
  {
    forall i, j :: 0 <= i < j < |s| ==> s[i].key < s[j].key
  }

  /** The finite map that a sorted sequence of nodes stands for. */
  ghost function AsMap<V>(s: seq<Node<V>>): map<int, V>
  {
    if s == [] then map[] else AsMap(s[..|s| - 1])[s[|s| - 1].key := s[|s| - 1].value]
  }

  /** The position of a key. */
  ghost predicate At<V>(s: seq<Node<V>>, k: int, i: int)
  {
    0 <= i < |s| && s[i].key == k
  }

  lemma {:induction false} AsMapHas<V>(s: seq<Node<V>>, i: nat)
    requires Sorted(s) && i < |s|
    ensures s[i].key in AsMap(s) && AsMap(s)[s[i].key] == s[i].value
  {
    if i < |s| - 1 {
      AsMapHas(s[..|s| - 1], i);
    }
  }

  lemma {:induction false} AsMapOnly<V>(s: seq<Node<V>>, k: int)
    ensures k in AsMap(s) ==> exists i :: At(s, k, i)
  {
    if s != [] && k in AsMap(s) {
      if s[|s| - 1].key == k {
        assert At(s, k, |s| - 1);
      } else {
        AsMapOnly(s[..|s| - 1], k);
        var i :| At(s[..|s| - 1], k, i);
        assert At(s, k, i);
      }
    }
  }

  /** A sorted sequence that has the bindings of `m`, and no other keys, is `m`. */
  lemma AsMapIs<V>(s: seq<Node<V>>, m: map<int, V>)
    requires Sorted(s)
    requires forall i :: 0 <= i < |s| ==> s[i].key in m && m[s[i].key] == s[i].value
    requires forall k :: k in m ==> exists i :: At(s, k, i)
    ensures AsMap(s) == m
  {
    forall k | k in m
      ensures k in AsMap(s) && AsMap(s)[k] == m[k]
    {
      var i :| At(s, k, i);
      AsMapHas(s, i);
    }
    forall k | k in AsMap(s)
      ensures k in m
    {
      AsMapOnly(s, k);
    }
  }

  function InsertAt<X>(s: seq<X>, at: nat, x: X): (t: seq<X>)
    requires at <= |s|
    ensures |t| == |s| + 1 && t[at] == x
    ensures forall i :: 0 <= i < at ==> t[i] == s[i]
    ensures forall i :: at < i < |t| ==> t[i] == s[i - 1]
  {
    s[..at] + [x] + s[at..]
  }

  lemma SortedInsert<V>(s: seq<Node<V>>, at: nat, n: Node<V>)
    requires Sorted(s) && at <= |s|
    requires (forall i :: 0 <= i < at ==> s[i].key < n.key) && (forall i :: at <= i < |s| ==> n.key < s[i].key)
    ensures Sorted(InsertAt(s, at, n))
  {
    hide InsertAt;
  }

  lemma AsMapInsert<V>(s: seq<Node<V>>, at: nat, k: int, v: V)
    requires Sorted(s) && at <= |s|
    requires (forall i :: 0 <= i < at ==> s[i].key < k) && (forall i :: at <= i < |s| ==> k < s[i].key)
    ensures Sorted(InsertAt(s, at, Node(k, v)))
    ensures AsMap(InsertAt(s, at, Node(k, v))) == AsMap(s)[k := v] && k !in AsMap(s)
  {
    hide AsMap, InsertAt, Sorted;
    SortedInsert(s, at, Node(k, v));
    var t := InsertAt(s, at, Node(k, v));
    var m := AsMap(s)[k := v];
    AsMapOnly(s, k);
    forall i | 0 <= i < |t|
      ensures t[i].key in m && m[t[i].key] == t[i].value
    {
      if i != at {
        AsMapHas(s, if i < at then i else i - 1);
      }
    }
    forall x | x in m
      ensures exists i :: At(t, x, i)
    {
      if x == k {
        assert At(t, x, at);
      } else {
        AsMapOnly(s, x);
        var i :| At(s, x, i);
        assert At(t, x, if i < at then i else i + 1);
      }
    }
    AsMapIs(t, m);
  }

  lemma AsMapReplace<V>(s: seq<Node<V>>, at: nat, v: V)
    requires Sorted(s) && at < |s|
    ensures Sorted(s[at := Node(s[at].key, v)])
    ensures AsMap(s[at := Node(s[at].key, v)]) == AsMap(s)[s[at].key := v]
  {
    hide AsMap;
    var t := s[at := Node(s[at].key, v)];
    var m := AsMap(s)[s[at].key := v];
    forall i | 0 <= i < |t|
      ensures t[i].key in m && m[t[i].key] == t[i].value
    {
      AsMapHas(s, i);
    }
    forall x | x in m
      ensures exists i :: At(t, x, i)
    {
      AsMapOnly(s, x);
      assert At(t, s[at].key, at);
      if x != s[at].key {
        var i :| At(s, x, i);
        assert At(t, x, i);
      }
    }
    AsMapIs(t, m);
  }

  /** Dropping the nodes from `lo` to `hi` removes exactly their keys. */
  lemma AsMapDrop<V>(s: seq<Node<V>>, lo: nat, hi: nat)
    requires Sorted(s) && lo <= hi <= |s|
    ensures Sorted(s[..lo] + s[hi..])
    ensures AsMap(s[..lo] + s[hi..]) == AsMap(s) - set i | lo <= i < hi :: s[i].key
  {
    hide AsMap;
    var t := s[..lo] + s[hi..];
    var gone := set i | lo <= i < hi :: s[i].key;
    forall i | 0 <= i < |t|
      ensures t[i].key in AsMap(s) - gone && (AsMap(s) - gone)[t[i].key] == t[i].value
    {
      AsMapHas(s, if i < lo then i else i - lo + hi);
    }
    forall x | x in AsMap(s) - gone
      ensures exists i :: At(t, x, i)
    {
      AsMapOnly(s, x);
      var i :| At(s, x, i);
      assert At(t, x, if i < lo then i else i - hi + lo);
    }
    AsMapIs(t, AsMap(s) - gone);
  }

  /** The first `at` nodes of a sequence hold the keys up to `key`. */
  lemma AsMapUpTo<V>(s: seq<Node<V>>, at: nat, key: int)
    requires Sorted(s) && at <= |s|
    requires (forall i :: 0 <= i < at ==> s[i].key <= key) && (at < |s| ==> s[at].key > key)
    ensures AsMap(s[..at]) == map k | k in AsMap(s) && k <= key :: AsMap(s)[k]
  {
    hide AsMap;
    var m := map k | k in AsMap(s) && k <= key :: AsMap(s)[k];
    forall i | 0 <= i < at
      ensures s[i].key in m && m[s[i].key] == s[i].value
    {
      AsMapHas(s, i);
    }
    forall x | x in m
      ensures exists i :: At(s[..at], x, i)
    {
      AsMapOnly(s, x);
      var i :| At(s, x, i);
      assert At(s[..at], x, i);
    }
    AsMapIs(s[..at], m);
  }

  /** The other nodes hold the larger keys. */
  lemma AsMapBeyond<V>(s: seq<Node<V>>, at: nat, key: int)
    requires Sorted(s) && at <= |s|
    requires (forall i :: 0 <= i < at ==> s[i].key <= key) && (at < |s| ==> s[at].key > key)
    ensures AsMap(s[at..]) == map k | k in AsMap(s) && k > key :: AsMap(s)[k]
  {
    hide AsMap;
    var m := map k | k in AsMap(s) && k > key :: AsMap(s)[k];
    forall i | at <= i < |s|
      ensures s[i].key in m && m[s[i].key] == s[i].value
    {
      AsMapHas(s, i);
    }
    forall x | x in m
      ensures exists i :: At(s[at..], x, i)
    {
      AsMapOnly(s, x);
      var i :| At(s, x, i);
      assert At(s[at..], x, i - at);
    }
    AsMapIs(s[at..], m);
  }

  /** The last node has the largest key. */
  lemma LargestKey<V>(s: seq<Node<V>>)
    requires Sorted(s)
    ensures s == [] <==> AsMap(s) == map[]
    ensures s != [] ==>
              var Node(k, v) := s[|s| - 1];
              && k in AsMap(s) && AsMap(s)[k] == v && AsMap(s[..|s| - 1]) == AsMap(s) - {k}
              && forall x :: x in AsMap(s) ==> x <= k
  {
    if s != [] {
      AsMapHas(s, |s| - 1);
      hide AsMap;
      var n := |s| - 1;
      AsMapDrop(s, n, n + 1);
      assert s[..n] + s[n + 1..] == s[..n];
      assert (set i | n <= i < n + 1 :: s[i].key) == {s[n].key};
      forall x | x in AsMap(s)
        ensures x <= s[n].key
      {
        AsMapOnly(s, x);
      }
    }
  }

  lemma SlicesAgree<X>(a: seq<X>, x: nat, b: seq<X>, y: nat, n: nat)
    requires x + n <= |a| && y + n <= |b| && forall i {:trigger a[i]} :: x <= i < x + n ==> a[i] == b[i - x + y]
    ensures a[x..x + n] == b[y..y + n]
  {
  }

  class CSparseArray<V(0)> {
    var nodes: array<Node<V>>
    var len: nat

    ghost function Content(): seq<Node<V>>
      reads this, nodes
    {
      if len <= nodes.Length then nodes[..len] else []
    }

    /** Keys ascend strictly, and the capacity is large enough to grow by half of itself. */
    ghost predicate Valid()
      reads this, nodes
    {
      DEFAULT_CAP <= nodes.Length && len <= nodes.Length && Sorted(Content())
    }

    ghost function Model(): map<int, V>
      reads this, nodes
    {
      AsMap(Content())
    }

    constructor ()
      ensures Valid() && Model() == map[] && fresh(nodes)
    {
      nodes := new Node<V>[DEFAULT_CAP];
      len := 0;
    }

    /** `resize`: grow the capacity by half until it suffices, and keep the content. */
    method Resize(need: nat)
      requires Valid()
      modifies this`nodes
      ensures Valid() && Content() == old(Content()) && need <= nodes.Length
      ensures nodes == old(nodes) || fresh(nodes)
    {
      if nodes.Length >= need {
        return;
      }
      var cap := nodes.Length;
      while cap < need
        invariant DEFAULT_CAP <= cap && nodes.Length <= cap
        decreases need - cap
      {
        cap := cap + cap / 2;
      }
      var grown := new Node<V>[cap];
      forall i | 0 <= i < len {
        grown[i] := nodes[i];
      }
      assert grown[..len] == nodes[..len];
      nodes := grown;
    }

    /** `find_index`: the position of the key, or the complement `-p - 1` of the position `p` it would be inserted
        at. */
    method FindIndex(key: int) returns (index: int)
      requires Valid()
      ensures index >= 0 ==> index < len && Content()[index].key == key
      ensures index < 0 ==>
                && -index - 1 <= len
                && (forall i :: 0 <= i < -index - 1 ==> Content()[i].key < key)
                && (forall i :: -index - 1 <= i < len ==> key < Content()[i].key)
    {
      if len == 0 {
        return -1;
      }
      ghost var s := Content();
      var start, end := 0, len - 1;
      var mid := end / 2;
      while start <= end
        invariant 0 <= start <= end + 1 <= len
        invariant start <= end ==> start <= mid <= end
        invariant forall i :: 0 <= i < start ==> s[i].key < key
        invariant forall i :: end < i < len ==> key < s[i].key
        decreases end - start
      {
        var midKey := nodes[mid].key;
        assert s[mid].key == midKey;
        if midKey == key {
          return mid;
        }
        if midKey < key {
          start := mid + 1;
        } else {
          end := mid - 1;
        }
        mid := (start + end) / 2;
      }
      return -start - 1;
    }

    /** `CSparseArray_put`: bind the key and return what it was bound to. */
    method Put(key: int, v: V) returns (old_: Option<V>)
      requires Valid()
      modifies this, nodes
      ensures Valid() && (nodes == old(nodes) || fresh(nodes))
      ensures Model() == old(Model())[key := v]
      ensures old_ == if key in old(Model()) then Some(old(Model())[key]) else None
    {
      hide AsMap;
      Resize(len + 1);
      ghost var s := Content();
      var index := FindIndex(key);
      if index >= 0 {
        old_ := Some(nodes[index].value);
        nodes[index] := Node(key, v);
        AsMapHas(s, index);
        AsMapReplace(s, index, v);
        assert Content() == s[index := Node(key, v)];
        return;
      }
      index := -index - 1;
      assert s == Content();
      AsMapInsert(s, index, key, v);
      Insert(index, key, v);
      old_ := None;
    }

    /** The insertion part of `CSparseArray_put`. */
    method Insert(index: nat, key: int, v: V)
      requires index <= len < nodes.Length
      modifies this`len, nodes
      ensures len == old(len) + 1 <= nodes.Length
      ensures Content() == InsertAt(old(Content()), index, Node(key, v))
    {
      ghost var s := Content();
      ShiftUp(index);
      len := len + 1;
      nodes[index] := Node(key, v);
      assert nodes[..index] == s[..index] && nodes[index + 1..len] == s[index..];
    }

    /** The loop that makes room: every node from `index` on moves one place up. */
    method ShiftUp(index: nat)
      requires index <= len < nodes.Length
      modifies nodes
      ensures nodes[..index] == old(nodes[..index]) && nodes[index + 1..len + 1] == old(nodes[index..len])
    {
      ghost var s := nodes[..];
      MoveUp(index);
      SlicesAgree(nodes[..], 0, s, 0, index);
      SlicesAgree(nodes[..], index + 1, s, index, len - index);
      Slices(nodes, index + 1, len + 1);
      assert s[..index] == old(nodes[..index]) && s[index..len] == old(nodes[index..len]);
      assert nodes[..][..index] == nodes[..index];
    }

    method MoveUp(index: nat)
      requires index <= len < nodes.Length
      modifies nodes
      ensures forall j {:trigger nodes[j]} :: 0 <= j < index ==> nodes[j] == old(nodes[..])[j]
      ensures forall j {:trigger nodes[j]} :: index < j <= len ==> nodes[j] == old(nodes[..])[j - 1]
    {
      ghost var s := nodes[..];
      var i := len - 1;
      while i >= index
        invariant index - 1 <= i < len
        invariant forall j {:trigger nodes[j]} :: 0 <= j <= i + 1 && j < nodes.Length ==> nodes[j] == s[j]
        invariant forall j {:trigger nodes[j]} :: i + 1 < j <= len ==> nodes[j] == s[j - 1]
      {
        nodes[i + 1] := nodes[i];
        i := i - 1;
      }
    }

    /** `CSparseArray_get`. */
    method Get(key: int) returns (v: Option<V>)
      requires Valid()
      ensures v == if key in Model() then Some(Model()[key]) else None
    {
      hide AsMap;
      AsMapOnly(Content(), key);
      if len == 0 {
        return None;
      }
      var index := FindIndex(key);
      if index < 0 {
        return None;
      }
      AsMapHas(Content(), index);
      v := Some(nodes[index].value);
    }

    /** The loop that closes a gap: every node from `from` on moves down to `to`. */
    method ShiftDown(to: nat, from: nat)
      requires to <= from <= len <= nodes.Length
      modifies nodes
      ensures nodes[..to] == old(nodes[..to]) && nodes[to..to + len - from] == old(nodes[from..len])
    {
      ghost var s := nodes[..];
      MoveDown(to, from);
      SlicesAgree(nodes[..], 0, s, 0, to);
      SlicesAgree(nodes[..], to, s, from, len - from);
      Slices(nodes, to, to + len - from);
      assert s[..to] == old(nodes[..to]) && s[from..len] == old(nodes[from..len]);
    }

    static lemma Slices(a: array<Node<V>>, x: nat, y: nat)
      requires x <= y <= a.Length
      ensures a[..][..x] == a[..x] && a[..][x..y] == a[x..y]
    {
    }

    method MoveDown(to: nat, from: nat)
      requires to <= from <= len <= nodes.Length
      modifies nodes
      ensures forall i {:trigger nodes[i]} :: 0 <= i < to ==> nodes[i] == old(nodes[..])[i]
      ensures forall i {:trigger nodes[i]} :: to <= i < to + len - from ==> nodes[i] == old(nodes[..])[i - to + from]
    {
      ghost var s := nodes[..];
      var j := from;
      while j < len
        invariant from <= j <= len
        invariant forall i {:trigger nodes[i]} :: 0 <= i < to ==> nodes[i] == s[i]
        invariant forall i {:trigger nodes[i]} :: to <= i < to + j - from ==> nodes[i] == s[i - to + from]
        invariant forall i {:trigger nodes[i]} :: j <= i < len ==> nodes[i] == s[i]
      {
        nodes[j - from + to] := nodes[j];
        j := j + 1;
      }
    }

    /** `CSparseArray_remove`: unbind the key and return what it was bound to. */
    method Remove(key: int) returns (v: Option<V>)
      requires Valid()
      modifies this, nodes
      ensures Valid() && nodes == old(nodes)
      ensures Model() == old(Model()) - {key}
      ensures v == if key in old(Model()) then Some(old(Model())[key]) else None
    {
      hide AsMap;
      ghost var s := Content();
      AsMapOnly(s, key);
      if len == 0 {
        return None;
      }
      var index := FindIndex(key);
      if index < 0 {
        return None;
      }
      AsMapHas(s, index);
      AsMapDrop(s, index, index + 1);
      v := Some(nodes[index].value);
      Delete(index);
      assert AsMap(s) - (set i | index <= i < index + 1 :: s[i].key) == AsMap(s) - {key};
    }

    /** The deletion part of `CSparseArray_remove`. */
    method Delete(index: nat)
      requires index < len <= nodes.Length
      modifies this`len, nodes
      ensures len == old(len) - 1 && Content() == old(Content())[..index] + old(Content())[index + 1..]
    {
      ShiftDown(index, index + 1);
      len := len - 1;
    }

    /** `CSparseArray_remove_last`: unbind the largest key. */
    method RemoveLast() returns (last: Option<Node<V>>)
      requires Valid()
      modifies this`len
      ensures Valid()
      ensures last == None <==> old(Model()) == map[]
      ensures last == None ==> Model() == map[]
      ensures last.Some? ==>
                var Node(k, v) := last.value;
                && k in old(Model()) && old(Model())[k] == v && Model() == old(Model()) - {k}
                && forall x :: x in old(Model()) ==> x <= k
    {
      hide AsMap;
      LargestKey(Content());
      if len == 0 {
        return None;
      }
      last := Some(nodes[len - 1]);
      len := len - 1;
      assert Content() == old(Content())[..len];
    }

    /** `CSparseArray_remove_before_key`: unbind exactly the keys up to the bound, smallest first, and count them. */
    method RemoveBeforeKey(key: int) returns (removed: seq<Node<V>>, count: nat)
      requires Valid()
      modifies this, nodes
      ensures Valid() && nodes == old(nodes) && count == |removed|
      ensures Sorted(removed) && AsMap(removed) == map k | k in old(Model()) && k <= key :: old(Model())[k]
      ensures Model() == map k | k in old(Model()) && k > key :: old(Model())[k]
    {
      hide AsMap;
      ghost var s := Content();
      removed, count := [], 0;
      while count < len && nodes[count].key <= key
        invariant count <= len && removed == s[..count]
        invariant forall i :: 0 <= i < count ==> s[i].key <= key
      {
        removed := removed + [nodes[count]];
        count := count + 1;
      }
      AsMapUpTo(s, count, key);
      AsMapBeyond(s, count, key);
      ShiftDown(0, count);
      len := len - count;
      assert Content() == s[count..];
    }
  }
}
