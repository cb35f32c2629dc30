/** The singly linked list of dlib/c_linked_list.c, with its `header`, `footer` and `len` fields.
    The ghost `spine` is the chain of nodes from `header`, and `contents` the values they hold. */
module LinkedList {
  import opened Wire

  class Node<T> {
    const value: T  // stored when the node is made and never overwritten
    var next: Node?<T>

    constructor (value: T)
      ensures this.value == value && next == null
    {
      this.value := value;
      next := null;
    }
  }

  /** `spine` without the node at position `k`. */
  function Without<X>(s: seq<X>, k: nat): (r: seq<X>)
    requires k < |s|
    ensures |r| == |s| - 1
  {
    s[..k] + s[k + 1..]
  }

  lemma Different<X>(a: seq<X>, b: seq<X>)
    requires forall x :: x in a ==> x !in b
    ensures forall i, j :: 0 <= i < |a| && 0 <= j < |b| ==> a[i] != b[j]
  {
    forall i, j | 0 <= i < |a| && 0 <= j < |b|
      ensures a[i] != b[j]
    {
      assert a[i] in a && b[j] in b;
    }
  }

  class CLinkedList<T> {
    var header: Node?<T>
    var footer: Node?<T>
    var len: nat
    ghost var spine: seq<Node<T>>
    ghost var contents: seq<T>

    /** `header` starts an acyclic chain of exactly `len` nodes that ends in `footer`. */
    ghost predicate Valid()
      reads this, spine
    {
      && len == |spine| == |contents|
      && header == (if spine == [] then null else spine[0])
      && footer == (if spine == [] then null else spine[|spine| - 1])
      && (forall i {:trigger spine[i].next} :: 0 <= i < |spine| ==>
            spine[i].next == if i + 1 < |spine| then spine[i + 1] else null)
      && (forall i, j :: 0 <= i < j < |spine| ==> spine[i] != spine[j])
      && (forall i :: 0 <= i < |spine| ==> contents[i] == spine[i].value)
    }

    constructor ()
      ensures Valid() && spine == [] && contents == []
    {
      header, footer, len := null, null, 0;
      spine, contents := [], [];
    }

    /** `c_linked_list_add`: append a value. */
    method Add(v: T)
      requires Valid()
      modifies this, spine
      ensures Valid() && contents == old(contents) + [v]
      ensures |spine| == |old(spine)| + 1 && spine[..|old(spine)|] == old(spine) && fresh(spine[|old(spine)|])
    {
      var node := new Node(v);
      if footer == null {
        header := node;
        footer := node;
      } else {
        footer.next := node;
        footer := node;
      }
      len := len + 1;
      spine, contents := spine + [node], contents + [v];
    }

    /** `c_linked_list_get_header`. */
    method GetHeader() returns (v: Option<T>)
      requires Valid()
      ensures v == if contents == [] then None else Some(contents[0])
    {
      if header != null {
        v := Some(header.value);
      } else {
        v := None;
      }
    }

    /** `c_linked_list_get_footer`. */
    method GetFooter() returns (v: Option<T>)
      requires Valid()
      ensures v == if contents == [] then None else Some(contents[|contents| - 1])
    {
      if footer != null {
        v := Some(footer.value);
      } else {
        v := None;
      }
    }

    /** `c_linked_list_remove_header`: drop the first value and return it. */
    method RemoveHeader() returns (v: Option<T>)
      requires Valid()
      modifies this
      ensures Valid()
      ensures old(contents) == [] ==> v == None && contents == [] && spine == []
      ensures old(contents) != [] ==>
                v == Some(old(contents[0])) && contents == old(contents)[1..] && spine == old(spine)[1..]
    {
      if header == null {
        return None;
      }
      v := Some(header.value);
      if header.next == null {
        header, footer := null, null;
      } else {
        header := header.next;
      }
      len := len - 1;
      spine, contents := spine[1..], contents[1..];
    }

    /** `c_linked_list_remove_footer`: walk to the node before the last one and cut there. */
    method RemoveFooter() returns (v: Option<T>)
      requires Valid()
      modifies this, spine
      ensures Valid()
      ensures old(contents) == [] ==> v == None && contents == [] && spine == []
      ensures old(contents) != [] ==>
                var last := |old(contents)| - 1;
                v == Some(old(contents)[last]) && contents == old(contents)[..last] && spine == old(spine)[..last]
    {
      if footer == null {
        return None;
      }
      v := Some(footer.value);
      if header.next == null {
        header, footer := null, null;
      } else {
        var f := footer;
        var node := header;
        ghost var k := 0;
        while node.next != f
          invariant 0 <= k < |spine| - 1 && node == spine[k]
          decreases |spine| - k
        {
          node := node.next;
          k := k + 1;
        }
        assert k == |spine| - 2;
        node.next := null;
        footer := node;
      }
      len := len - 1;
      spine, contents := spine[..|spine| - 1], contents[..|contents| - 1];
    }

    /** `c_linked_list_remove`: unlink the given node, if it is one of this list's. */
    method Remove(v: Node<T>) returns (r: Option<T>)
      requires Valid()
      modifies this, spine
      ensures Valid()
      ensures v !in old(spine) ==> r == None && spine == old(spine) && contents == old(contents)
      ensures forall k :: 0 <= k < |old(spine)| && old(spine)[k] == v ==>
                && r == Some(old(contents)[k])
                && spine == Without(old(spine), k) && contents == Without(old(contents), k)
    {
      if len == 0 {
        return None;
      }
      var node := header;
      if node == v {
        header := node.next;
        if header == null {
          footer := null;
        }
        len := len - 1;
        spine, contents := Without(spine, 0), Without(contents, 0);
        return Some(node.value);
      }
      ghost var k := 0;
      while node.next != null
        invariant 0 <= k < |spine| && node == spine[k]
        invariant v !in spine[..k + 1]
        decreases |spine| - k
      {
        if node.next == v {
          r := UnlinkNext(node, k);
          return;
        }
        node := node.next;
        k := k + 1;
      }
      return None;
    }

    /** The unlinking step of `c_linked_list_remove`: skip the successor of `node`, the node at position `k`. */
    method UnlinkNext(node: Node<T>, ghost k: nat) returns (r: Option<T>)
      requires Valid() && k + 1 < |spine| && node == spine[k]
      modifies this, node
      ensures Valid()
      ensures r == Some(old(contents)[k + 1])
      ensures spine == Without(old(spine), k + 1) && contents == Without(old(contents), k + 1)
    {
      var next := node.next;
      node.next := next.next;
      if node.next == null {
        footer := node;
      }
      len := len - 1;
      spine, contents := Without(spine, k + 1), Without(contents, k + 1);
      return Some(next.value);
    }

    /** `c_linked_list_clear`: drop headers until none is left. */
    method Clear()
      requires Valid()
      modifies this
      ensures Valid() && spine == [] && contents == []
    {
      while len > 0
        invariant Valid()
        decreases len
      {
        var _ := RemoveHeader();
      }
    }

    /** `c_linked_list_merge`: splice all of `src` behind `dest` and leave `src` empty. A missing list is an error and
        changes nothing; a list merged with itself loses everything. */
    static method Merge(dest: CLinkedList?<T>, src: CLinkedList?<T>) returns (r: int)
      requires dest != null ==> dest.Valid()
      requires src != null ==> src.Valid()
      requires dest != null && src != null && dest != src ==> forall n :: n in dest.spine ==> n !in src.spine
      modifies dest, src, if dest == null || src == null then [] else dest.spine
      ensures r == if dest == null || src == null then -1 else 0
      ensures dest != null ==> dest.Valid()
      ensures src != null ==> src.Valid()
      ensures dest == null && src != null ==> src.contents == old(src.contents) && src.spine == old(src.spine)
      ensures src == null && dest != null ==> dest.contents == old(dest.contents) && dest.spine == old(dest.spine)
      ensures dest != null && src != null ==> src.contents == [] && src.spine == []
      ensures dest != null && src != null && dest != src ==>
                && dest.contents == old(dest.contents) + old(src.contents)
                && dest.spine == old(dest.spine) + old(src.spine)
    {
      if dest == null || src == null {
        return -1;
      }
      if src.header == null {
        return 0;
      }
      dest.Append(src);
      src.ResetWithNoFree();
      return 0;
    }

    /** The linking part of `c_linked_list_merge`. */
    method Append(src: CLinkedList<T>)
      requires Valid() && src.Valid() && src.spine != []
      requires this != src ==> forall n :: n in spine ==> n !in src.spine
      modifies this, spine
      ensures this != src ==>
                && Valid() && src.Valid() && src.spine == old(src.spine)
                && spine == old(spine) + src.spine && contents == old(contents) + src.contents
    {
      ghost var a, b := spine, src.spine;
      if this != src {
        Different(a, b);
      }
      if footer == null {
        header := src.header;
        footer := src.footer;
      } else {
        footer.next := src.header;
        footer := src.footer;
      }
      len := len + src.len;
      spine, contents := spine + src.spine, contents + src.contents;
      if this != src {
        Joined(a, b);
      }
    }

    /** Two chains without a common node, linked one behind the other, are one chain. */
    lemma Joined(a: seq<Node<T>>, b: seq<Node<T>>)
      requires b != [] && spine == a + b && len == |spine| == |contents|
      requires header == spine[0] && footer == spine[|spine| - 1]
      requires (forall i, j :: 0 <= i < j < |a| ==> a[i] != a[j]) && (forall i, j :: 0 <= i < j < |b| ==> b[i] != b[j])
      requires forall n :: n in a ==> n !in b
      requires forall i {:trigger a[i].next} :: 0 <= i < |a| ==> a[i].next == if i + 1 < |a| then a[i + 1] else b[0]
      requires forall i {:trigger b[i].next} :: 0 <= i < |b| ==> b[i].next == if i + 1 < |b| then b[i + 1] else null
      requires forall i :: 0 <= i < |spine| ==> contents[i] == spine[i].value
      ensures Valid()
    {
      Different(a, b);
    }

    /** `c_linked_list_reset_with_no_free`. */
    method ResetWithNoFree()
      modifies this
      ensures Valid() && spine == [] && contents == []
    {
      header, footer, len := null, null, 0;
      spine, contents := [], [];
    }

    /** `c_linked_list_move`: hand the whole chain to a new list. */
    method Move() returns (dest: CLinkedList<T>)
      requires Valid()
      modifies this
      ensures Valid() && spine == [] && contents == []
      ensures fresh(dest) && dest.Valid() && dest.spine == old(spine) && dest.contents == old(contents)
    {
      dest := new CLinkedList();
      dest.header, dest.footer, dest.len := header, footer, len;
      dest.spine, dest.contents := spine, contents;
      ResetWithNoFree();
    }

    /** The iterator loop of the list: visit `header`, then each `next`, until there is none. */
    method Iterate() returns (visited: seq<T>)
      requires Valid()
      ensures visited == contents
    {
      visited := [];
      var it := header;
      while it != null
        invariant |visited| <= |spine| && visited == contents[..|visited|]
        invariant it == if |visited| < |spine| then spine[|visited|] else null
        decreases |spine| - |visited|
      {
        visited := visited + [it.value];
        it := it.next;
      }
    }
  }
}
