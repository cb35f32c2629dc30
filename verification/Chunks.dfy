/** The fixed-size chunks of devent/buffer.c and the pool they are recycled through. */
module Chunks {
  import opened Wire
  import opened LinkedList

  const CHUNK_SIZE := 4096
  const MAX_POOL_SIZE := 1024

  /** Concatenation of the parts. */
  function Flatten(parts: seq<Bytes>): (all: Bytes)
  {
    if parts == [] then [] else parts[0] + Flatten(parts[1..])
  }

  lemma ConcatTail<X>(a: seq<X>, b: seq<X>)
    requires a != []
    ensures (a + b)[0] == a[0] && (a + b)[1..] == a[1..] + b
  {
  }

  lemma Associative(x: Bytes, y: Bytes, z: Bytes)
    ensures x + (y + z) == (x + y) + z
  {
  }

  lemma FlattenSteps(a: seq<Bytes>)
    ensures Flatten(a) == if a == [] then [] else a[0] + Flatten(a[1..])
  {
  }

  lemma {:induction false} FlattenAppend(a: seq<Bytes>, b: seq<Bytes>)
    ensures Flatten(a + b) == Flatten(a) + Flatten(b)
  {
    hide Flatten;
    FlattenSteps(a);
    if a == [] {
      assert a + b == b;
    } else {
      FlattenAppend(a[1..], b);
      ConcatTail(a, b);
      FlattenSteps(a + b);
      Associative(a[0], Flatten(a[1..]), Flatten(b));
    }
  }

  /** `Buffer` of the source: `len` bytes of `data` in use, starting at `pos`. */
  class Chunk {
    var pos: nat
    var len: nat
    const data: array<byte>

    ghost predicate Valid()
      reads this
    {
      data.Length == CHUNK_SIZE && pos + len <= CHUNK_SIZE
    }

    ghost function Content(): Bytes
      requires Valid()
      reads this, data
    {
      data[pos..pos + len]
    }

    constructor ()
      ensures Valid() && len == 0 && pos == 0 && fresh(data)
    {
      data := new byte[CHUNK_SIZE];
      pos, len := 0, 0;
    }

    method Reset()
      requires Valid()
      modifies this
      ensures Valid() && len == 0 && pos == 0
    {
      len := 0;
      pos := 0;
    }

    /** The copy into the free end of the chunk: as much of `src` as fits. */
    method Fill(src: Bytes) returns (copied: nat)
      requires Valid()
      modifies this, data
      ensures Valid() && pos == old(pos)
      ensures copied == if |src| > CHUNK_SIZE - pos - old(len) then CHUNK_SIZE - pos - old(len) else |src|
      ensures Content() == old(Content()) + src[..copied]
    {
      ghost var before := Content();
      var left := CHUNK_SIZE - pos - len;
      copied := if |src| > left then left else |src|;
      forall i | 0 <= i < copied {
        data[pos + len + i] := src[i];
      }
      len := len + copied;
      assert |before| == old(len);
      assert forall i :: 0 <= i < |before| ==> data[pos + i] == before[i];
      assert data[pos..pos + len] == before + src[..copied];
    }

    /** The bytes in use. */
    method Copy() returns (bytes: Bytes)
      requires Valid()
      ensures bytes == Content() && |bytes| == len
    {
      bytes := data[pos..pos + len];
    }

    /** Consume `n` bytes from the front of the chunk. */
    method Take(n: nat) returns (bytes: Bytes)
      requires Valid() && n <= len
      modifies this
      ensures Valid() && bytes == old(Content())[..n] && Content() == old(Content())[n..]
    {
      ghost var before := Content();
      bytes := data[pos..pos + n];
      assert bytes == before[..n];
      pos := pos + n;
      len := len - n;
      assert data[pos..pos + len] == before[n..];
    }
  }

  /** Every object a list of chunks owns lies in `footprint`; chunks do not share storage, are filled with `parts`
      and none of them is empty. */
  ghost predicate ChunkList(list: CLinkedList<Chunk>, parts: seq<Bytes>, footprint: set<object>)
    reads list, footprint
  {
    Owns(list, footprint) && Filled(list.contents, parts)
  }

  ghost predicate Filled(cs: seq<Chunk>, parts: seq<Bytes>)
    reads set c | c in cs, set c | c in cs :: c.data
  {
    && |parts| == |cs|
    && forall i :: 0 <= i < |parts| ==> cs[i].Valid() && cs[i].Content() == parts[i] && 0 < |parts[i]|
  }

  lemma FilledAppend(cs: seq<Chunk>, p: seq<Bytes>, ds: seq<Chunk>, q: seq<Bytes>)
    requires Filled(cs, p) && Filled(ds, q)
    ensures Filled(cs + ds, p + q)
  {
  }

  lemma FilledTail(cs: seq<Chunk>, p: seq<Bytes>)
    requires Filled(cs, p) && p != []
    ensures cs != [] && Filled(cs[1..], p[1..]) && cs[0].Valid() && cs[0].Content() == p[0] && p[0] != []
  {
  }

  /** The ownership half of `ChunkList`: it also holds for the pool, whose chunks have no contents. */
  ghost predicate Owns(list: CLinkedList<Chunk>, footprint: set<object>)
    reads list, footprint
  {
    && list in footprint
    && (forall n :: n in list.spine ==> n in footprint)
    && list.Valid()
    && (forall i :: 0 <= i < |list.contents| ==>
          list.contents[i] in footprint && list.contents[i].data in footprint && list.contents[i].Valid())
    && (forall i, j :: 0 <= i < j < |list.contents| ==> list.contents[i].data != list.contents[j].data)
  }

  /** Take the head chunk off a list that owns `footprint`, and its objects out of the footprint. */
  method PopChunk(list: CLinkedList<Chunk>, ghost footprint: set<object>) returns (c: Chunk, ghost rest: set<object>)
    requires Owns(list, footprint) && list.contents != []
    modifies list
    ensures old(list.contents) == [c] + list.contents && c !in list.contents && c.Valid()
    ensures rest == footprint - {c, c.data} && Owns(list, rest)
  {
    var head := list.RemoveHeader();
    c := head.value;
    rest := footprint - {c, c.data};
  }

  /** Append a chunk that the list does not own yet. */
  method PushChunk(list: CLinkedList<Chunk>, c: Chunk, ghost footprint: set<object>) returns (ghost more: set<object>)
    requires Owns(list, footprint) && c !in footprint && c.data !in footprint && c.Valid()
    modifies list, list.spine
    ensures list.contents == old(list.contents) + [c]
    ensures footprint + {c, c.data} <= more && fresh(more - footprint - {c, c.data}) && Owns(list, more)
  {
    list.Add(c);
    more := footprint + {c, c.data, list.spine[|list.spine| - 1]};
  }

  /** Append a chunk that already holds its bytes. */
  method PushFilled(list: CLinkedList<Chunk>, c: Chunk, ghost parts: seq<Bytes>, ghost footprint: set<object>)
    returns (ghost more: set<object>)
    requires ChunkList(list, parts, footprint) && c !in footprint && c.data !in footprint && c.Valid() && 0 < c.len
    modifies footprint
    ensures list.contents == old(list.contents) + [c]
    ensures footprint + {c, c.data} <= more && fresh(more - footprint - {c, c.data})
    ensures ChunkList(list, parts + [old(c.Content())], more)
  {
    FilledOne(c);
    FilledAppend(list.contents, parts, [c], [c.Content()]);
    hide Filled;
    more := PushChunk(list, c, footprint);
  }

  lemma FilledOne(c: Chunk)
    requires c.Valid() && 0 < c.len
    ensures Filled([c], [c.Content()])
  {
  }

  lemma OwnsLength(list: CLinkedList<Chunk>, footprint: set<object>)
    requires Owns(list, footprint)
    ensures list.len == |list.contents|
  {
  }

  /** Append a chunk to those of the pool. */
  method PushIdle(list: CLinkedList<Chunk>, c: Chunk, ghost footprint: set<object>) returns (ghost more: set<object>)
    requires list in footprint && Owns(list, footprint) && c !in footprint && c.data !in footprint && c.Valid()
    modifies footprint
    ensures list.contents == old(list.contents) + [c] && list in more
    ensures footprint + {c, c.data} <= more && fresh(more - footprint - {c, c.data}) && Owns(list, more)
  {
    more := PushChunk(list, c, footprint);
  }

  /** Take a filled head chunk off. */
  method PopFilled(list: CLinkedList<Chunk>, ghost p: seq<Bytes>, ghost f: set<object>)
    returns (c: Chunk, ghost rest: set<object>)
    requires list in f && ChunkList(list, p, f) && p != []
    modifies list
    ensures old(list.contents) == [c] + list.contents && c !in list.contents
    ensures c.Valid() && c.Content() == p[0] && c !in rest && c.data !in rest
    ensures rest <= f && c in f && c.data in f && list in rest && ChunkList(list, p[1..], rest)
  {
    FilledTail(list.contents, p);
    hide Filled;
    c, rest := PopChunk(list, f);
  }

  method HeadLength(list: CLinkedList<Chunk>, ghost p: seq<Bytes>, ghost f: set<object>) returns (len: Option<nat>)
    requires list in f && ChunkList(list, p, f)
    ensures len == (if p == [] then None else Some(|p[0]|)) && (len.Some? ==> len.value <= CHUNK_SIZE)
  {
    var head := list.GetHeader();
    len := if head == None then None else Some(head.value.len);
  }

  lemma FlattenOne(x: Bytes)
    ensures Flatten([x]) == x && Flatten([]) == []
  {
    assert Flatten([x]) == x + Flatten([]);
  }

  lemma SplitAround<X>(p: seq<X>, k: nat)
    requires k < |p|
    ensures p[..k] + [p[k]] == p[..k + 1] && p[..k + 1] + p[k + 1..] == p
  {
  }

  lemma FlattenAround(a: seq<Bytes>, x: Bytes, b: seq<Bytes>)
    ensures Flatten(a + [x]) == Flatten(a) + x && Flatten(a + [x]) <= Flatten(a + [x] + b)
  {
    hide Flatten;
    FlattenOne(x);
    FlattenAppend(a, [x]);
    FlattenAppend(a + [x], b);
  }

  lemma FlattenUpTo(p: seq<Bytes>, k: nat)
    requires k < |p|
    ensures Flatten(p[..k + 1]) == Flatten(p[..k]) + p[k] && Flatten(p[..k + 1]) <= Flatten(p)
  {
    hide Flatten;
    SplitAround(p, k);
    FlattenAround(p[..k], p[k], p[k + 1..]);
  }

  /** The peek loop: copy from chunk after chunk, through the list's iterator, until `n` bytes are there. */
  method PeekChunks(list: CLinkedList<Chunk>, n: nat, ghost p: seq<Bytes>, ghost f: set<object>) returns (bytes: Bytes)
    requires Owns(list, f) && |p| == |list.contents|
    requires forall i :: 0 <= i < |p| ==> list.contents[i].Content() == p[i]
    ensures bytes <= Flatten(p) && |bytes| == if n < |Flatten(p)| then n else |Flatten(p)|
  {
    hide Flatten;
    FlattenOne([]);
    bytes := [];
    var left := n;
    var it := list.header;
    ghost var k := 0;
    while it != null
      invariant 0 <= k <= |p| && it == if k < |p| then list.spine[k] else null
      invariant bytes == Flatten(p[..k]) <= Flatten(p) && |bytes| + left == n && 0 <= left
      decreases |p| - k
    {
      var mb := it.value;
      assert mb == list.contents[k];
      FlattenUpTo(p, k);
      var copy := mb.Copy();
      if mb.len > 0 && mb.len >= left {
        bytes := bytes + copy[..left];
        return;
      }
      bytes := bytes + copy;
      left := left - mb.len;
      it := it.next;
      k := k + 1;
    }
    assert p[..k] == p;
  }

  /** Consume the first bytes of the head chunk, which keeps at least one. */
  method TakeFront(list: CLinkedList<Chunk>, n: nat, ghost p: seq<Bytes>, ghost f: set<object>) returns (bytes: Bytes)
    requires list in f && ChunkList(list, p, f) && p != [] && n < |p[0]|
    modifies f
    ensures list.contents == old(list.contents) && bytes == p[0][..n] && ChunkList(list, [p[0][n..]] + p[1..], f)
  {
    var head := list.GetHeader();
    bytes := head.value.Take(n);
  }

  /** Splice all of `src` behind `dest`; the two must not share any object. */
  method SpliceOwned(dest: CLinkedList<Chunk>, ghost f: set<object>, src: CLinkedList<Chunk>, ghost g: set<object>)
    requires Owns(dest, f) && Owns(src, g) && f !! g
    modifies dest, src, dest.spine
    ensures dest.contents == old(dest.contents) + old(src.contents)
    ensures Owns(dest, f + g)
  {
    ghost var n := |dest.contents|;
    var _ := CLinkedList.Merge(dest, src);
    assert forall i :: n <= i < |dest.contents| ==> dest.contents[i] == old(src.contents)[i - n];
  }

  /** The same for filled chunks: the parts of `src` follow those of `dest`. */
  method SpliceChunks(dest: CLinkedList<Chunk>, ghost p: seq<Bytes>, ghost f: set<object>,
                      src: CLinkedList<Chunk>, ghost q: seq<Bytes>, ghost g: set<object>)
    requires ChunkList(dest, p, f) && ChunkList(src, q, g) && f !! g
    modifies f, src
    ensures dest.contents == old(dest.contents) + old(src.contents)
    ensures ChunkList(dest, p + q, f + g)
  {
    FilledAppend(dest.contents, p, src.contents, q);
    hide Filled;
    SpliceOwned(dest, f, src, g);
  }

  /** Splice filled chunks behind idle ones, if there is a list to put them on. */
  method SpliceIdle(dest: CLinkedList?<Chunk>, ghost f: set<object>, src: CLinkedList<Chunk>, ghost q: seq<Bytes>,
                    ghost g: set<object>)
    requires src in g && ChunkList(src, q, g) && f !! g
    requires dest != null ==> dest in f && Owns(dest, f)
    modifies f, src
    ensures dest != null ==> dest.contents == old(dest.contents) + old(src.contents) && Owns(dest, f + g)
  {
    if dest == null {
      var _ := CLinkedList.Merge(dest, src);
    } else {
      SpliceOwned(dest, f, src, g);
    }
  }

  /** Hand all chunks over to a new list. */
  method MoveChunks(list: CLinkedList<Chunk>, ghost p: seq<Bytes>, ghost f: set<object>)
    returns (data: CLinkedList<Chunk>, ghost g: set<object>)
    requires list in f && ChunkList(list, p, f)
    modifies list
    ensures list.contents == [] && ChunkList(list, [], {list})
    ensures fresh(data) && data.contents == old(list.contents) && ChunkList(data, p, g) && g == f - {list} + {data}
  {
    data := list.Move();
    g := f - {list} + {data};
  }

  method NewChunks() returns (list: CLinkedList<Chunk>)
    ensures fresh(list) && list.contents == [] && ChunkList(list, [], {list})
  {
    list := new CLinkedList();
  }

  /** Each live chunk is in exactly one place: `idle` in the pool, `queued` in the list at hand, or in `others`, the
      chunks of everybody else. */
  ghost predicate Accounted(live: set<Chunk>, idle: seq<Chunk>, queued: seq<Chunk>, others: set<Chunk>)
  {
    && live == Elements(idle) + Elements(queued) + others
    && (forall c :: c in idle ==> c !in queued && c !in others)
    && (forall c :: c in queued ==> c !in others)
  }

  ghost function Elements(s: seq<Chunk>): set<Chunk>
  {
    set c | c in s
  }

  /** While a second list is built, the chunks of the first count among the others. */
  lemma AccountedAside(live: set<Chunk>, idle: seq<Chunk>, q: seq<Chunk>, others: set<Chunk>)
    requires Accounted(live, idle, q, others)
    ensures Accounted(live, idle, [], others + Elements(q))
  {
    assert forall c :: c in q <==> c in Elements(q);
  }

  lemma AccountedJoin(live0: set<Chunk>, idle0: seq<Chunk>, live: set<Chunk>, idle: seq<Chunk>, q: seq<Chunk>,
                      m: seq<Chunk>, others: set<Chunk>)
    requires Accounted(live0, idle0, q, others) && Accounted(live, idle, m, others + Elements(q))
    ensures Accounted(live, idle, q + m, others)
  {
    assert forall c :: c in q <==> c in Elements(q);
    assert Elements(q + m) == Elements(q) + Elements(m);
  }

  /** What taking chunk `c` from the pool does: the oldest idle chunk, or a new one when there is none. */
  ghost predicate HandedOut(live: set<Chunk>, idle: seq<Chunk>, live': set<Chunk>, idle': seq<Chunk>, c: Chunk)
  {
    && c !in idle'
    && if idle == [] then idle' == [] && c !in live && live' == live + {c} else idle == [c] + idle' && live' == live
  }

  /** What giving chunk `c` back does: it is the last to be reused, or freed when the pool is full. */
  ghost predicate TakenBack(live: set<Chunk>, idle: seq<Chunk>, live': set<Chunk>, idle': seq<Chunk>, c: Chunk)
  {
    if |idle| <= MAX_POOL_SIZE then idle' == idle + [c] && live' == live else idle' == idle && live' == live - {c}
  }

  lemma HandedOutAccounted(live: set<Chunk>, idle: seq<Chunk>, live': set<Chunk>, idle': seq<Chunk>, c: Chunk,
                           queued: seq<Chunk>, others: set<Chunk>)
    requires Accounted(live, idle, queued, others) && HandedOut(live, idle, live', idle', c)
    ensures Accounted(live', idle', queued + [c], others)
  {
    forall x ensures x in idle <==> x in idle' || (idle != [] && x == c) {
      if idle != [] {
        assert idle == [c] + idle';
      }
    }
  }

  lemma TakenBackAccounted(live: set<Chunk>, idle: seq<Chunk>, live': set<Chunk>, idle': seq<Chunk>, c: Chunk,
                           queued: seq<Chunk>, others: set<Chunk>)
    requires Accounted(live, idle, [c] + queued, others) && TakenBack(live, idle, live', idle', c) && c !in queued
    ensures Accounted(live', idle', queued, others)
  {
    assert forall x :: x in [c] + queued <==> x == c || x in queued;
  }

  /** The static `buffer_pool`. `live` is the set of chunks that were allocated and not freed since; `idle` are the
      chunks waiting in the pool, the next one to be handed out first. */
  class BufferPool {
    var list: CLinkedList?<Chunk>
    ghost var idle: seq<Chunk>
    ghost var live: set<Chunk>
    ghost var footprint: set<object>

    ghost function Repr(): set<object>
      reads this
    {
      {this} + footprint
    }

    ghost predicate Valid()
      reads this, footprint
    {
      && this !in footprint
      && (list == null ==> idle == [])
      && (list != null ==> list in footprint && Owns(list, footprint) && idle == list.contents)
    }

    constructor ()
      ensures Valid() && fresh(Repr()) && live == {} && list == null
    {
      list := null;
      idle := [];
      live := {};
      footprint := {};
    }

    /** Nothing is allocated before the pool list exists. */
    ghost predicate Started()
      reads this
    {
      list == null ==> live == {}
    }

    /** The first line of both pool functions: make the list when it is needed for the first time. */
    method EnsureList()
      requires Valid()
      modifies this
      ensures Valid() && list != null && fresh(footprint - old(footprint)) && old(footprint) <= footprint
      ensures idle == old(idle) && live == old(live)
    {
      if list == null {
        list := new CLinkedList();
        footprint := footprint + {list};
      }
    }

    /** `get_buffer_from_pool`. */
    method Get() returns (c: Chunk)
      requires Valid()
      modifies Repr()
      ensures Valid() && list != null
      ensures fresh(Repr() - old(Repr())) && c !in footprint && c.data !in footprint
      ensures c.Valid() && c.pos == 0 && c.len == 0 && fresh({c, c.data} - old(footprint))
      ensures HandedOut(old(live), old(idle), live, idle, c)
      ensures if old(idle) == [] then c !in old(live) && c in live else c == old(idle)[0] && idle == old(idle)[1..]
    {
      EnsureList();
      c := PopOrAllocate();
    }

    method PopOrAllocate() returns (c: Chunk)
      requires Valid() && list != null
      modifies this, list, set c | c in idle
      ensures Valid() && list == old(list) && footprint <= old(footprint)
      ensures c !in footprint && c.data !in footprint
      ensures c.Valid() && c.pos == 0 && c.len == 0 && fresh({c, c.data} - old(footprint))
      ensures HandedOut(old(live), old(idle), live, idle, c)
    {
      if list.len == 0 {
        c := new Chunk();
        live := live + {c};
      } else {
        c, footprint := PopChunk(list, footprint);
        idle := list.contents;
        c.Reset();
      }
    }

    /** The merge in `DocketBuffer_free`: a list's chunks go behind the idle ones, unless there is no pool list. */
    method Absorb(src: CLinkedList<Chunk>, ghost p: seq<Bytes>, ghost f: set<object>)
      requires Valid() && src in f && ChunkList(src, p, f) && f !! Repr()
      modifies Repr(), src
      ensures Valid() && live == old(live) && (list == null <==> old(list) == null)
      ensures Repr() <= old(Repr()) + f
      ensures idle == if list == null then [] else old(idle) + old(src.contents)
    {
      hide ChunkList, Owns;
      SpliceIdle(list, footprint, src, p, f);
      if list != null {
        footprint, idle := footprint + f, list.contents;
      }
    }

    /** `buffer_release`: keep the chunk for later, or free it when the pool is full. */
    method Release(c: Chunk)
      requires Valid() && c !in footprint && c.data !in footprint && c.Valid()
      modifies Repr()
      ensures Valid() && list != null && fresh(Repr() - old(Repr()) - {c, c.data})
      ensures TakenBack(old(live), old(idle), live, idle, c)
      ensures if |old(idle)| <= 1024 then idle == old(idle) + [c] && live == old(live)
              else idle == old(idle) && c !in live
    {
      hide Owns;
      EnsureList();
      OwnsLength(list, footprint);
      if list.len <= MAX_POOL_SIZE {
        footprint := PushIdle(list, c, footprint);
        idle := list.contents;
      } else {
        live := live - {c};
      }
    }
  }
}
