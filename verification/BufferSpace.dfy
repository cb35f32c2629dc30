/** All buffers of a process together with the one pool they share. An object of this module's class stands for the
    static state of devent/buffer.c; its invariant is what every run of the buffer operations keeps. */
module BufferSpace {
  import opened Wire
  import opened Chunks
  import opened Buffer

  /** What one buffer is and was: `put` is everything ever written or moved in, `taken` everything ever read, sent or
      moved out, `content` what is queued now, in the chunks `queue`; `repr` are the objects it is made of. */
  datatype Entry = Entry(put: Bytes, taken: Bytes, content: Bytes, queue: seq<Chunk>, repr: set<object>)

  type Entries = map<DocketBuffer, Entry>

  /** The objects and the chunks of no buffer are also another's, or the pool's. */
  ghost predicate Separate(entries: Entries, pool: set<object>)
  {
    && (forall b :: b in entries ==> entries[b].repr !! pool)
    && (forall b, d :: b in entries && d in entries && b != d ==> entries[b].repr !! entries[d].repr)
  }

  /** The chunks queued in some buffer. */
  ghost function All(entries: Entries): set<Chunk>
  {
    set d, c | d in entries && c in entries[d].queue :: c
  }

  /** The chunks queued in all buffers but `b`. */
  ghost function Rest(entries: Entries, b: DocketBuffer): set<Chunk>
  {
    All(entries - {b})
  }

  /** No chunk is in two lists. */
  ghost predicate NotShared(idle: seq<Chunk>, entries: Entries)
  {
    && (forall b, c :: b in entries && c in entries[b].queue ==> c !in idle)
    && (forall b, d, c :: b in entries && d in entries && b != d && c in entries[b].queue ==> c !in entries[d].queue)
  }

  /** Every live chunk is in exactly one list: the pool's or one buffer's. */
  ghost predicate Conserved(live: set<Chunk>, idle: seq<Chunk>, entries: Entries)
  {
    live == Elements(idle) + All(entries) && NotShared(idle, entries)
  }

  lemma AllSplit(entries: Entries, b: DocketBuffer)
    requires b in entries
    ensures All(entries) == Elements(entries[b].queue) + Rest(entries, b)
  {
    var others := entries - {b};
    assert forall d :: d in entries ==> d == b || (d in others && others[d] == entries[d]);
    assert forall d :: d in others ==> d in entries && others[d] == entries[d];
  }

  lemma ConservedFor(live: set<Chunk>, idle: seq<Chunk>, entries: Entries, b: DocketBuffer)
    requires b in entries && Conserved(live, idle, entries)
    ensures Accounted(live, idle, entries[b].queue, Rest(entries, b))
  {
    AllSplit(entries, b);
  }

  lemma ConservedUpdate(live0: set<Chunk>, idle0: seq<Chunk>, live: set<Chunk>, idle: seq<Chunk>, entries: Entries,
                        b: DocketBuffer, e: Entry)
    requires b in entries && Conserved(live0, idle0, entries)
    requires Accounted(live, idle, e.queue, Rest(entries, b))
    ensures Conserved(live, idle, entries[b := e])
  {
    var after := entries[b := e];
    AllSplit(after, b);
    assert after - {b} == entries - {b};
    forall d, c | d in after && d != b && c in after[d].queue
      ensures c !in idle && c !in e.queue
    {
      assert d in entries - {b};
    }
  }

  lemma ConservedNew(live: set<Chunk>, idle: seq<Chunk>, entries: Entries, b: DocketBuffer, e: Entry)
    requires b !in entries && e.queue == [] && Conserved(live, idle, entries)
    ensures Conserved(live, idle, entries[b := e])
  {
    AllSplit(entries[b := e], b);
    assert entries[b := e] - {b} == entries;
  }

  lemma ConservedMove(live: set<Chunk>, idle: seq<Chunk>, entries: Entries, dest: DocketBuffer, from: DocketBuffer,
                      e: Entry, f: Entry)
    requires dest in entries && from in entries && dest != from && Conserved(live, idle, entries)
    requires e.queue == entries[dest].queue + entries[from].queue && f.queue == []
    ensures Conserved(live, idle, entries[from := f][dest := e])
  {
    var middle := entries[from := f];
    var after := middle[dest := e];
    AllSplit(entries, from);
    AllSplit(middle, from);
    assert middle - {from} == entries - {from};
    AllSplit(middle, dest);
    AllSplit(after, dest);
    assert after - {dest} == middle - {dest};
    assert Elements(e.queue) == Elements(entries[dest].queue) + Elements(entries[from].queue);
  }

  lemma ConservedFree(live: set<Chunk>, idle: seq<Chunk>, entries: Entries, b: DocketBuffer)
    requires b in entries && Conserved(live, idle, entries)
    ensures Conserved(live, idle + entries[b].queue, entries - {b})
  {
    AllSplit(entries, b);
    assert Elements(idle + entries[b].queue) == Elements(idle) + Elements(entries[b].queue);
  }

  /** `e` describes buffer `b`, and its history adds up. */
  ghost predicate Describes(b: DocketBuffer, e: Entry)
    reads b, e.repr
  {
    && b.Repr() == e.repr && b.Valid()
    && b.queue == e.queue && b.Content() == e.content
    && e.put == e.taken + e.content
  }

  /** No buffer other than those of `bs` is touched. */
  ghost predicate OnlyChanged(before: Entries, after: Entries, bs: set<DocketBuffer>)
  {
    after.Keys == before.Keys && forall d :: d in before && d !in bs ==> after[d] == before[d]
  }

  /** The buffer's objects are in the footprint and none is the pool's. */
  ghost predicate Within(b: DocketBuffer, e: Entry, footprint: set<object>, pool: set<object>)
  {
    b in e.repr && e.repr <= footprint && e.repr !! pool
  }

  lemma SeparateAfter(before: Entries, after: Entries, bs: set<DocketBuffer>, footprint: set<object>, pool: set<object>)
    requires Separate(before, {}) && pool <= footprint
    requires forall d :: d in before && d !in bs ==> before[d].repr !! footprint
    requires forall d :: d in after && d !in bs ==> d in before && after[d] == before[d]
    requires forall b :: b in bs && b in after ==> Within(b, after[b], footprint, pool)
    requires forall b, d :: b in bs && d in bs && b != d && b in after && d in after ==> after[b].repr !! after[d].repr
    ensures Separate(after, pool)
  {
    forall b, d | b in after && d in after && b != d
      ensures after[b].repr !! after[d].repr
    {
      if b !in bs && d in bs {
        assert after[d].repr <= footprint;
      } else if b in bs && d !in bs {
        assert after[b].repr <= footprint;
      }
    }
  }

  class Space {
    const pool: BufferPool
    ghost var entries: Entries
    ghost var Repr: set<object>

    ghost predicate Valid()
      reads this, Repr
    {
      && this in Repr && pool in Repr && pool.footprint <= Repr && this !in pool.footprint
      && pool.Valid() && pool.Started()
      && (forall b :: b in entries ==> b in Repr && entries[b].repr <= Repr && this !in entries[b].repr)
      && (forall b :: b in entries ==> Describes(b, entries[b]))
      && Separate(entries, pool.Repr())
      && Conserved(pool.live, pool.idle, entries)
    }

    constructor ()
      ensures Valid() && fresh(Repr) && entries == map[]
    {
      var p := new BufferPool();
      pool := p;
      entries := map[];
      Repr := {this} + p.Repr();
    }

    /** The buffers other than `bs` are in order and apart from `footprint`. */
    ghost predicate OthersApart(bs: set<DocketBuffer>, footprint: set<object>)
      reads this, Repr
    {
      forall d :: d in entries && d !in bs ==>
        d in Repr && entries[d].repr <= Repr && this !in entries[d].repr &&
        Describes(d, entries[d]) && entries[d].repr !! footprint
    }

    lemma Focus(b: DocketBuffer)
      requires Valid() && b in entries
      ensures b.Valid() && b.Repr() !! pool.Repr() && this !in b.Repr() && b.Repr() <= Repr
      ensures Accounted(pool.live, pool.idle, b.queue, Rest(entries, b))
      ensures OthersApart({b}, b.Repr() + pool.Repr()) && Separate(entries, {})
    {
      ConservedFor(pool.live, pool.idle, entries, b);
    }

    lemma FocusTwo(b: DocketBuffer, d: DocketBuffer)
      requires Valid() && b in entries && d in entries
      ensures b.Valid() && d.Valid() && (b != d ==> b.Repr() !! d.Repr())
      ensures b.Repr() + d.Repr() !! pool.Repr() && this !in b.Repr() + d.Repr() && b.Repr() + d.Repr() <= Repr
      ensures OthersApart({b, d}, b.Repr() + d.Repr() + pool.Repr()) && Separate(entries, {})
    {
    }

    /** An operation that changed nothing but the objects of `before`, which became those of `after`, left the other
        buffers alone. */
    twostate lemma Undisturbed(bs: set<DocketBuffer>, new before: set<object>, new after: set<object>)
      requires this in Repr && unchanged(this)
      requires old(allocated(before)) && old(OthersApart(bs, before))
      requires fresh(after - before)
      requires unchanged(Repr - before)
      ensures OthersApart(bs, after)
    {
      hide ChunkList, Owns, Flatten;
    }

    /** Record what became of the buffers `bs`, which are made of `footprint` together with the pool. */
    ghost method Commit(bs: set<DocketBuffer>, after: Entries, footprint: set<object>)
      requires this in Repr && pool in Repr && pool.Valid() && pool.Started()
      requires pool.Repr() <= footprint && this !in footprint && OthersApart(bs, footprint) && Separate(entries, {})
      requires forall d :: d in after && d !in bs ==> d in entries && after[d] == entries[d]
      requires forall b :: b in bs && b in after ==>
                 Describes(b, after[b]) && Within(b, after[b], footprint, pool.Repr())
      requires forall b, d :: b in bs && d in bs && b != d && b in after && d in after ==>
                 after[b].repr !! after[d].repr
      requires Conserved(pool.live, pool.idle, after)
      modifies this
      ensures Valid() && entries == after && Repr == old(Repr) + footprint
    {
      hide Conserved, Separate, DocketBuffer.Valid, BufferPool.Valid;
      SeparateAfter(entries, after, bs, footprint, pool.Repr());
      entries := after;
      Repr := Repr + footprint;
    }

    /** Record what became of the one buffer `b`. */
    ghost method CommitOne(b: DocketBuffer, e: Entry, live: set<Chunk>, idle: seq<Chunk>)
      requires this in Repr && pool in Repr && pool.Valid() && pool.Started() && b in entries
      requires this !in b.Repr() + pool.Repr() && b.Repr() !! pool.Repr() && Describes(b, e)
      requires OthersApart({b}, b.Repr() + pool.Repr()) && Separate(entries, {})
      requires Conserved(live, idle, entries) && Accounted(pool.live, pool.idle, e.queue, Rest(entries, b))
      modifies this
      ensures Valid() && Repr == old(Repr) + b.Repr() + pool.Repr()
      ensures OnlyChanged(old(entries), entries, {b}) && entries[b] == e
    {
      hide Conserved, Accounted, Rest, Separate, OthersApart, DocketBuffer.Valid, BufferPool.Valid;
      ConservedUpdate(live, idle, pool.live, pool.idle, entries, b, e);
      Commit({b}, entries[b := e], b.Repr() + pool.Repr());
    }

    /** `DocketBuffer_new`. */
    method New() returns (b: DocketBuffer)
      requires Valid()
      modifies this
      ensures Valid() && fresh(Repr - old(Repr)) && fresh(b)
      ensures entries.Keys == old(entries).Keys + {b} && entries[b].content == []
      ensures forall d :: d in old(entries) ==> entries[d] == old(entries)[d]
    {
      hide Conserved, Accounted, Rest, Flatten, DocketBuffer.Valid, BufferPool.Valid;
      b := new DocketBuffer();
      ghost var e := Entry([], [], [], [], b.Repr());
      ConservedNew(pool.live, pool.idle, entries, b, e);
      Commit({b}, entries[b := e], b.Repr() + pool.Repr());
    }

    /** `DocketBuffer_write`. */
    method Write(b: DocketBuffer, data: Bytes) returns (written: nat)
      requires Valid() && b in entries
      modifies Repr
      ensures Valid() && fresh(Repr - old(Repr)) && OnlyChanged(old(entries), entries, {b})
      ensures written == |data|
      ensures entries[b].content == old(entries[b].content) + data
      ensures entries[b].put == old(entries[b].put) + data && entries[b].taken == old(entries[b].taken)
    {
      hide OnlyChanged, Separate, Conserved, Accounted, Rest, Flatten, OthersApart;
      hide DocketBuffer.Valid, BufferPool.Valid;
      ghost var live, idle, before := pool.live, pool.idle, b.Repr() + pool.Repr();
      Focus(b);
      written := b.Write(pool, data, Rest(entries, b));
      ghost var e := entries[b];
      e := e.(put := e.put + data, content := e.content + data, queue := b.queue, repr := b.Repr());
      ghost var bs, after := {b}, b.Repr() + pool.Repr();
      Undisturbed(bs, before, after);
      CommitOne(b, e, live, idle);
    }

    /** `DocketBuffer_read`. */
    method Read(b: DocketBuffer, n: nat) returns (r: int, bytes: Bytes)
      requires Valid() && b in entries
      modifies Repr
      ensures Valid() && fresh(Repr - old(Repr)) && OnlyChanged(old(entries), entries, {b})
      ensures r == if n == 0 then -1 else |bytes|
      ensures |bytes| == if n < |old(entries[b].content)| then n else |old(entries[b].content)|
      ensures old(entries[b].content) == bytes + entries[b].content
      ensures entries[b].put == old(entries[b].put) && entries[b].taken == old(entries[b].taken) + bytes
    {
      hide OnlyChanged, Separate, Conserved, Accounted, Rest, Flatten, OthersApart;
      hide DocketBuffer.Valid, BufferPool.Valid;
      ghost var live, idle, before := pool.live, pool.idle, b.Repr() + pool.Repr();
      Focus(b);
      r, bytes := b.Read(pool, n, Rest(entries, b));
      ghost var e := entries[b];
      assert e.put == (e.taken + bytes) + b.Content();
      e := e.(taken := e.taken + bytes, content := b.Content(), queue := b.queue, repr := b.Repr());
      ghost var bs, after := {b}, b.Repr() + pool.Repr();
      Undisturbed(bs, before, after);
      CommitOne(b, e, live, idle);
    }

    /** `DocketBuffer_read_full`. */
    method ReadFull(b: DocketBuffer, n: nat) returns (r: int, bytes: Bytes)
      requires Valid() && b in entries
      modifies Repr
      ensures Valid() && fresh(Repr - old(Repr)) && OnlyChanged(old(entries), entries, {b})
      ensures r == if n == 0 || n > |old(entries[b].content)| then -1 else n
      ensures old(entries[b].content) == bytes + entries[b].content && |bytes| == if r == -1 then 0 else n
      ensures entries[b].put == old(entries[b].put) && entries[b].taken == old(entries[b].taken) + bytes
    {
      hide OnlyChanged, Separate, Conserved, Accounted, Rest, Flatten, OthersApart;
      hide DocketBuffer.Valid, BufferPool.Valid;
      ghost var live, idle, before := pool.live, pool.idle, b.Repr() + pool.Repr();
      Focus(b);
      r, bytes := b.ReadFull(pool, n, Rest(entries, b));
      ghost var e := entries[b];
      assert e.put == (e.taken + bytes) + b.Content();
      e := e.(taken := e.taken + bytes, content := b.Content(), queue := b.queue, repr := b.Repr());
      ghost var bs, after := {b}, b.Repr() + pool.Repr();
      Undisturbed(bs, before, after);
      CommitOne(b, e, live, idle);
    }

    /** `DocketBuffer_peek`. */
    method Peek(b: DocketBuffer, n: nat) returns (r: int, bytes: Bytes)
      requires Valid() && b in entries
      ensures r == if n == 0 then -1 else |bytes|
      ensures bytes <= entries[b].content
      ensures |bytes| == if n < |entries[b].content| then n else |entries[b].content|
    {
      Focus(b);
      r, bytes := b.Peek(n);
    }

    /** `DocketBuffer_peek_full`. */
    method PeekFull(b: DocketBuffer, n: nat) returns (r: int, bytes: Bytes)
      requires Valid() && b in entries
      ensures r == if n == 0 || n > |entries[b].content| then -1 else n
      ensures bytes <= entries[b].content && |bytes| == if r == -1 then 0 else n
    {
      Focus(b);
      r, bytes := b.PeekFull(n);
    }

    /** Where the chunks end cannot be seen: looking at `n + m` bytes, or reading `n` and then `m`, or reading `n + m`
        at once, gives the same bytes and leaves the same. */
    method ReadInTwo(b: DocketBuffer, n: nat, m: nat) returns (seen: Bytes, first: Bytes, second: Bytes)
      requires Valid() && b in entries && 0 < n && 0 < m
      modifies Repr
      ensures Valid() && fresh(Repr - old(Repr)) && OnlyChanged(old(entries), entries, {b})
      ensures first + second == seen && old(entries[b].content) == seen + entries[b].content
      ensures |seen| == if n + m < |old(entries[b].content)| then n + m else |old(entries[b].content)|
    {
      hide Valid;
      ghost var all := entries[b].content;
      var r;
      r, seen := Peek(b, n + m);
      r, first := Read(b, n);
      r, second := Read(b, m);
      assert all == (first + second) + entries[b].content;
      assert all[..|seen|] == seen && all[..|first + second|] == first + second;
    }

    /** `DocketBuffer_length`. */
    method Length(b: DocketBuffer) returns (n: nat)
      requires Valid() && b in entries
      ensures n == |entries[b].content|
    {
      Focus(b);
      n := b.length;
    }

    /** The bytes that the next send offers to the socket: those of the head chunk. */
    ghost function Head(b: DocketBuffer): Bytes
      requires Valid() && b in entries
      reads this, Repr
    {
      if b.parts == [] then [] else b.parts[0]
    }

    /** How many bytes the next send offers. */
    method Offered(b: DocketBuffer) returns (n: nat)
      requires Valid() && b in entries && entries[b].content != []
      ensures n == |Head(b)| && 0 < n <= CHUNK_SIZE
    {
      Focus(b);
      n := b.HeadLength();
    }

    /** `DocketBuffer_send`, where the socket takes `taken` bytes of the head chunk (none: an error). */
    method Send(b: DocketBuffer, taken: nat) returns (r: int, wire: Bytes)
      requires Valid() && b in entries && entries[b].content != [] && taken <= |Head(b)|
      modifies Repr
      ensures Valid() && fresh(Repr - old(Repr)) && OnlyChanged(old(entries), entries, {b})
      ensures taken == 0 ==> r == -1 && wire == [] && entries[b].content == old(entries[b].content)
      ensures taken > 0 ==> r == taken && wire == old(Head(b))[..taken]
                            && old(entries[b].content) == old(Head(b)) + entries[b].content
    {
      hide OnlyChanged, Separate, Conserved, Accounted, Rest, Flatten, OthersApart;
      hide DocketBuffer.Valid, BufferPool.Valid;
      ghost var live, idle, before := pool.live, pool.idle, b.Repr() + pool.Repr();
      Focus(b);
      FlattenSteps(b.parts);
      ghost var head := if taken == 0 then [] else b.parts[0];
      r, wire := b.Send(pool, taken, Rest(entries, b));
      ghost var e := entries[b];
      assert e.put == (e.taken + head) + b.Content();
      e := e.(taken := e.taken + head, content := b.Content(), queue := b.queue, repr := b.Repr());
      ghost var bs, after := {b}, b.Repr() + pool.Repr();
      Undisturbed(bs, before, after);
      CommitOne(b, e, live, idle);
    }

    /** Record what a move between two buffers did. */
    ghost method CommitMove(dest: DocketBuffer, from: DocketBuffer, e: Entry, f: Entry, footprint: set<object>)
      requires this in Repr && pool in Repr && pool.Valid() && pool.Started() && dest in entries && from in entries
      requires footprint == e.repr + f.repr + pool.Repr() && this !in footprint
      requires OthersApart({dest, from}, footprint) && Separate(entries, {})
      requires dest != from && e.repr !! f.repr && e.repr + f.repr !! pool.Repr()
      requires Describes(dest, e) && Describes(from, f)
      requires Conserved(pool.live, pool.idle, entries)
      requires e.queue == entries[dest].queue + entries[from].queue && f.queue == []
      modifies this
      ensures Valid() && entries == old(entries)[from := f][dest := e] && Repr == old(Repr) + footprint
    {
      hide Conserved, OthersApart, Separate, DocketBuffer.Valid, BufferPool.Valid;
      ConservedMove(pool.live, pool.idle, entries, dest, from, e, f);
      Commit({dest, from}, entries[from := f][dest := e], footprint);
    }

    /** `DocketBuffer_moveto`; moving a buffer to itself changes nothing. */
    method MoveTo(dest: DocketBuffer, from: DocketBuffer) returns (size: nat)
      requires Valid() && dest in entries && from in entries
      modifies Repr
      ensures Valid() && fresh(Repr - old(Repr)) && OnlyChanged(old(entries), entries, {dest, from})
      ensures size == |old(entries[from].content)|
      ensures dest == from ==> entries[dest].content == old(entries[dest].content)
      ensures dest != from ==>
                && entries[from].content == []
                && entries[from].taken == old(entries[from].taken) + old(entries[from].content)
                && entries[dest].content == old(entries[dest].content) + old(entries[from].content)
                && entries[dest].put == old(entries[dest].put) + old(entries[from].content)
    {
      if dest == from {
        size := MoveToItself(dest);
      } else {
        size := MoveAcross(dest, from);
      }
    }

    method MoveToItself(b: DocketBuffer) returns (size: nat)
      requires Valid() && b in entries
      modifies Repr
      ensures Valid() && fresh(Repr - old(Repr)) && OnlyChanged(old(entries), entries, {b})
      ensures size == |entries[b].content| && entries[b].content == old(entries[b].content)
    {
      hide OnlyChanged, Separate, Conserved, Accounted, Rest, Flatten, OthersApart;
      hide DocketBuffer.Valid, BufferPool.Valid;
      Focus(b);
      ghost var bs, before := {b}, b.Repr() + pool.Repr();
      size := DocketBuffer.MoveTo(b, b);
      ghost var e, after := entries[b].(repr := b.Repr()), b.Repr() + pool.Repr();
      Undisturbed(bs, before, after);
      ConservedFor(pool.live, pool.idle, entries, b);
      CommitOne(b, e, pool.live, pool.idle);
    }

    method MoveAcross(dest: DocketBuffer, from: DocketBuffer) returns (size: nat)
      requires Valid() && dest in entries && from in entries && dest != from
      modifies Repr
      ensures Valid() && fresh(Repr - old(Repr)) && OnlyChanged(old(entries), entries, {dest, from})
      ensures size == |old(entries[from].content)|
      ensures entries[from].content == []
      ensures entries[from].taken == old(entries[from].taken) + old(entries[from].content)
      ensures entries[dest].content == old(entries[dest].content) + old(entries[from].content)
      ensures entries[dest].put == old(entries[dest].put) + old(entries[from].content)
    {
      hide Separate, Conserved, Accounted, Rest, OthersApart, DocketBuffer.Valid, BufferPool.Valid, Flatten;
      FocusTwo(dest, from);
      ghost var bs, before := {dest, from}, dest.Repr() + from.Repr() + pool.Repr();
      size := DocketBuffer.MoveTo(dest, from);
      ghost var after := dest.Repr() + from.Repr() + pool.Repr();
      Undisturbed(bs, before, after);
      ghost var moved, e, f := entries[from].content, entries[dest], entries[from];
      e := e.(put := e.put + moved, content := e.content + moved, queue := dest.queue, repr := dest.Repr());
      f := f.(taken := f.taken + moved, content := [], queue := [], repr := from.Repr());
      assert f.put == f.taken + f.content && e.put == e.taken + e.content;
      CommitMove(dest, from, e, f, after);
    }

    /** `DocketBuffer_free`. */
    method Free(b: DocketBuffer)
      requires Valid() && b in entries
      modifies Repr
      ensures Valid() && fresh(Repr - old(Repr)) && entries == old(entries) - {b}
    {
      hide Separate, Conserved, Accounted, Rest, OthersApart, DocketBuffer.Valid, BufferPool.Valid;
      ghost var live, idle, before := pool.live, pool.idle, b.Repr() + pool.Repr();
      Focus(b);
      b.Free(pool, Rest(entries, b));
      ConservedFree(live, idle, entries, b);
      ghost var bs, after := {b}, pool.Repr();
      Undisturbed(bs, before, after);
      Commit(bs, entries - {b}, after);
    }
  }
}
