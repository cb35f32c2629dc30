/** `DocketBuffer` of devent/buffer.c: a queue of bytes kept as a list of chunks. The static pool of the source is
    passed to the operations that use it, and the caller's memory is a sequence of bytes. */
module Buffer {
  import opened Wire
  import opened LinkedList
  import opened Chunks

  class DocketBuffer {
    var length: nat
    var list: CLinkedList?<Chunk>
    ghost var parts: seq<Bytes>  // the bytes in each chunk
    ghost var queue: seq<Chunk>  // the chunks, oldest first
    ghost var footprint: set<object>

    ghost function Repr(): set<object>
      reads this
    {
      {this} + footprint
    }

    ghost predicate Valid()
      reads this, footprint
    {
      && this !in footprint
      && list != null && list in footprint
      && ChunkList(list, parts, footprint)
      && queue == list.contents
      && length == |Flatten(parts)|
    }

    /** The queued bytes, oldest first. */
    ghost function Content(): Bytes
      reads this
    {
      Flatten(parts)
    }

    constructor ()
      ensures Valid() && Content() == [] && queue == [] && fresh(Repr())
    {
      length := 0;
      var l := new CLinkedList<Chunk>();
      list := l;
      parts, queue := [], [];
      footprint := {l};
    }

    /** A chunk from the pool, holding what fits of `src`. */
    static method GetFilled(pool: BufferPool, src: Bytes) returns (copied: nat, mb: Chunk)
      requires pool.Valid() && src != []
      modifies pool.Repr()
      ensures pool.Valid() && fresh(pool.Repr() - old(pool.Repr()))
      ensures mb !in pool.Repr() && mb.data !in pool.Repr() && fresh({mb, mb.data} - old(pool.footprint))
      ensures mb.Valid() && mb.len == copied == if |src| > CHUNK_SIZE then CHUNK_SIZE else |src|
      ensures mb.Content() == src[..copied] && pool.list != null
      ensures HandedOut(old(pool.live), old(pool.idle), pool.live, pool.idle, mb)
    {
      mb := pool.Get();
      copied := mb.Fill(src);
    }

    /** One round of the write loop: a chunk from the pool goes behind `list` and takes what fits of `src`. */
    static method AppendChunk(pool: BufferPool, list: CLinkedList<Chunk>, src: Bytes, ghost parts: seq<Bytes>,
                              ghost footprint: set<object>)
      returns (copied: nat, mb: Chunk, ghost more: set<object>)
      requires pool.Valid() && footprint !! pool.Repr() && src != []
      requires list in footprint && ChunkList(list, parts, footprint)
      modifies pool.Repr(), footprint
      ensures pool.Valid() && copied == if |src| > CHUNK_SIZE then CHUNK_SIZE else |src|
      ensures footprint <= more && ChunkList(list, parts + [src[..copied]], more) && more !! pool.Repr()
      ensures fresh(more + pool.Repr() - footprint - old(pool.Repr()))
      ensures list.contents == old(list.contents) + [mb] && pool.list != null
      ensures HandedOut(old(pool.live), old(pool.idle), pool.live, pool.idle, mb)
    {
      hide ChunkList, Owns;
      copied, mb := GetFilled(pool, src);
      assert mb !in footprint && mb.data !in footprint;
      ghost var live, idle := pool.live, pool.idle;
      more := PushFilled(list, mb, parts, footprint);
      assert pool.live == live && pool.idle == idle;
    }

    /** The splice at the end of a write or a move: all of `more` goes behind this buffer's chunks. */
    method Attach(more: CLinkedList<Chunk>, size: nat, ghost ps: seq<Bytes>, ghost fp: set<object>)
      requires Valid() && ChunkList(more, ps, fp) && fp !! Repr() && size == |Flatten(ps)|
      modifies Repr(), more
      ensures Valid() && footprint == old(footprint) + fp
      ensures parts == old(parts) + ps && queue == old(queue) + old(more.contents)
    {
      hide ChunkList, Owns;
      SpliceChunks(list, parts, footprint, more, ps, fp);
      length := length + size;
      FlattenAppend(parts, ps);
      parts, queue, footprint := parts + ps, list.contents, footprint + fp;
    }

    /** The first half of a move: the chunks go to a new list and this buffer is empty. */
    method Detach() returns (data: CLinkedList<Chunk>, size: nat, ghost ps: seq<Bytes>, ghost fp: set<object>)
      requires Valid()
      modifies Repr()
      ensures Valid() && parts == [] && queue == []
      ensures ChunkList(data, ps, fp) && fresh(data) && data in fp && fp !! Repr() && size == |Flatten(ps)|
      ensures ps == old(parts) && data.contents == old(queue)
      ensures fresh(fp - old(footprint)) && footprint <= old(footprint)
    {
      hide ChunkList, Owns;
      data, fp := MoveChunks(list, parts, footprint);
      size, ps := length, parts;
      length := 0;
      parts, queue, footprint := [], [], {list};
    }

    /** `DocketBuffer_moveto`, also when both buffers are the same one. */
    static method MoveTo(dest: DocketBuffer, from: DocketBuffer) returns (size: nat)
      requires dest.Valid() && from.Valid() && (dest != from ==> dest.Repr() !! from.Repr())
      modifies dest.Repr(), from.Repr()
      ensures dest.Valid() && from.Valid() && size == |old(from.Content())|
      ensures fresh(dest.Repr() + from.Repr() - old(dest.Repr()) - old(from.Repr()))
      ensures dest == from ==> dest.parts == old(dest.parts) && dest.queue == old(dest.queue)
      ensures dest != from ==>
                && dest.Repr() !! from.Repr()
                && dest.parts == old(dest.parts) + old(from.parts) && dest.queue == old(dest.queue) + old(from.queue)
                && dest.Content() == old(dest.Content()) + old(from.Content())
                && from.Content() == [] && from.parts == [] && from.queue == []
    {
      hide ChunkList, Owns, Flatten;
      FlattenAppend(dest.parts, from.parts);
      FlattenOne([]);
      var data; ghost var ps, fp;
      data, size, ps, fp := from.Detach();
      dest.Attach(data, size, ps, fp);
    }

    /** The loop of `DocketBuffer_write`: a list of new chunks that holds `data`. */
    static method FillList(pool: BufferPool, data: Bytes, ghost others: set<Chunk>)
      returns (list: CLinkedList<Chunk>, written: nat, ghost parts: seq<Bytes>, ghost footprint: set<object>)
      requires pool.Valid() && Accounted(pool.live, pool.idle, [], others)
      modifies pool.Repr()
      ensures pool.Valid() && footprint !! pool.Repr() && (data != [] ==> pool.list != null)
      ensures list in footprint && ChunkList(list, parts, footprint) && Flatten(parts) == data && written == |data|
      ensures fresh(footprint + pool.Repr() - old(pool.Repr()))
      ensures Accounted(pool.live, pool.idle, list.contents, others)
    {
      hide ChunkList, Owns, Accounted, HandedOut;
      list := NewChunks();
      parts, footprint := [], {list};
      written := 0;
      while written < |data|
        invariant written <= |data| && Flatten(parts) == data[..written] && (written > 0 ==> pool.list != null)
        invariant pool.Valid() && list in footprint && ChunkList(list, parts, footprint) && footprint !! pool.Repr()
        invariant fresh(footprint + pool.Repr() - old(pool.Repr()))
        invariant Accounted(pool.live, pool.idle, list.contents, others)
      {
        ghost var live, idle, queued := pool.live, pool.idle, list.contents;
        var copied, mb; ghost var fp;
        var src := data[written..];
        copied, mb, fp := AppendChunk(pool, list, src, parts, footprint);
        HandedOutAccounted(live, idle, pool.live, pool.idle, mb, queued, others);
        FlattenAppend(parts, [src[..copied]]);
        parts, footprint := parts + [src[..copied]], fp;
        assert data[..written] + src[..copied] == data[..written + copied];
        written := written + copied;
      }
    }

    /** `DocketBuffer_write`. */
    method Write(pool: BufferPool, data: Bytes, ghost others: set<Chunk>) returns (written: nat)
      requires Valid() && pool.Valid() && Repr() !! pool.Repr()
      requires pool.Started() && Accounted(pool.live, pool.idle, queue, others)
      modifies Repr(), pool.Repr()
      ensures Valid() && pool.Valid() && Repr() !! pool.Repr()
      ensures fresh(Repr() + pool.Repr() - old(Repr()) - old(pool.Repr()))
      ensures pool.Started() && Accounted(pool.live, pool.idle, queue, others)
      ensures written == |data| && Content() == old(Content()) + data
    {
      hide ChunkList, Owns, Accounted, HandedOut;
      if data == [] {
        return 0;
      }
      var list; ghost var ps, fp;
      ghost var live, idle := pool.live, pool.idle;
      AccountedAside(live, idle, queue, others);
      list, written, ps, fp := FillList(pool, data, others + Elements(queue));
      AccountedJoin(live, idle, pool.live, pool.idle, queue, list.contents, others);
      FlattenAppend(parts, ps);
      Attach(list, written, ps, fp);
    }

    /** The loop branch of `DocketBuffer_read` that ends in the middle of the head chunk. */
    method ReadPart(n: nat) returns (bytes: Bytes)
      requires Valid() && parts != [] && n < |parts[0]|
      modifies Repr()
      ensures Valid() && Repr() == old(Repr()) && queue == old(queue)
      ensures bytes == old(parts[0])[..n] && parts == [old(parts[0])[n..]] + old(parts)[1..]
    {
      hide ChunkList, Owns;
      bytes := TakeFront(list, n, parts, footprint);
      length := length - n;
      parts := [parts[0][n..]] + parts[1..];
    }

    /** The loop branch of `DocketBuffer_read` that uses up the head chunk, and the end of `DocketBuffer_send`. */
    method ReadChunk(pool: BufferPool, ghost others: set<Chunk>) returns (bytes: Bytes)
      requires Valid() && pool.Valid() && Repr() !! pool.Repr() && parts != []
      requires pool.Started() && Accounted(pool.live, pool.idle, queue, others)
      modifies Repr(), pool.Repr()
      ensures Valid() && pool.Valid() && Repr() !! pool.Repr()
      ensures fresh(Repr() + pool.Repr() - old(Repr()) - old(pool.Repr()))
      ensures pool.Started() && Accounted(pool.live, pool.idle, queue, others)
      ensures bytes == old(parts[0]) && parts == old(parts)[1..] && queue == old(queue)[1..]
    {
      hide ChunkList, Owns, Accounted, TakenBack;
      var c; ghost var rest;
      c, rest := PopFilled(list, parts, footprint);
      footprint := rest;
      bytes := c.Copy();
      length := length - c.len;
      parts, queue := parts[1..], list.contents;
      ghost var live, idle := pool.live, pool.idle;
      pool.Release(c);
      TakenBackAccounted(live, idle, pool.live, pool.idle, c, queue, others);
    }

    /** `DocketBuffer_read`: at most `n` bytes from the front; asking for nothing is an error. */
    method Read(pool: BufferPool, n: nat, ghost others: set<Chunk>) returns (r: int, bytes: Bytes)
      requires Valid() && pool.Valid() && Repr() !! pool.Repr()
      requires pool.Started() && Accounted(pool.live, pool.idle, queue, others)
      modifies Repr(), pool.Repr()
      ensures Valid() && pool.Valid() && Repr() !! pool.Repr()
      ensures fresh(Repr() + pool.Repr() - old(Repr()) - old(pool.Repr()))
      ensures pool.Started() && Accounted(pool.live, pool.idle, queue, others)
      ensures r == if n == 0 then -1 else |bytes|
      ensures |bytes| == if n < |old(Content())| then n else |old(Content())|
      ensures old(Content()) == bytes + Content()
    {
      hide ChunkList, Owns, Accounted;
      bytes := [];
      if n == 0 {
        return -1, [];
      }
      while true
        invariant Valid() && pool.Valid() && Repr() !! pool.Repr()
        invariant fresh(Repr() + pool.Repr() - old(Repr()) - old(pool.Repr()))
        invariant pool.Started() && Accounted(pool.live, pool.idle, queue, others)
        invariant |bytes| <= n && old(Content()) == bytes + Content()
        decreases |parts|
      {
        var len := Chunks.HeadLength(list, parts, footprint);
        if len == None {
          break;
        }
        var left := n - |bytes|;
        var copy;
        if len.value > left {
          copy := ReadPart(left);
          bytes := bytes + copy;
          break;
        }
        copy := ReadChunk(pool, others);
        bytes := bytes + copy;
      }
      return |bytes|, bytes;
    }

    /** `DocketBuffer_read_full`: exactly `n` bytes, or an error and no change. */
    method ReadFull(pool: BufferPool, n: nat, ghost others: set<Chunk>) returns (r: int, bytes: Bytes)
      requires Valid() && pool.Valid() && Repr() !! pool.Repr()
      requires pool.Started() && Accounted(pool.live, pool.idle, queue, others)
      modifies Repr(), pool.Repr()
      ensures Valid() && pool.Valid() && Repr() !! pool.Repr()
      ensures fresh(Repr() + pool.Repr() - old(Repr()) - old(pool.Repr()))
      ensures pool.Started() && Accounted(pool.live, pool.idle, queue, others)
      ensures r == if n == 0 || n > |old(Content())| then -1 else n
      ensures old(Content()) == bytes + Content() && |bytes| == if r == -1 then 0 else n
    {
      hide ChunkList, Owns, Accounted;
      if n > length {
        return -1, [];
      }
      r, bytes := Read(pool, n, others);
    }

    /** `DocketBuffer_peek`. */
    method Peek(n: nat) returns (r: int, bytes: Bytes)
      requires Valid()
      ensures r == if n == 0 then -1 else |bytes|
      ensures bytes == if n < |Content()| then Content()[..n] else Content()
    {
      hide Owns;
      if n == 0 {
        return -1, [];
      }
      bytes := PeekChunks(list, n, parts, footprint);
      r := |bytes|;
    }

    /** `DocketBuffer_peek_full`. */
    method PeekFull(n: nat) returns (r: int, bytes: Bytes)
      requires Valid()
      ensures r == if n == 0 || n > |Content()| then -1 else n
      ensures bytes == if r == -1 then [] else Content()[..n]
    {
      hide ChunkList, Owns;
      if n > length {
        return -1, [];
      }
      r, bytes := Peek(n);
    }

    /** The size of the head chunk, which is what a send offers. */
    method HeadLength() returns (n: nat)
      requires Valid() && parts != []
      ensures n == |parts[0]| && 0 < n <= CHUNK_SIZE
    {
      var len := Chunks.HeadLength(list, parts, footprint);
      n := len.value;
    }

    /** `DocketBuffer_send`, where the socket takes `taken` bytes of the head chunk (none: an error). The whole chunk is
        dropped whatever the count, so the stream on the wire is unbroken exactly when the count was the chunk. */
    method Send(pool: BufferPool, taken: nat, ghost others: set<Chunk>) returns (r: int, wire: Bytes)
      requires Valid() && pool.Valid() && Repr() !! pool.Repr()
      requires pool.Started() && Accounted(pool.live, pool.idle, queue, others)
      requires parts != [] && taken <= |parts[0]|
      modifies Repr(), pool.Repr()
      ensures Valid() && pool.Valid() && Repr() !! pool.Repr()
      ensures fresh(Repr() + pool.Repr() - old(Repr()) - old(pool.Repr()))
      ensures pool.Started() && Accounted(pool.live, pool.idle, queue, others)
      ensures taken == 0 ==> r == -1 && wire == [] && parts == old(parts) && queue == old(queue)
      ensures taken > 0 ==> r == taken && wire == old(parts[0])[..taken] && parts == old(parts)[1..]
      ensures taken > 0 ==> (wire + Content() == old(Content()) <==> taken == |old(parts[0])|)
    {
      hide ChunkList, Owns, Accounted;
      if taken == 0 {
        return -1, [];
      }
      var head := ReadChunk(pool, others);
      return taken, head[..taken];
    }

    /** `DocketBuffer_free`: all chunks go to the pool; the buffer is not used any more. */
    method Free(pool: BufferPool, ghost others: set<Chunk>)
      requires Valid() && pool.Valid() && Repr() !! pool.Repr()
      requires pool.Started() && Accounted(pool.live, pool.idle, queue, others)
      modifies Repr(), pool.Repr()
      ensures pool.Valid() && list == null
      ensures pool.Repr() <= old(pool.Repr()) + old(Repr())
      ensures pool.Started() && Accounted(pool.live, pool.idle, [], others)
      ensures pool.idle == old(pool.idle) + old(queue) && pool.live == old(pool.live)
    {
      hide ChunkList, Owns;
      ghost var idle := pool.idle;
      assert queue == [] || queue[0] in pool.live;
      pool.Absorb(list, parts, footprint);
      list := null;
      assert Elements(idle + queue) == Elements(idle) + Elements(queue);
    }
  }
}
