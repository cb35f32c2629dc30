/** The two-way relay of docks/transfer.c: what one side receives is moved to the other side's out-buffer and flushed,
    and when a side ends the other one lives until its out-buffer is empty. */
module Relay {
  import opened Wire
  import opened Buffer
  import opened BufferSpace
  import opened Event

  /** A read from the socket: some bytes (none at the end of the stream), it would block, or it failed. */
  datatype ReadResult = Got(bytes: Bytes) | Blocked | Broken

  /** Why an event was freed: its stream ended or a read failed, a send failed, its peer had ended and its out-buffer
      was empty, or it ended itself while it was draining. */
  datatype End = Open | Eof | SendError | Drained | Cut

  /** What the event loop finds on one of the two sockets. */
  datatype Step = Readable(atServer: bool, arrivals: seq<ReadResult>) | Writable(atServer: bool)

  /** One end of the relay: an event with its context. Relaying, its callbacks are the read and the disconnect callback;
      draining, they are the write callback that closes and the final one. `peer` is the context's link. */
  class Context {
    const event: DocketEvent
    var peer: Context?
    var draining: bool
    var end: End
    ghost var received: Bytes  // read from the socket
    ghost var relayed: Bytes   // moved to the peer's out-buffer
    ghost var wire: Bytes      // taken by the socket
    ghost var whole: bool      // no send took less than it was offered

    constructor (event: DocketEvent)
      ensures this.event == event && peer == null && !draining && end == Open
      ensures received == relayed == wire == [] && whole
    {
      this.event := event;
      peer, draining, end := null, false, Open;
      received, relayed, wire, whole := [], [], [], true;
    }

    /** Link the context to its peer; what is queued already counts as received. */
    method Start(peer: Context, ghost ahead: Bytes, ghost early: Bytes)
      modifies this
      ensures this.peer == peer && !draining && end == Open
      ensures received == ahead + early && relayed == ahead && wire == [] && whole
    {
      this.peer, draining, end := peer, false, Open;
      received, relayed, wire, whole := ahead + early, ahead, [], true;
    }
  }

  /** What one end and its event hold; `present` says that the buffers are there. */
  datatype Side = Side(self: Context, peer: Context?, draining: bool, end: End, present: bool, input: Bytes,
                       output: Bytes, received: Bytes, relayed: Bytes, wire: Bytes, whole: bool,
                       readOn: bool, writeOn: bool, answers: seq<SendResult>)

  /** The bytes from `v` to `w`. */
  ghost predicate Flow(v: Side, w: Side)
  {
    && v.relayed <= v.received
    && (v.end == Open ==> v.received == v.relayed + v.input)
    && (v.end == Eof ==> v.received == v.relayed)
    && (w.end == Open ==> Streamed(w.wire, w.output, v.relayed, w.whole))
    && (w.end == Drained ==> Streamed(w.wire, [], v.relayed, w.whole))
  }

  /** The links and callbacks of `v`. */
  ghost predicate Linked(v: Side, w: Side)
  {
    v.end == Open ==>
      && v.present
      && (w.end == Open ==> v.peer == w.self && !v.draining)
      && (w.end != Open ==> v.peer == null && v.draining)
  }

  ghost predicate Consistent(v: Side, w: Side)
  {
    Linked(v, w) && Linked(w, v) && Flow(v, w) && Flow(w, v)
  }

  /** The bytes in a buffer; none in one that is not there. */
  ghost function Queued(entries: Entries, b: DocketBuffer): Bytes
  {
    if b in entries then entries[b].content else []
  }

  lemma QueuedAt(entries: Entries, b: DocketBuffer)
    ensures b in entries ==> Queued(entries, b) == entries[b].content
    ensures b !in entries ==> Queued(entries, b) == []
  {
  }

  lemma Untouched(before: Entries, after: Entries, bs: set<DocketBuffer>, d: DocketBuffer)
    requires OnlyChanged(before, after, bs)
    ensures d in after <==> d in before
    ensures d !in bs ==> Queued(after, d) == Queued(before, d)
  {
  }

  lemma WithoutBoth(before: Entries, a: DocketBuffer, b: DocketBuffer, d: DocketBuffer)
    ensures d in before - {a} - {b} <==> d in before && d != a && d != b
    ensures Queued(before - {a} - {b}, d) == if d == a || d == b then [] else Queued(before, d)
  {
  }

  /** `v` after its event was freed. */
  ghost function Freed(v: Side, end: End): Side
  {
    v.(end := end, present := false, input := [], output := [], readOn := false, writeOn := false)
  }

  /** `w` after its peer has ended: freed with it if it has nothing left to send, and cut loose otherwise. */
  ghost function Widowed(w: Side): Side
  {
    var loose := w.(peer := null, draining := true);
    if w.output == [] then Freed(loose, Drained) else loose
  }

  /** What closing the side `v` makes of it and of its peer `w`. */
  ghost predicate Closes(v: Side, w: Side, v': Side, w': Side, eof: bool)
  {
    if v.draining then v' == Freed(v, Cut) && w' == w
    else v' == Freed(v, if eof then Eof else SendError) && w' == Widowed(w)
  }

  /** What a flush makes of the side `v`: it sends until the queue is empty, the socket would block, or a send fails. */
  ghost predicate FlushedAs(v: Side, v': Side, ok: bool)
  {
    && v' == v.(output := v'.output, wire := v'.wire, whole := v'.whole, writeOn := v'.writeOn, answers := v'.answers)
    && (!v.writeOn ==> ok && v' == v.(writeOn := true))
    && (v.writeOn && ok && v'.writeOn ==> v'.output == [] && Drains(v.answers, v'.answers))
    && (v.writeOn && ok && !v'.writeOn ==> v'.output != [] && Blocks(v.answers, v'.answers))
    && (v.writeOn && !ok ==> v'.output != [] && Breaks(v.answers, v'.answers))
    && (v.writeOn && v.output == [] ==> ok && v' == v)
    && (v.writeOn && AllAccept(v.answers) && |v.output| <= |v.answers| ==> ok && v'.writeOn)
    && (Ample(v.answers, v'.answers) ==> v'.whole == v.whole && v'.wire + v'.output == v.wire + v.output)
  }

  /** What a write event makes of the side `v`: if it is still there, it has sent all or its socket would block. */
  ghost predicate WriteAs(v: Side, w: Side, v': Side, w': Side)
  {
    if v.output == [] then v' == v.(writeOn := true) && w' == w
    else
      && v'.received == v.received && v'.relayed == v.relayed
      && match v'.end
         case Open =>
           && w' == w
           && v' == v.(output := v'.output, wire := v'.wire, whole := v'.whole, writeOn := v'.writeOn,
                       answers := v'.answers)
           && (|| (v'.output == [] && v'.writeOn && !v.draining && Drains(v.answers, v'.answers))
               || (v'.output != [] && !v'.writeOn && Blocks(v.answers, v'.answers)))
         case Drained => v.draining && w' == w && Drains(v.answers, v'.answers)
         case Cut => v.draining && w' == w && Breaks(v.answers, v'.answers)
         case SendError => !v.draining && w' == Widowed(w) && Breaks(v.answers, v'.answers)
         case Eof => false
  }

  /** The stream is at its end or broken. */
  predicate Ends(r: ReadResult)
  {
    r == Got([]) || r == Broken
  }

  /** What the read callback of its peer makes of the side `w`: it has sent all or its socket would block, unless the
      last send failed. */
  ghost predicate FedAs(w: Side, w': Side)
  {
    && Suffix(w.answers, w'.answers)
    && (w'.end == Open ==> w'.output == [] || Stalled(w.answers, w'.answers))
    && (w'.end == SendError ==> Failing(w.answers, w'.answers))
  }

  lemma FedAgain(w: Side, w1: Side, w': Side)
    requires FedAs(w, w1) && w1.end == Open
    ensures FedAs(w1, w') ==> FedAs(w, w')
    ensures w' == w1 || w' == Widowed(w1) ==> FedAs(w, w')
  {
    if FedAs(w1, w') {
      var k, n := |w.answers| - |w'.answers|, |w.answers| - |w1.answers|;
      assert w.answers[n..][k - n..] == w.answers[k..];
    }
  }

  /** What rounds of the read loop make of the side `v` and its peer: a relaying side has given all that it received to
      the peer. A failed send ends the peer, and with it a side that has nothing left to send. */
  ghost predicate Fed(v: Side, w: Side, v': Side, w': Side)
  {
    && (v'.end == Open ==> v'.output == v.output && v'.answers == v.answers)
    && (v'.end == Open && !v'.draining ==> v'.input == [] && v'.relayed == v'.received)
    && (v.draining ==> w' == w && v'.end == Open && v'.draining)
    && (!v.draining ==>
          && FedAs(w, w') && w'.end in {Open, SendError}
          && (v'.end == Drained ==> w'.end == SendError && v.output == [])
          && (v'.end == Open ==> (v'.draining <==> w'.end != Open)))
  }

  lemma FedEnds(v: Side, w: Side, v': Side, w': Side)
    requires Fed(v, w, v', w')
    ensures v.draining ==> v'.draining && v'.end == Open
  {
  }

  lemma FedMore(v: Side, w: Side, middle: Side, middlePeer: Side, v': Side, w': Side)
    requires middle.end == Open
    requires Fed(v, w, middle, middlePeer) && Fed(middle, middlePeer, v', w')
    ensures Fed(v, w, v', w')
  {
  }

  lemma WriteIs(v: Side, w: Side, u: Side, v': Side, w': Side, ok: bool)
    requires FlushedAs(v.(writeOn := true), u, ok) && (v.draining ==> v.output != [])
    requires if !ok then Closes(u, w, v', w', false)
             else w' == w && v' == if u.draining && u.output == [] then Freed(u, Drained) else u
    requires v.end == Open
    ensures WriteAs(v, w, v', w')
  {
    hide Drains, Blocks, Breaks, AllAccept, Ample;
  }

  lemma NothingIs(v: Side, w: Side)
    requires v.output == []
    ensures WriteAs(v, w, v.(writeOn := true), w)
  {
  }

  lemma OnceIs(v: Side, w: Side, bytes: Bytes, u: Side, v': Side, w': Side, ok: bool)
    requires !v.draining && v.end == w.end == Open && bytes != []
    requires var given := v.(input := [], received := v.received + bytes, relayed := v.received + bytes);
             && FlushedAs(w.(output := w.output + (v.input + bytes), writeOn := true), u, ok)
             && if ok then v' == given && w' == u.(writeOn := w.writeOn)
                else w' == Freed(u, SendError) && v' == Widowed(given)
    ensures Fed(v, w, v', w')
    ensures v'.received == v.received + bytes && v'.end in {Open, Drained}
    ensures v'.end == Open ==> v'.readOn == v.readOn
    ensures v'.end == Drained ==> !v'.readOn
  {
    hide Drains, AllAccept, Ample;
    Later(w.answers, w.answers, u.answers);
  }

  lemma DrainingIs(v: Side, w: Side, v': Side)
    requires v.draining && v.end == Open && v' == v.(input := v'.input, received := v'.received)
    ensures Fed(v, w, v', w)
  {
  }

  lemma ClosedIs(v: Side, w: Side, v': Side, w': Side)
    requires v.draining || v.input == []
    requires Closes(v, w, v', w', true)
    ensures EndedAs(v, w, v', w')
  {
  }

  lemma EndIs(v: Side, w: Side, u: Side, v1: Side, w1: Side, v': Side, w': Side, ok: bool)
    requires !v.draining && v.end == w.end == Open && !w.draining && v.input != []
    requires var given := v.(input := [], relayed := v.received);
             && FlushedAs(w.(output := w.output + v.input, writeOn := true), u, ok)
             && if ok then v1 == given && w1 == u.(writeOn := w.writeOn)
                else w1 == Freed(u, SendError) && v1 == Widowed(given)
    requires if v1.end == Open then Closes(v1, w1, v', w', true) else v' == v1 && w' == w1
    ensures EndedAs(v, w, v', w')
  {
    hide Drains, AllAccept, Ample;
    Later(w.answers, w.answers, u.answers);
  }

  /** What the end of its own stream makes of the side `v`: nothing that it received stays behind, except where it was
      draining. It ends for the end of the stream, or, where the last bytes could not be sent, with its peer. */
  ghost predicate EndedAs(v: Side, w: Side, v': Side, w': Side)
  {
    && v'.received == v.received
    && if v.draining then v' == Freed(v, Cut) && w' == w
       else if v.input == [] then v' == Freed(v, Eof) && w' == Widowed(w)
       else
         && v'.relayed == v'.received && FedAs(w, w')
         && (v'.end == Drained ==> v.output == [])
         && (|| (v'.end == Eof && w'.draining && w'.end in {Open, Drained})
             || (v'.end in {Drained, Cut} && w'.end == SendError))
  }

  /** What a read event takes from the socket of the side `v` if that gives `arrivals`: all the data there is, unless
      the side is freed on the way. What a relaying side has received is forwarded at once, and the end of the stream
      ends it. */
  ghost predicate Takes(v: Side, v': Side, arrivals: seq<ReadResult>, taken: nat)
  {
    && taken <= |arrivals| && v'.received == v.received + Gathered(arrivals[..taken])
    && (forall i :: 0 <= i < taken ==> Data(arrivals[i]))
    && (arrivals != [] && Data(arrivals[0]) ==> taken > 0)
    && (v'.end == Open ==> v'.readOn && (taken == |arrivals| || arrivals[taken] == Blocked))
    && (taken < |arrivals| && Data(arrivals[taken]) ==> v'.end == Drained)
    && (taken < |arrivals| && Ends(arrivals[taken]) ==> v'.end in {Eof, Drained, Cut})
    && (v'.end == Eof ==> taken < |arrivals| && Ends(arrivals[taken]) && v'.relayed == v'.received)
    && (v'.end == Open && taken == 0 ==> v'.input == v.input)
    && (v'.end == Open && taken > 0 && !v'.draining ==> v'.input == [] && v'.relayed == v'.received)
  }

  /** What becomes of the out-buffer of the side `v` in its read event. */
  ghost predicate Empties(v: Side, v': Side, w': Side)
  {
    match v'.end
    case Open => if v'.writeOn then v'.output == [] && Drains(v.answers, v'.answers)
                 else v'.output != [] && Blocks(v.answers, v'.answers)
    case SendError => !v.draining && Breaks(v.answers, v'.answers)
    case Eof => !v.draining
    case Drained => if v.draining then Drains(v.answers, v'.answers)
                    else w'.end == SendError && (v.output == [] || Drains(v.answers, v'.answers))
    case Cut => v.draining || w'.end == SendError
  }

  /** What becomes of the peer `w` of a side that reads. */
  ghost predicate Feeds(v: Side, w: Side, v': Side, w': Side, given: bool)
  {
    if v.draining then w' == w
    else
      && w'.end in {Open, Drained, SendError} && (w'.end == Drained ==> v'.end in {Eof, SendError})
      && if given then FedAs(w, w')
         else w'.output == w.output && w'.answers == w.answers && w'.end != SendError
  }

  /** What a read event makes of the side `v` and its peer. */
  ghost predicate ReadAs(v: Side, w: Side, v': Side, w': Side, arrivals: seq<ReadResult>, taken: nat)
  {
    if !v.readOn then taken == 0 && v' == v.(writeOn := false) && w' == w
    else
      && Takes(v, v', arrivals, taken) && Empties(v, v', w')
      && Feeds(v, w, v', w', taken > 0 || (arrivals != [] && Ends(arrivals[0]) && v.input != []))
  }

  lemma NotReadIs(v: Side, w: Side, arrivals: seq<ReadResult>)
    requires !v.readOn
    ensures ReadAs(v, w, v.(writeOn := false), w, arrivals, 0)
  {
  }

  /** `v1` and `w1` are behind the read loop, after `taken` rounds. */
  ghost predicate Looped(v: Side, w: Side, v1: Side, w1: Side, taken: nat)
  {
    && v.readOn && v.end == Open && (v.draining <==> w.end != Open)
    && v1.end in {Open, Drained} && (v1.end == Drained ==> taken > 0 && !v.draining)
    && (v1.end == Open ==> v1.readOn && (v1.draining <==> w1.end != Open) && v1.received == v1.relayed + v1.input)
    && if taken == 0 then v1 == v.(writeOn := false) && w1 == w else Fed(v.(writeOn := false), w, v1, w1)
  }

  /** What follows the read loop. */
  ghost predicate Followed(v1: Side, w1: Side, v': Side, w': Side, last: ReadResult)
  {
    if v1.end != Open then v' == v1 && w' == w1
    else if Ends(last) then EndedAs(v1, w1, v', w')
    else WriteAs(v1, w1, v', w')
  }

  lemma TakesIs(v: Side, w: Side, v1: Side, w1: Side, v': Side, w': Side, arrivals: seq<ReadResult>, taken: nat,
                last: ReadResult)
    requires Looped(v, w, v1, w1, taken) && Followed(v1, w1, v', w', last)
    requires taken <= |arrivals| && forall i :: 0 <= i < taken ==> Data(arrivals[i])
    requires v1.received == v.received + Gathered(arrivals[..taken])
    requires v1.end == Open ==> last == if taken < |arrivals| then arrivals[taken] else Blocked
    requires v1.end == Open ==> !Data(last)
    ensures Takes(v, v', arrivals, taken)
    ensures v.readOn && (taken == 0 ==> last == if arrivals == [] then Blocked else arrivals[0])
  {
    hide Gathered, Drains, Blocks, Breaks, FedAs;
  }

  lemma EmptiesIs(v: Side, w: Side, v1: Side, w1: Side, v': Side, w': Side, last: ReadResult, taken: nat)
    requires Looped(v, w, v1, w1, taken) && Followed(v1, w1, v', w', last)
    ensures Empties(v, v', w')
  {
    hide Drains, Blocks, Breaks, FedAs;
    DrainsNothing(v.answers);
  }

  lemma FeedsIs(v: Side, w: Side, v1: Side, w1: Side, v': Side, w': Side, last: ReadResult, taken: nat)
    requires Looped(v, w, v1, w1, taken) && Followed(v1, w1, v', w', last)
    ensures Feeds(v, w, v', w', taken > 0 || (Ends(last) && v.input != []))
  {
    hide Drains, Blocks, Breaks, Suffix, Stalled, Failing;
    if v1.end == Open && !v1.draining {
      FeedsOpen(v1, w1, v', w', last);
      if taken > 0 {
        FedAgain(w, w1, w');
      }
    }
  }

  lemma FeedsOpen(v1: Side, w1: Side, v': Side, w': Side, last: ReadResult)
    requires !v1.draining && v1.end == w1.end == Open && Followed(v1, w1, v', w', last)
    ensures w' == w1 || w' == Widowed(w1) || (FedAs(w1, w') && Ends(last) && v1.input != [])
    ensures w'.end in {Open, Drained, SendError} && (w'.end == Drained ==> v'.end in {Eof, SendError})
    ensures Ends(last) && v1.input != [] ==> FedAs(w1, w')
  {
    hide Drains, Blocks, Breaks, Suffix, Stalled, Failing;
  }

  lemma ReadIs(v: Side, w: Side, v1: Side, w1: Side, v': Side, w': Side, arrivals: seq<ReadResult>, taken: nat,
               last: ReadResult)
    requires Looped(v, w, v1, w1, taken) && Followed(v1, w1, v', w', last)
    requires taken <= |arrivals| && forall i :: 0 <= i < taken ==> Data(arrivals[i])
    requires v1.received == v.received + Gathered(arrivals[..taken])
    requires v1.end == Open ==> last == if taken < |arrivals| then arrivals[taken] else Blocked
    requires v1.end == Open ==> !Data(last)
    ensures ReadAs(v, w, v', w', arrivals, taken)
  {
    hide Looped, Followed, Gathered, Takes, Empties, Feeds;
    TakesIs(v, w, v1, w1, v', w', arrivals, taken, last);
    EmptiesIs(v, w, v1, w1, v', w', last, taken);
    FeedsIs(v, w, v1, w1, v', w', last, taken);
  }

  /** What a step of the event loop makes of the side `v` it is for, and of the other one. */
  ghost predicate SteppedAs(step: Step, v: Side, w: Side, v': Side, w': Side)
  {
    if v.end != Open then v' == v && w' == w
    else if step.Readable? then exists taken: nat :: ReadAs(v, w, v', w', step.arrivals, taken)
    else WriteAs(v, w, v', w')
  }

  /** The same for the server's side and the remote's. */
  ghost predicate Stepped(step: Step, before: (Side, Side), after: (Side, Side))
  {
    if step.atServer then SteppedAs(step, before.0, before.1, after.0, after.1)
    else SteppedAs(step, before.1, before.0, after.1, after.0)
  }

  /** The flags and answers of an event do not matter for consistency. */
  lemma AfterFlags(v: Side, w: Side, readOn: bool, writeOn: bool, answers: seq<SendResult>)
    requires Consistent(v, w)
    ensures Consistent(v.(readOn := readOn, writeOn := writeOn, answers := answers), w)
  {
  }

  lemma AfterReceive(v: Side, w: Side, bytes: Bytes)
    requires Consistent(v, w) && v.end == Open
    ensures Consistent(v.(input := v.input + bytes, received := v.received + bytes), w)
  {
    assert v.relayed + (v.input + bytes) == (v.relayed + v.input) + bytes;
  }

  lemma AfterMove(v: Side, w: Side)
    requires Consistent(v, w) && v.end == Open && !v.draining
    ensures Consistent(v.(input := [], relayed := v.received), w.(output := w.output + v.input))
  {
    StreamedBehind(w.wire, w.output, v.relayed, v.input, w.whole);
  }

  lemma AfterFlush(v: Side, w: Side, u: Side, sent: Bytes, whole: bool)
    requires Consistent(v, w) && v.end == Open && Streamed(sent, u.output, v.output, whole)
    requires u == v.(output := u.output, writeOn := u.writeOn, answers := u.answers)
    ensures Consistent(u.(wire := v.wire + sent, whole := v.whole && whole), w)
  {
    StreamedMore(v.wire, sent, u.output, v.output, w.relayed, v.whole, whole);
  }

  /** What the flush says of the buffer, said of the side. */
  lemma FlushIs(v: Side, u: Side, sent: Bytes, whole: bool, ok: bool)
    requires u == v.(output := u.output, wire := v.wire + sent, whole := v.whole && whole, writeOn := u.writeOn,
                     answers := u.answers)
    requires Streamed(sent, u.output, v.output, whole) && (Ample(v.answers, u.answers) ==> whole)
    requires !v.writeOn ==> ok && u.writeOn && sent == [] && whole && u.output == v.output && u.answers == v.answers
    requires v.writeOn && ok && u.writeOn ==> u.output == [] && Drains(v.answers, u.answers)
    requires v.writeOn && ok && u.writeOn ==> |v.answers| - |u.answers| <= |v.output|
    requires v.writeOn && ok && !u.writeOn ==> u.output != [] && Blocks(v.answers, u.answers)
    requires v.writeOn && !ok ==> u.output != [] && Breaks(v.answers, u.answers)
    requires v.writeOn && AllAccept(v.answers) && |v.output| <= |v.answers| ==> ok && u.writeOn
    ensures FlushedAs(v, u, ok)
  {
    hide EndsWith, AllAccept, Ample;
    assert whole ==> (v.wire + sent) + u.output == v.wire + v.output by {
      assert (v.wire + sent) + u.output == v.wire + (sent + u.output);
    }
    assert sent == [] ==> v.wire + sent == v.wire;
  }

  /** The side that ends, and its peer, which is cut loose. */
  lemma AfterEnd(v: Side, w: Side, end: End)
    requires Consistent(v, w) && v.end == Open && !v.draining
    requires end == SendError || (end == Eof && v.input == [])
    ensures Consistent(Freed(v, end), w.(peer := null, draining := true))
  {
    assert v.relayed + [] == v.relayed;
  }

  lemma AfterDraining(v: Side, w: Side, end: End)
    requires Consistent(v, w) && v.end == Open && v.draining
    requires end == Cut || (end == Drained && v.output == [])
    ensures Consistent(Freed(v, end), w)
  {
  }

  /** While a side is up its buffers are there, and it relays exactly if its peer is up too. */
  lemma Basics(v: Side, w: Side)
    requires Consistent(v, w)
    ensures v.end == Open ==> v.present && (v.draining <==> w.end != Open) && v.received == v.relayed + v.input
    ensures w.end == Open ==> w.present && (w.draining <==> v.end != Open)
    ensures v.end == w.end == Open ==> v.peer == w.self && w.peer == v.self
  {
  }

  class Pair {
    const space: Space
    const server: Context
    const remote: Context

    ghost function In(x: Context): Bytes
      reads space
    {
      Queued(space.entries, x.event.input)
    }

    ghost function Out(x: Context): Bytes
      reads space
    {
      Queued(space.entries, x.event.output)
    }

    ghost function View(x: Context): Side
      reads x, x.event, space
    {
      var present := x.event.input in space.entries && x.event.output in space.entries;
      Side(x, x.peer, x.draining, x.end, present, In(x), Out(x), x.received, x.relayed, x.wire, x.whole,
           x.event.readOn, x.event.writeOn, x.event.answers)
    }

    lemma Seen(x: Context)
      ensures var v := View(x);
              && v.self == x && v.peer == x.peer && v.draining == x.draining && v.end == x.end
              && v.input == In(x) && v.output == Out(x) && v.received == x.received && v.relayed == x.relayed
              && v.wire == x.wire && v.whole == x.whole
              && (v.present ==> x.event.input in space.entries && x.event.output in space.entries)
              && (v.present ==> v.input == space.entries[x.event.input].content)
              && v.readOn == x.event.readOn && v.writeOn == x.event.writeOn && v.answers == x.event.answers
    {
    }

    /** A side that is only kept for what it has left to send has something left to send. */
    ghost predicate Lingers(x: Context)
      reads x, space
    {
      x.end == Open && x.draining ==> Out(x) != []
    }

    /** The parts of `x` are none of the space's. */
    ghost predicate Outside(x: Context)
      reads space
    {
      x !in space.Repr && x.event !in space.Repr
    }

    /** The buffers of `x` are two, and none of them is one of `y`'s. */
    ghost predicate Apart(x: Context, y: Context)
    {
      && x.event.input != x.event.output
      && x.event.input != y.event.input && x.event.input != y.event.output
      && x.event.output != y.event.input && x.event.output != y.event.output
    }

    ghost predicate Shape(x: Context, y: Context)
      reads space
    {
      x != y && x.event != y.event && Outside(x) && Outside(y) && Apart(x, y) && Apart(y, x)
    }

    /** The state of the relay, seen from either side. */
    ghost predicate ValidFor(x: Context, y: Context)
      reads space, space.Repr, x, y, x.event, y.event
    {
      space.Valid() && Shape(x, y) && Consistent(View(x), View(y))
    }

    ghost predicate Valid()
      reads space, space.Repr, server, remote, server.event, remote.event
    {
      ValidFor(server, remote)
    }

    /** The switch to relaying, `on_connected_write`: both events exist, and bytes that arrived early may be waiting. */
    constructor (space: Space, server: Context, remote: Context)
      requires space.Valid() && server != remote && server.event != remote.event
      requires server !in space.Repr && remote !in space.Repr
      requires server.event !in space.Repr && remote.event !in space.Repr
      requires {server.event.input, server.event.output, remote.event.input, remote.event.output} <= space.entries.Keys
      requires server.event.input != server.event.output && remote.event.input != remote.event.output
      requires {server.event.input, server.event.output} !! {remote.event.input, remote.event.output}
      modifies server, remote
      ensures Valid() && Lingers(server) && Lingers(remote) && server.end == Open && remote.end == Open
      ensures this.space == space && this.server == server && this.remote == remote
    {
      hide Space.Valid;
      this.space, this.server, this.remote := space, server, remote;
      new;
      server.Start(remote, Out(remote), In(server));
      remote.Start(server, Out(server), In(remote));
    }

    /** Everything the relay is made of. */
    ghost function Around(x: Context, y: Context): set<object>
      reads space
    {
      {x, y, x.event, y.event} + space.Repr
    }

    /** `DocketBuffer_length` of the out-buffer. */
    method OutLength(x: Context) returns (n: nat)
      requires space.Valid() && x.event.output in space.entries
      ensures n == |Out(x)|
    {
      n := space.Length(x.event.output);
    }

    /** `DocketEvent_free`. */
    method FreeEvent(x: Context, ghost y: Context, end: End)
      requires space.Valid() && Shape(x, y) && View(x).present && end != Open
      modifies space.Repr, x, x.event
      ensures space.Valid() && Shape(x, y) && fresh(space.Repr - old(space.Repr))
      ensures View(x) == Freed(old(View(x)), end) && View(y) == old(View(y))
    {
      hide Space.Valid, Queued;
      ghost var before := space.entries;
      WithoutBoth(before, x.event.input, x.event.output, x.event.input);
      WithoutBoth(before, x.event.input, x.event.output, x.event.output);
      WithoutBoth(before, x.event.input, x.event.output, y.event.input);
      WithoutBoth(before, x.event.input, x.event.output, y.event.output);
      x.event.readOn, x.event.writeOn := false, false;
      space.Free(x.event.input);
      space.Free(x.event.output);
      x.end := end;
    }

    /** The side that ends is freed, and its peer is cut loose: no read callback any more, and it closes when
        drained. */
    method CutLoose(x: Context, y: Context, eof: bool)
      requires ValidFor(x, y) && x.end == Open && !x.draining && (eof ==> In(x) == [])
      modifies Around(x, y)
      ensures ValidFor(x, y) && fresh(space.Repr - old(space.Repr))
      ensures View(x) == Freed(old(View(x)), if eof then Eof else SendError)
      ensures View(y) == old(View(y)).(peer := null, draining := true) && y.end == Open
    {
      hide Space.Valid, Consistent, Queued;
      ghost var v, w := View(x), View(y);
      Basics(v, w);
      AfterEnd(v, w, if eof then Eof else SendError);
      FreeEvent(x, y, if eof then Eof else SendError);
      y.peer := null;
      y.draining := true;
      assert View(y) == w.(peer := null, draining := true);
    }

    /** `set_write_enable` and `set_write_disable`. */
    method SetWrite(x: Context, ghost y: Context, on: bool)
      requires ValidFor(x, y)
      modifies x.event`writeOn
      ensures ValidFor(x, y) && View(x) == old(View(x)).(writeOn := on) && View(y) == old(View(y))
    {
      hide Space.Valid, Consistent, Queued;
      AfterFlags(View(x), View(y), x.event.readOn, on, x.event.answers);
      ghost var v := View(x);
      x.event.writeOn := on;
      assert View(x) == v.(readOn := x.event.readOn, writeOn := on, answers := x.event.answers);
    }

    /** A draining side whose out-buffer is empty is freed. */
    method FreeDrained(y: Context, ghost x: Context)
      requires ValidFor(y, x) && y.end == Open && y.draining && Out(y) == []
      modifies Around(x, y)
      ensures ValidFor(y, x) && fresh(space.Repr - old(space.Repr))
      ensures View(y) == Freed(old(View(y)), Drained) && View(x) == old(View(x))
    {
      hide Space.Valid, Consistent, Queued;
      Basics(View(y), View(x));
      AfterDraining(View(y), View(x), Drained);
      FreeEvent(y, x, Drained);
    }

    /** The disconnect callbacks: the peer of a side that ends is freed with it if it has nothing left to send. */
    method Disconnect(x: Context, y: Context, eof: bool)
      requires ValidFor(x, y) && x.end == Open && !x.draining && (eof ==> In(x) == [])
      modifies Around(x, y)
      ensures ValidFor(x, y) && fresh(space.Repr - old(space.Repr)) && Lingers(x) && Lingers(y)
      ensures View(x) == Freed(old(View(x)), if eof then Eof else SendError) && View(y) == Widowed(old(View(y)))
      ensures old(y.end) == Open
    {
      hide Space.Valid, Consistent, Queued;
      CutLoose(x, y, eof);
      Basics(View(x), View(y));
      var left := OutLength(y);
      if left == 0 {
        Turned(x, y);
        FreeDrained(y, x);
        Turned(y, x);
      }
    }

    /** The state is the same from either side. */
    lemma Turned(x: Context, y: Context)
      requires ValidFor(x, y)
      ensures ValidFor(y, x)
    {
      hide Space.Valid, Pair.View, Flow, Linked;
    }

    /** The final callbacks: a draining side that sees an error or an end itself is freed as it is. */
    method Finally(x: Context, ghost y: Context)
      requires ValidFor(x, y) && x.end == Open && x.draining
      modifies Around(x, y)
      ensures ValidFor(x, y) && fresh(space.Repr - old(space.Repr))
      ensures View(x) == Freed(old(View(x)), Cut) && View(y) == old(View(y))
    {
      hide Space.Valid, Consistent, Queued;
      Basics(View(x), View(y));
      AfterDraining(View(x), View(y), Cut);
      FreeEvent(x, y, Cut);
    }

    lemma AllUntouched(before: Entries, bs: set<DocketBuffer>, x: Context, y: Context)
      requires OnlyChanged(before, space.entries, bs)
      ensures x.event.input in space.entries <==> x.event.input in before
      ensures x.event.output in space.entries <==> x.event.output in before
      ensures y.event.input in space.entries <==> y.event.input in before
      ensures y.event.output in space.entries <==> y.event.output in before
      ensures x.event.input !in bs ==> In(x) == Queued(before, x.event.input)
      ensures x.event.output !in bs ==> Out(x) == Queued(before, x.event.output)
      ensures y.event.input !in bs ==> In(y) == Queued(before, y.event.input)
      ensures y.event.output !in bs ==> Out(y) == Queued(before, y.event.output)
    {
      hide OnlyChanged, Queued;
      Untouched(before, space.entries, bs, x.event.input);
      Untouched(before, space.entries, bs, x.event.output);
      Untouched(before, space.entries, bs, y.event.input);
      Untouched(before, space.entries, bs, y.event.output);
    }

    /** The move in the relay's read callbacks: all that `x` has received goes behind the peer's output. */
    method MoveOut(x: Context, y: Context)
      requires ValidFor(x, y) && x.end == Open && !x.draining
      modifies space.Repr, x
      ensures ValidFor(x, y) && fresh(space.Repr - old(space.Repr))
      ensures View(x) == old(View(x)).(input := [], relayed := x.received)
      ensures View(y) == old(View(y)).(output := old(Out(y)) + old(In(x)))
    {
      hide Space.Valid, Consistent, OnlyChanged, Queued;
      ghost var v, w, before := View(x), View(y), space.entries;
      Basics(v, w);
      AfterMove(v, w);
      QueuedAt(before, x.event.input);
      QueuedAt(before, y.event.output);
      var _ := space.MoveTo(y.event.output, x.event.input);
      AllUntouched(before, {y.event.output, x.event.input}, x, y);
      QueuedAt(space.entries, x.event.input);
      QueuedAt(space.entries, y.event.output);
      x.relayed := x.received;
      assert View(x) == v.(input := [], relayed := v.received);
      assert View(y) == w.(output := w.output + v.input);
    }

    /** Flush the output of `x`. */
    method FlushQueue(x: Context, ghost y: Context) returns (ok: bool, ghost sent: Bytes, ghost whole: bool)
      requires space.Valid() && Shape(x, y) && View(x).present
      modifies space.Repr, x.event`writeOn, x.event`answers
      ensures space.Valid() && Shape(x, y) && fresh(space.Repr - old(space.Repr))
      ensures View(x) == old(View(x)).(output := Out(x), writeOn := x.event.writeOn, answers := x.event.answers)
      ensures View(y) == old(View(y))
      ensures Streamed(sent, Out(x), old(Out(x)), whole)
      ensures FlushedAs(old(View(x)), View(x).(wire := x.wire + sent, whole := x.whole && whole), ok)
    {
      hide Space.Valid, OnlyChanged, Queued, Drains, EndsWith, AllAccept, Ample, FlushedAs;
      ghost var v, before := View(x), space.entries;
      QueuedAt(before, x.event.output);
      ok, sent, whole := x.event.Flush(space);
      AllUntouched(before, {x.event.output}, x, y);
      QueuedAt(space.entries, x.event.output);
      FlushIs(v, View(x).(wire := x.wire + sent, whole := x.whole && whole), sent, whole, ok);
    }

    ghost method Book(x: Context, y: Context, wire: Bytes, whole: bool)
      requires space.Valid() && Shape(x, y) && Consistent(View(x).(wire := wire, whole := whole), View(y))
      modifies x`wire, x`whole
      ensures ValidFor(x, y) && View(x) == old(View(x)).(wire := wire, whole := whole) && View(y) == old(View(y))
    {
      hide Space.Valid, Consistent, Queued;
      x.wire, x.whole := wire, whole;
    }

    /** Flush the output of `x` and keep the books. */
    method FlushOut(x: Context, ghost y: Context) returns (ok: bool)
      requires ValidFor(x, y) && x.end == Open
      modifies space.Repr, x, x.event`writeOn, x.event`answers
      ensures ValidFor(x, y) && fresh(space.Repr - old(space.Repr))
      ensures FlushedAs(old(View(x)), View(x), ok) && View(y) == old(View(y))
    {
      hide Space.Valid, Consistent, Streamed, Queued, FlushedAs, Pair.View, Pair.Shape;
      ghost var v, w, sent, whole := View(x), View(y), [], true;
      Seen(x);
      Basics(v, w);
      ok, sent, whole := FlushQueue(x, y);
      ghost var u := View(x);
      Seen(x);
      AfterFlush(v, w, u, sent, whole);
      Book(x, y, v.wire + sent, v.whole && whole);
    }

    /** `docket_server_read` and `docket_remote_read`: `DocketEvent_write_buffer_force` on the peer. All that was
        received goes there and is flushed with writing switched on; `u` is the peer behind the flush. */
    method Forward(x: Context, y: Context) returns (ok: bool, ghost u: Side)
      requires ValidFor(x, y) && x.end == Open && !x.draining
      modifies Around(x, y)
      ensures ValidFor(x, y) && fresh(space.Repr - old(space.Repr)) && Lingers(x) && Lingers(y)
      ensures var v, w := old(View(x)), old(View(y));
              var given := v.(input := [], relayed := v.received);
              && FlushedAs(w.(output := w.output + v.input, writeOn := true), u, ok)
              && if ok then View(x) == given && View(y) == u.(writeOn := w.writeOn)
                 else View(y) == Freed(u, SendError) && View(x) == Widowed(given)
      ensures old(y.end) == Open && !old(y.draining)
    {
      hide Space.Valid, Consistent, Queued;
      Basics(View(x), View(y));
      MoveOut(x, y);
      Turned(x, y);
      var writeOn := y.event.writeOn;
      SetWrite(y, x, true);
      ok := FlushOut(y, x);
      u := View(y);
      if ok {
        SetWrite(y, x, writeOn);
      } else {
        Disconnect(y, x, false);
      }
      Turned(y, x);
    }

    /** `devent_close_internal`. */
    method Close(x: Context, y: Context, eof: bool)
      requires ValidFor(x, y) && x.end == Open && (eof && !x.draining ==> In(x) == [])
      requires Lingers(y)
      modifies Around(x, y)
      ensures ValidFor(x, y) && fresh(space.Repr - old(space.Repr)) && Lingers(x) && Lingers(y)
      ensures Closes(old(View(x)), old(View(y)), View(x), View(y), eof)
    {
      hide Space.Valid, Consistent, Queued;
      SwitchOff(x, y);
      if x.draining {
        Finally(x, y);
      } else {
        Disconnect(x, y, eof);
      }
    }

    method SwitchOff(x: Context, ghost y: Context)
      requires ValidFor(x, y)
      modifies x.event`readOn, x.event`writeOn
      ensures ValidFor(x, y) && View(x) == old(View(x)).(readOn := false, writeOn := false) && View(y) == old(View(y))
    {
      hide Space.Valid, Consistent, Queued;
      ghost var v := View(x);
      AfterFlags(v, View(y), false, false, v.answers);
      x.event.readOn, x.event.writeOn := false, false;
      assert View(x) == v.(readOn := false, writeOn := false, answers := v.answers);
    }

    /** `devent_write_data` on the side's own output, with the write callbacks of a draining side; `u` is the side
        behind the flush. */
    method WriteData(x: Context, y: Context) returns (ok: bool, ghost u: Side)
      requires ValidFor(x, y) && x.end == Open
      requires Lingers(x) && Lingers(y)
      modifies Around(x, y)
      ensures ValidFor(x, y) && fresh(space.Repr - old(space.Repr)) && Lingers(x) && Lingers(y)
      ensures FlushedAs(old(View(x)), u, ok)
      ensures if !ok then Closes(u, old(View(y)), View(x), View(y), false)
              else View(y) == old(View(y)) && View(x) == if u.draining && u.output == [] then Freed(u, Drained) else u
    {
      hide Space.Valid, Consistent, Queued, Drains, EndsWith, Ample, AllAccept;
      ok := FlushOut(x, y);
      u := View(x);
      if !ok {
        Close(x, y, false);
        return;
      }
      if x.draining {
        Basics(View(x), View(y));
        var left := OutLength(x);
        if left == 0 {
          FreeDrained(x, y);
        }
      }
    }

    /** `docket_on_event_write`. */
    method OnEventWrite(x: Context, y: Context)
      requires ValidFor(x, y) && x.end == Open
      requires Lingers(x) && Lingers(y)
      modifies Around(x, y)
      ensures ValidFor(x, y) && fresh(space.Repr - old(space.Repr)) && Lingers(x) && Lingers(y)
      ensures WriteAs(old(View(x)), old(View(y)), View(x), View(y))
    {
      hide Space.Valid, Consistent, Queued, FlushedAs, Closes, Widowed, Pair.View, WriteAs;
      ghost var v, w := View(x), View(y);
      Seen(x);
      Basics(v, w);
      SetWrite(x, y, true);
      Seen(x);
      var left := OutLength(x);
      if left == 0 {
        NothingIs(v, w);
        return;
      }
      var ok; ghost var u;
      ok, u := WriteData(x, y);
      WriteIs(v, w, u, View(x), View(y), ok);
    }

    /** `DocketBuffer_write` on the in-buffer. */
    method Append(x: Context, ghost y: Context, bytes: Bytes)
      requires space.Valid() && Shape(x, y) && View(x).present
      modifies space.Repr
      ensures space.Valid() && Shape(x, y) && fresh(space.Repr - old(space.Repr))
      ensures View(x) == old(View(x)).(input := old(In(x)) + bytes) && View(y) == old(View(y))
    {
      hide Space.Valid, OnlyChanged, Queued;
      ghost var before := space.entries;
      QueuedAt(before, x.event.input);
      var _ := space.Write(x.event.input, bytes);
      AllUntouched(before, {x.event.input}, x, y);
      QueuedAt(space.entries, x.event.input);
    }

    /** Bytes from the socket go to the in-buffer. */
    method Receive(x: Context, ghost y: Context, bytes: Bytes)
      requires ValidFor(x, y) && x.end == Open
      modifies space.Repr, x
      ensures ValidFor(x, y) && fresh(space.Repr - old(space.Repr))
      ensures View(x) == old(View(x)).(input := old(In(x)) + bytes, received := old(x.received) + bytes)
      ensures View(y) == old(View(y))
    {
      hide Space.Valid, Consistent, Queued;
      ghost var v, w := View(x), View(y);
      Basics(v, w);
      AfterReceive(v, w, bytes);
      Append(x, y, bytes);
      x.received := x.received + bytes;
      assert View(x) == v.(input := v.input + bytes, received := v.received + bytes);
      assert View(y) == w;
    }

    /** One round of the read loop: read, append, and call the read callback. `more` says whether the event is still
        there and reads on. */
    method ReadOnce(x: Context, y: Context, bytes: Bytes) returns (more: bool)
      requires ValidFor(x, y) && x.end == Open && x.event.readOn && bytes != []
      requires Lingers(x) && Lingers(y)
      modifies Around(x, y)
      ensures ValidFor(x, y) && fresh(space.Repr - old(space.Repr)) && Lingers(x) && Lingers(y)
      ensures x.received == old(x.received) + bytes
      ensures x.end == (if more then Open else Drained) && x.event.readOn == more
      ensures Fed(old(View(x)), old(View(y)), View(x), View(y))
    {
      hide Space.Valid, Consistent, Queued, FlushedAs, Widowed, Pair.View, Fed;
      ghost var v, w := View(x), View(y);
      Seen(x);
      Basics(v, w);
      Receive(x, y, bytes);
      Seen(x);
      Seen(y);
      if x.draining {
        DrainingIs(v, w, View(x));
      } else {
        var ok; ghost var u;
        ok, u := Forward(x, y);
        OnceIs(v, w, bytes, u, View(x), View(y), ok);
        Seen(x);
      }
      more := x.end == Open && x.event.readOn;
    }

    /** What follows the read loop: flush after data or when the socket would block; otherwise the stream has ended, and
        the read callback gets a last chance before the event is closed. */
    method AfterReading(x: Context, y: Context, last: ReadResult)
      requires ValidFor(x, y) && x.end == Open
      requires Lingers(x) && Lingers(y)
      modifies Around(x, y)
      ensures ValidFor(x, y) && fresh(space.Repr - old(space.Repr)) && Lingers(x) && Lingers(y)
      ensures Ends(last) ==> EndedAs(old(View(x)), old(View(y)), View(x), View(y))
      ensures !Ends(last) ==> WriteAs(old(View(x)), old(View(y)), View(x), View(y))
    {
      hide Space.Valid, Consistent, Queued, FlushedAs, Closes, Widowed, Pair.View, WriteAs, EndedAs;
      if Data(last) || last == Blocked {
        ghost var v, w := View(x), View(y);
        Seen(x);
        Basics(v, w);
        SetWrite(x, y, true);
        var ok; ghost var u;
        ok, u := WriteData(x, y);
        WriteIs(v, w, u, View(x), View(y), ok);
        return;
      }
      EndOfStream(x, y);
    }

    /** The end of a stream: the read callback if bytes are waiting, and then the close. */
    method EndOfStream(x: Context, y: Context)
      requires ValidFor(x, y) && x.end == Open
      requires Lingers(x) && Lingers(y)
      modifies Around(x, y)
      ensures ValidFor(x, y) && fresh(space.Repr - old(space.Repr)) && Lingers(x) && Lingers(y)
      ensures EndedAs(old(View(x)), old(View(y)), View(x), View(y))
    {
      hide Space.Valid, Consistent, Queued, FlushedAs, Widowed, Pair.View, EndedAs;
      ghost var v, w := View(x), View(y);
      Seen(x);
      Seen(y);
      Basics(v, w);
      var waiting := space.Length(x.event.input);
      if waiting > 0 && !x.draining {
        ForwardLast(x, y);
      } else {
        Close(x, y, true);
        ClosedIs(v, w, View(x), View(y));
      }
    }

    /** The last call of the read callback, with bytes waiting, and the close, if the event is still there. */
    method ForwardLast(x: Context, y: Context)
      requires ValidFor(x, y) && x.end == Open && !x.draining && In(x) != []
      modifies Around(x, y)
      ensures ValidFor(x, y) && fresh(space.Repr - old(space.Repr)) && Lingers(x) && Lingers(y)
      ensures EndedAs(old(View(x)), old(View(y)), View(x), View(y))
    {
      hide Space.Valid, Consistent, Queued, FlushedAs, Pair.View, EndedAs, Closes;
      ghost var v, w := View(x), View(y);
      Seen(x);
      Basics(v, w);
      var ok; ghost var u;
      ok, u := Forward(x, y);
      ghost var v1, w1 := View(x), View(y);
      Seen(x);
      if x.end == Open {
        Close(x, y, true);
      }
      EndIs(v, w, u, v1, w1, View(x), View(y), ok);
    }

    /** The read loop, for a socket that answers `arrivals` and then blocks. */
    method ReadLoop(x: Context, y: Context, arrivals: seq<ReadResult>) returns (last: ReadResult, taken: nat)
      requires ValidFor(x, y) && x.end == Open && x.event.readOn
      requires Lingers(x) && Lingers(y)
      modifies Around(x, y)
      ensures ValidFor(x, y) && fresh(space.Repr - old(space.Repr)) && Lingers(x) && Lingers(y)
      ensures taken <= |arrivals| && x.received == old(x.received) + Gathered(arrivals[..taken])
      ensures forall i :: 0 <= i < taken ==> Data(arrivals[i])
      ensures x.end in {Open, Drained} && (x.end == Drained ==> taken > 0 && !old(x.draining))
      ensures x.end == Open ==> x.event.readOn && !Data(last)
      ensures x.end == Open ==> last == if taken < |arrivals| then arrivals[taken] else Blocked
      ensures taken == 0 ==> View(x) == old(View(x)) && View(y) == old(View(y))
      ensures taken > 0 ==> Fed(old(View(x)), old(View(y)), View(x), View(y))
    {
      hide Space.Valid, Gathered, Consistent, Queued, Fed, Pair.View;
      var more := true;
      last, taken := Blocked, 0;
      GatheredNone(arrivals);
      while more
        invariant ValidFor(x, y) && fresh(space.Repr - old(space.Repr)) && Lingers(x) && Lingers(y)
        invariant taken <= |arrivals| && x.received == old(x.received) + Gathered(arrivals[..taken])
        invariant forall i :: 0 <= i < taken ==> Data(arrivals[i])
        invariant x.end == if more then Open else Drained
        invariant x.event.readOn == more && (!more ==> taken > 0 && !old(x.draining))
        invariant old(x.draining) ==> x.draining
        invariant taken == 0 ==> View(x) == old(View(x)) && View(y) == old(View(y))
        invariant taken > 0 ==> Fed(old(View(x)), old(View(y)), View(x), View(y))
        decreases |arrivals| - taken, more
      {
        last := if taken < |arrivals| then arrivals[taken] else Blocked;
        if !Data(last) {
          break;
        }
        ghost var v, w := View(x), View(y);
        Seen(x);
        more := ReadOnce(x, y, last.bytes);
        Seen(x);
        FedEnds(v, w, View(x), View(y));
        if taken > 0 {
          FedMore(old(View(x)), old(View(y)), v, w, View(x), View(y));
        }
        GatheredNext(arrivals, taken);
        taken := taken + 1;
      }
    }

    /** `docket_on_event_read`. Of the socket's answers the first `taken` bring data, all of which is received. */
    method OnEventRead(x: Context, y: Context, arrivals: seq<ReadResult>) returns (taken: nat)
      requires ValidFor(x, y) && x.end == Open
      requires Lingers(x) && Lingers(y)
      modifies Around(x, y)
      ensures ValidFor(x, y) && fresh(space.Repr - old(space.Repr)) && Lingers(x) && Lingers(y)
      ensures ReadAs(old(View(x)), old(View(y)), View(x), View(y), arrivals, taken)
    {
      hide Space.Valid, Gathered, Consistent, Queued, ReadAs, Fed, EndedAs, WriteAs, Pair.View;
      ghost var v, w := View(x), View(y);
      Seen(x);
      Basics(v, w);
      SetWrite(x, y, false);
      Seen(x);
      if !x.event.readOn {
        NotReadIs(v, w, arrivals);
        return 0;
      }
      var last;
      last, taken := ReadLoop(x, y, arrivals);
      ghost var v1, w1 := View(x), View(y);
      Seen(x);
      Basics(v1, w1);
      if x.end == Open {
        AfterReading(x, y, last);
      }
      Basics(View(x), View(y));
      ReadIs(v, w, v1, w1, View(x), View(y), arrivals, taken, last);
    }

    /** What has become of the bytes that `x` received, if no send of `y` was short: all that was relayed to `y` was
        sent or is waiting there, and has been sent when `y` was drained; nothing else waits at `x` while it is up, and
        nothing did when its stream ended. */
    ghost predicate Kept(x: Context, y: Context)
      reads x, y, space
    {
      y.whole ==>
        && (y.end == Open ==> y.wire + Out(y) == x.relayed)
        && (y.end == Drained ==> y.wire == x.relayed)
        && (x.end == Open ==> x.relayed + In(x) == x.received)
        && (x.end == Eof ==> x.relayed == x.received)
    }

    /** A whole run: readiness on both sockets in any order. Whatever comes, the state stays consistent; nothing is lost
        on the way to a side that is up, draining or not, and a side freed after its peer has sent what it was given.
        `trace` holds the two sides before the first step and after each one. */
    method Run(steps: seq<Step>) returns (ghost trace: seq<(Side, Side)>)
      requires Valid() && Lingers(server) && Lingers(remote)
      modifies Around(server, remote)
      ensures Valid() && Lingers(server) && Lingers(remote) && fresh(space.Repr - old(space.Repr))
      ensures |trace| == |steps| + 1
      ensures trace[0] == old((View(server), View(remote))) && trace[|steps|] == (View(server), View(remote))
      ensures forall i :: 0 <= i < |steps| ==> Stepped(steps[i], trace[i], trace[i + 1])
      ensures Kept(server, remote) && Kept(remote, server)
      ensures server.end == remote.end == Open && server.whole && remote.whole ==>
                && remote.wire + Out(remote) + In(server) == server.received
                && server.wire + Out(server) + In(remote) == remote.received
    {
      hide Space.Valid, Consistent, Pair.Shape, Pair.Lingers, Pair.View, Stepped;
      trace := [(View(server), View(remote))];
      for i := 0 to |steps|
        invariant Valid() && Lingers(server) && Lingers(remote) && fresh(space.Repr - old(space.Repr))
        invariant |trace| == i + 1
        invariant trace[0] == old((View(server), View(remote))) && trace[i] == (View(server), View(remote))
        invariant forall k :: 0 <= k < i ==> Stepped(steps[k], trace[k], trace[k + 1])
      {
        Take(steps[i]);
        trace := trace + [(View(server), View(remote))];
      }
      Turned(server, remote);
      Outcome(server, remote);
      Outcome(remote, server);
    }

    /** One step of the event loop. */
    method Take(step: Step)
      requires Valid() && Lingers(server) && Lingers(remote)
      modifies Around(server, remote)
      ensures Valid() && Lingers(server) && Lingers(remote) && fresh(space.Repr - old(space.Repr))
      ensures Stepped(step, old((View(server), View(remote))), (View(server), View(remote)))
    {
      hide Space.Valid, Consistent, Pair.Shape, Pair.Lingers, Pair.View, ReadAs, WriteAs;
      var x, y := if step.atServer then server else remote, if step.atServer then remote else server;
      ghost var v, w := View(x), View(y);
      Seen(x);
      if x.end == Open {
        Turned(server, remote);
        if step.Readable? {
          var taken := OnEventRead(x, y, step.arrivals);
          assert ReadAs(v, w, View(x), View(y), step.arrivals, taken);
        } else {
          OnEventWrite(x, y);
        }
        Turned(x, y);
      }
      assert SteppedAs(step, v, w, View(x), View(y));
    }

    lemma Outcome(x: Context, y: Context)
      requires ValidFor(x, y)
      ensures Kept(x, y)
      ensures x.end == y.end == Open && y.whole ==> y.wire + Out(y) + In(x) == x.received
    {
      if x.end == y.end == Open {
        Conservation(x, y);
      }
    }

    /** While both sides are up and no send was short, what the socket of one side took, what waits in its out-buffer
        and what waits in the other side's in-buffer are, in this order, what the other side has received. */
    lemma Conservation(x: Context, y: Context)
      requires ValidFor(x, y) && x.end == Open && y.end == Open
      ensures y.whole ==> y.wire + Out(y) + In(x) == x.received
      ensures !y.whole ==> |y.wire + Out(y) + In(x)| < |x.received|
    {
    }

    /** A side that was freed because its peer had ended has sent all that was relayed to it, and after an end of the
        peer's stream all that the peer ever received, exactly if no send was short. */
    lemma DrainBeforeClose(x: Context, y: Context)
      requires ValidFor(x, y) && y.end == Drained
      ensures y.wire == x.relayed <==> y.whole
      ensures x.end == Eof ==> (y.wire == x.received <==> y.whole)
    {
    }
  }

  /** A read that brought at least one byte. */
  predicate Data(r: ReadResult)
  {
    r.Got? && r.bytes != []
  }

  ghost function Gathered(arrivals: seq<ReadResult>): Bytes
  {
    if arrivals == [] then [] else
      Gathered(arrivals[..|arrivals| - 1]) + var last := arrivals[|arrivals| - 1]; if last.Got? then last.bytes else []
  }

  lemma GatheredNone(arrivals: seq<ReadResult>)
    ensures Gathered(arrivals[..0]) == []
  {
  }

  lemma GatheredNext(arrivals: seq<ReadResult>, i: nat)
    requires i < |arrivals| && arrivals[i].Got?
    ensures Gathered(arrivals[..i + 1]) == Gathered(arrivals[..i]) + arrivals[i].bytes
  {
    assert arrivals[..i + 1][..i] == arrivals[..i];
  }

  lemma StreamedBehind(wire: Bytes, left: Bytes, total: Bytes, more: Bytes, whole: bool)
    requires Streamed(wire, left, total, whole)
    ensures Streamed(wire, left + more, total + more, whole)
  {
    assert wire + (left + more) == (wire + left) + more;
  }
}
