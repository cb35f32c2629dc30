/** The flush loop of devent/write.c and the write half of devent/event.c, over the buffers of one process.
    `ev` is kept as its two bits; what the kernel answers to sends is arbitrary, and known to the model beforehand. */
module Event {
  import opened Wire
  import opened Chunks
  import opened Buffer
  import opened BufferSpace

  /** What the kernel answers to a send: it took some of the offered bytes, it would block, or it failed. */
  datatype SendResult = Took(n: nat) | Again | Failed

  /** `sent` went out of a queue that held `before` and holds `left` now. When every send took a whole chunk nothing
      is lost or reordered; otherwise bytes are missing for good. */
  ghost predicate Streamed(sent: Bytes, left: Bytes, before: Bytes, whole: bool)
  {
    if whole then sent + left == before else |sent| + |left| < |before|
  }

  lemma StreamedMore(wire: Bytes, sent: Bytes, left: Bytes, before: Bytes, total: Bytes, whole: bool, more: bool)
    requires Streamed(wire, before, total, whole) && Streamed(sent, left, before, more)
    ensures Streamed(wire + sent, left, total, whole && more)
  {
    assert (wire + sent) + left == wire + (sent + left);
  }

  predicate Accepts(a: SendResult)
  {
    a.Took? && a.n > 0
  }

  /** Of the answers `all`, those before `rest` were used, and each of them took something. */
  ghost predicate Drains(all: seq<SendResult>, rest: seq<SendResult>)
  {
    && |rest| <= |all| && rest == all[|all| - |rest|..]
    && forall i :: 0 <= i < |all| - |rest| ==> Accepts(all[i])
  }

  /** The last answer used is `a`, and each one before it took something. */
  ghost predicate EndsWith(all: seq<SendResult>, rest: seq<SendResult>, a: SendResult)
  {
    |rest| < |all| && all[|all| - |rest| - 1] == a && Drains(all, [a] + rest)
  }

  /** The socket would block: it has said so, or all its answers were used and it took something each time. */
  ghost predicate Blocks(all: seq<SendResult>, rest: seq<SendResult>)
  {
    EndsWith(all, rest, Again) || (rest == [] && Drains(all, rest))
  }

  /** The last send failed. */
  ghost predicate Breaks(all: seq<SendResult>, rest: seq<SendResult>)
  {
    EndsWith(all, rest, Failed) || EndsWith(all, rest, Took(0))
  }

  /** Every answer that was used and took something took all it was offered, whatever that was. */
  ghost predicate Ample(all: seq<SendResult>, rest: seq<SendResult>)
  {
    forall i :: 0 <= i < |all| - |rest| && Accepts(all[i]) ==> all[i].n >= 4096
  }

  /** `rest` is what is left of the answers `all`. */
  ghost predicate Suffix(all: seq<SendResult>, rest: seq<SendResult>)
  {
    |rest| <= |all| && rest == all[|all| - |rest|..]
  }

  /** The last answer used was that the socket would block, or none is left. */
  ghost predicate Stalled(all: seq<SendResult>, rest: seq<SendResult>)
  {
    Suffix(all, rest) && (rest == [] || (|rest| < |all| && all[|all| - |rest| - 1] == Again))
  }

  /** The last answer used was a failure. */
  ghost predicate Failing(all: seq<SendResult>, rest: seq<SendResult>)
  {
    Suffix(all, rest) && |rest| < |all| && all[|all| - |rest| - 1] in {Failed, Took(0)}
  }

  /** What a flush says of its answers, said of more answers. */
  lemma Later(all: seq<SendResult>, middle: seq<SendResult>, rest: seq<SendResult>)
    requires Suffix(all, middle)
    ensures Drains(middle, rest) ==> Suffix(all, rest)
    ensures Blocks(middle, rest) ==> Stalled(all, rest)
    ensures Breaks(middle, rest) ==> Failing(all, rest)
  {
    if Drains(middle, rest) || Blocks(middle, rest) || Breaks(middle, rest) {
      assert |rest| <= |middle| && rest == middle[|middle| - |rest|..] by {
        forall a | EndsWith(middle, rest, a) ensures rest == middle[|middle| - |rest|..] {
          assert ([a] + rest)[1..] == rest;
        }
      }
      var k := |all| - |rest|;
      assert all[k..] == rest;
      if |rest| < |middle| {
        assert all[k - 1] == middle[|middle| - |rest| - 1];
      }
    }
  }

  lemma DrainsNothing(all: seq<SendResult>)
    ensures Drains(all, all) && Ample(all, all)
  {
  }

  lemma DrainsNext(all: seq<SendResult>, rest: seq<SendResult>)
    requires Drains(all, rest) && rest != []
    ensures Accepts(rest[0]) <==> Drains(all, rest[1..])
    ensures EndsWith(all, rest[1..], rest[0])
    ensures Ample(all, rest[1..]) ==> Ample(all, rest)
    ensures Ample(all, rest[1..]) && Accepts(rest[0]) ==> rest[0].n >= CHUNK_SIZE
  {
    var k := |all| - |rest|;
    assert all[k] == rest[0] && all[k + 1..] == rest[1..] && [rest[0]] + rest[1..] == rest;
  }

  lemma DrainsWithin(all: seq<SendResult>, rest: seq<SendResult>)
    requires Drains(all, rest)
    ensures |rest| <= |all|
  {
  }

  predicate AllAccept(all: seq<SendResult>)
  {
    forall a :: a in all ==> Accepts(a)
  }

  lemma AcceptedThroughout(all: seq<SendResult>, rest: seq<SendResult>)
    requires AllAccept(all)
    ensures !Breaks(all, rest) && (Blocks(all, rest) ==> rest == [] && Drains(all, rest))
  {
    if |rest| < |all| {
      assert all[|all| - |rest| - 1] in all;
    }
  }

  class DocketEvent {
    const input: DocketBuffer
    const output: DocketBuffer
    var readOn: bool
    var writeOn: bool
    var answers: seq<SendResult>  // what the socket will answer to sends; then it would block

    constructor (input: DocketBuffer, output: DocketBuffer, answers: seq<SendResult>)
      ensures this.input == input && this.output == output && readOn && writeOn && this.answers == answers
    {
      this.input, this.output, this.answers := input, output, answers;
      readOn, writeOn := true, true;
    }

    /** What the kernel says to the next send. */
    method NextAnswer() returns (a: SendResult)
      modifies this`answers
      ensures if old(answers) == [] then a == Again && answers == [] else [a] + answers == old(answers)
    {
      if answers == [] {
        return Again;
      }
      a := answers[0];
      answers := answers[1..];
    }

    /** What one send of the flush loop does, for every answer: the head chunk leaves the queue if any of it was taken,
        and writing is switched off, or the send has failed, if nothing was. */
    ghost predicate SentHead(head: Bytes, answer: SendResult, sent: Bytes, before: Bytes, left: Bytes, whole: bool)
    {
      var n := if !answer.Took? then 0 else if answer.n < |head| then answer.n else |head|;
      && sent == head[..n]
      && (whole <==> n == 0 || n == |head|)
      && before == (if n == 0 then [] else head) + left
    }

    /** One send of the flush loop. */
    method SendOnce(space: Space, answer: SendResult) returns (ok: bool, ghost sent: Bytes, ghost whole: bool)
      requires space.Valid() && output in space.entries && this !in space.Repr
      requires writeOn && space.entries[output].content != []
      modifies space.Repr, this`writeOn
      ensures space.Valid() && fresh(space.Repr - old(space.Repr))
      ensures OnlyChanged(old(space.entries), space.entries, {output})
      ensures SentHead(old(space.Head(output)), answer, sent, old(space.entries[output].content),
                       space.entries[output].content, whole)
      ensures Streamed(sent, space.entries[output].content, old(space.entries[output].content), whole)
      ensures ok && writeOn ==>
                |space.entries[output].content| < |old(space.entries[output].content)|
      ensures !ok || !writeOn ==> sent == [] && space.entries[output].content == old(space.entries[output].content)
      ensures writeOn <==> answer != Again
      ensures ok <==> answer == Again || Accepts(answer)
      ensures !whole ==> Accepts(answer) && answer.n < CHUNK_SIZE
    {
      hide Space.Valid, Space.Head;
      sent, whole := [], true;
      var offered := space.Offered(output);
      var taken := if answer.Took? then if answer.n < offered then answer.n else offered else 0;
      var wr;
      wr, sent := space.Send(output, taken);
      ok := true;
      if wr == -1 {
        if answer == Again {
          writeOn := false;
        } else {
          ok := false;
        }
      } else {
        whole := taken == offered;
      }
    }

    /** One round of the flush loop: an answer of the kernel and what it does. */
    method Round(space: Space, ghost all: seq<SendResult>) returns (ok: bool, ghost sent: Bytes, ghost whole: bool)
      requires space.Valid() && output in space.entries && this !in space.Repr
      requires writeOn && space.entries[output].content != [] && Drains(all, answers)
      modifies space.Repr, this`writeOn, this`answers
      ensures space.Valid() && fresh(space.Repr - old(space.Repr)) && this !in space.Repr
      ensures OnlyChanged(old(space.entries), space.entries, {output})
      ensures Streamed(sent, space.entries[output].content, old(space.entries[output].content), whole)
      ensures |answers| <= |all| && (Ample(all, answers) ==> whole && Ample(all, old(answers)))
      ensures ok && writeOn ==>
                && |space.entries[output].content| < |old(space.entries[output].content)|
                && Drains(all, answers) && |answers| + 1 == |old(answers)|
      ensures !ok || !writeOn ==> space.entries[output].content == old(space.entries[output].content)
      ensures ok && !writeOn ==> Blocks(all, answers)
      ensures ok && !writeOn && Drains(all, answers) ==> answers == old(answers)
      ensures !ok ==> writeOn && Breaks(all, answers)
    {
      hide Space.Valid, Streamed, Drains, EndsWith, Ample;
      ghost var rest := answers;
      DrainsWithin(all, rest);
      if rest != [] {
        DrainsNext(all, rest);
      }
      var answer := NextAnswer();
      assert rest != [] ==> answers == rest[1..] && answer == rest[0];
      ok, sent, whole := SendOnce(space, answer);
    }

    /** The body of `devent_write_data` up to the write callback. The result says whether the event stays open: on a
        failed send it is to be closed. The loop ends because each round shortens the queue or switches writing off;
        it sends until the queue is empty, and stops before only because the socket would block or a send failed. */
    method Flush(space: Space) returns (ok: bool, ghost sent: Bytes, ghost whole: bool)
      requires space.Valid() && output in space.entries && this !in space.Repr
      modifies space.Repr, this`writeOn, this`answers
      ensures space.Valid() && fresh(space.Repr - old(space.Repr))
      ensures OnlyChanged(old(space.entries), space.entries, {output})
      ensures Streamed(sent, space.entries[output].content, old(space.entries[output].content), whole)
      ensures !old(writeOn) ==>
                ok && writeOn && sent == [] && whole && space.entries == old(space.entries) && answers == old(answers)
      ensures old(writeOn) && ok && writeOn ==> space.entries[output].content == [] && Drains(old(answers), answers)
      ensures old(writeOn) && ok && writeOn ==> |old(answers)| - |answers| <= |old(space.entries[output].content)|
      ensures old(writeOn) && ok && !writeOn ==> space.entries[output].content != [] && Blocks(old(answers), answers)
      ensures old(writeOn) && !ok ==>
                writeOn && space.entries[output].content != [] && Breaks(old(answers), answers)
      ensures |answers| <= |old(answers)| && (Ample(old(answers), answers) ==> whole)
      ensures old(writeOn) && AllAccept(old(answers)) && |old(space.entries[output].content)| <= |old(answers)| ==>
                ok && writeOn
    {
      hide Space.Valid, Streamed, Drains, EndsWith, Ample, AllAccept;
      ok, sent, whole := true, [], true;
      StreamedNothing(space.entries[output].content);
      DrainsNothing(answers);
      if !writeOn {
        writeOn := true;
        return;
      }
      ghost var all := answers;
      var length := space.Length(output);
      while writeOn && length > 0
        invariant space.Valid() && fresh(space.Repr - old(space.Repr)) && this !in space.Repr
        invariant OnlyChanged(old(space.entries), space.entries, {output})
        invariant length == |space.entries[output].content|
        invariant Streamed(sent, space.entries[output].content, old(space.entries[output].content), whole)
        invariant |answers| <= |all| && (Ample(all, answers) ==> whole)
        invariant if writeOn then Drains(all, answers) else length > 0 && Blocks(all, answers)
        invariant Drains(all, answers) ==> length + |all| - |answers| <= |old(space.entries[output].content)|
        decreases writeOn, length
      {
        ghost var more, wholly, queued := [], true, space.entries[output].content;
        ok, more, wholly := Round(space, all);
        StreamedMore(sent, more, space.entries[output].content, queued, old(space.entries[output].content), whole,
                     wholly);
        sent, whole := sent + more, whole && wholly;
        if !ok {
          if AllAccept(all) {
            AcceptedThroughout(all, answers);
          }
          return;
        }
        length := space.Length(output);
      }
      if AllAccept(all) {
        AcceptedThroughout(all, answers);
      }
    }
  }

  lemma StreamedNothing(queue: Bytes)
    ensures Streamed([], queue, queue, true)
  {
    assert [] + queue == queue;
  }
}
