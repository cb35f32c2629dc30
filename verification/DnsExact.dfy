/** How exact the text of `get_name` is, against the labels that RFC 1035 reads. */
module DnsExact {
  import opened Wire
  import opened DnsNames

  /** The labels joined by dots, whatever bytes they hold. */
  ghost function Dotted(acc: Text, labels: seq<Bytes>): Text
    decreases |labels|
  {
    if labels == [] then acc else Dotted(Append(acc, labels[0]), labels[1..])
  }

  /** No label holds this byte. */
  ghost predicate Free(b: byte, labels: seq<Bytes>)
  {
    forall l :: l in labels ==> b !in l
  }

  ghost predicate ZeroFree(t: Text)
  {
    t.Some? ==> 0 !in t.value
  }

  /** The labels as C strings. */
  ghost function Cut(labels: seq<Bytes>): (r: seq<Bytes>)
    ensures |r| == |labels|
  {
    seq(|labels|, i requires 0 <= i < |labels| => CStr(labels[i]))
  }

  lemma {:induction false} TextIsCut(acc: Text, labels: seq<Bytes>)
    ensures TextOf(acc, labels) == Dotted(acc, Cut(labels))
    decreases |labels|
  {
    if labels != [] {
      TextIsCut(Append(acc, CStr(labels[0])), labels[1..]);
      assert Cut(labels)[1..] == Cut(labels[1..]);
    }
  }

  lemma {:induction false} CStrHasNoZero(b: Bytes)
    ensures 0 !in CStr(b)
  {
    if b != [] {
      CStrHasNoZero(b[1..]);
    }
  }

  lemma CutIs(labels: seq<Bytes>)
    ensures Free(0, Cut(labels)) && (Free(0, labels) ==> Cut(labels) == labels)
  {
    forall i | 0 <= i < |labels|
      ensures 0 !in Cut(labels)[i] && (0 !in labels[i] ==> Cut(labels)[i] == labels[i])
    {
      CStrHasNoZero(labels[i]);
      if 0 !in labels[i] {
        CStrOf(labels[i]);
      }
    }
  }

  lemma AppendHolds(acc: Text, piece: Bytes, b: byte)
    ensures b in Append(acc, piece).value <==> b in piece || (acc.Some? && (b in acc.value || b == DOT))
  {
    hide CStr;
    if acc.Some? {
      var x := acc.value + [DOT] + piece;
      assert forall c :: c in x <==> c in acc.value || c == DOT || c in piece;
    }
  }

  /** A zero in the joined text comes from a label. */
  lemma {:induction false} DottedZeroFree(acc: Text, labels: seq<Bytes>)
    requires acc.Some? || labels != []
    ensures Dotted(acc, labels).Some? && (ZeroFree(Dotted(acc, labels)) <==> ZeroFree(acc) && Free(0, labels))
    decreases |labels|
  {
    if labels != [] {
      var first, rest := labels[0], labels[1..];
      AppendHolds(acc, first, 0);
      DottedZeroFree(Append(acc, first), rest);
      assert labels == [first] + rest;
      assert forall l :: l in labels <==> l == first || l in rest;
    }
  }

  /** The decoder's text for the name at `pos` is that of the RFC's labels, and the size is that in place. */
  ghost predicate IsRfc(data: Bytes, n: nat, start: nat, pos: nat, acc: Text)
    requires RfcOk(data, start, pos)
  {
    && Readable(data, n, pos)
    && Decode(data, n, pos, acc) == Some((RfcSize(data, start, pos), Dotted(acc, RfcLabels(data, start, pos))))
  }

  /** Exactly when `get_name` returns the text of the name that the RFC means, with its size in place: no pointer to a
      root stands behind a label, and no label holds a zero. */
  lemma RfcExactly(data: Bytes, n: nat, start: nat, pos: nat, acc: Text)
    requires RfcOk(data, start, pos) && Below(data, start, pos) && start <= n && ZeroFree(acc)
    ensures IsRfc(data, n, start, pos, acc) <==>
            !Rooted(data, start, pos, acc.Some?) && Free(0, RfcLabels(data, start, pos))
  {
    hide Readable, Decode, TextOf, Append, Rooted, RfcLabels, Dotted, Free, CStr, Cut;
    var labels := RfcLabels(data, start, pos);
    var text := TextOf(acc, labels);
    DecodeIsSpelled(data, n, start, pos, acc);
    AppendSome(text, NULL_TEXT);
    TextIsCut(acc, labels);
    CutIs(labels);
    SpelledHasNoZero(acc, labels);
    if !Free(0, labels) {
      NotFree(labels);
      DottedZeroFree(acc, labels);
    }
  }

  lemma NotFree(labels: seq<Bytes>)
    requires !Free(0, labels)
    ensures labels != []
  {
  }

  lemma SpelledHasNoZero(acc: Text, labels: seq<Bytes>)
    requires ZeroFree(acc)
    ensures ZeroFree(TextOf(acc, labels)) && ZeroFree(Append(TextOf(acc, labels), NULL_TEXT))
  {
    hide Append, TextOf, Dotted;
    TextIsCut(acc, labels);
    CutIs(labels);
    if labels == [] {
      TextOfNone(acc);
    } else {
      DottedZeroFree(acc, Cut(labels));
    }
    AppendHolds(TextOf(acc, labels), NULL_TEXT, 0);
  }

  /** So it does on names whose pointers never lead to a root and whose labels hold no zero. */
  lemma DecodeIsRfc(data: Bytes, n: nat, lo: nat, start: nat, pos: nat, acc: Text)
    requires RfcOk(data, start, pos) && Modest(data, lo, start, pos) && start <= n
    requires ZeroFree(acc) && Free(0, RfcLabels(data, start, pos))
    ensures IsRfc(data, n, start, pos, acc)
  {
    ModestIsBelow(data, lo, start, pos, acc.Some?);
    RfcExactly(data, n, start, pos, acc);
  }

  /** A packet with one label of three bytes, the second of them a zero. */
  const ZERO_LABEL: Bytes := [3, 97, 0, 98, 0]

  /** Without any pointer, a name comes out as another one, `a`. */
  lemma ZeroLabelMisread()
    ensures RfcOk(ZERO_LABEL, 0, 0) && Below(ZERO_LABEL, 0, 0) && !Rooted(ZERO_LABEL, 0, 0, false)
    ensures RfcLabels(ZERO_LABEL, 0, 0) == [[97, 0, 98]]
    ensures Readable(ZERO_LABEL, 5, 0) && Decode(ZERO_LABEL, 5, 0, None) == Some((5, Some([97])))
  {
    var p := ZERO_LABEL;
    assert !IsPointer(3);
    assert RfcOk(p, 0, 4) && RfcLabels(p, 0, 4) == [] && Readable(p, 5, 4);
    assert p[1..4] == [97, 0, 98] && [97, 0, 98][1..] == [0, 98] && CStr([0, 98]) == [];
    assert CStr([97, 0, 98]) == [97];
    assert Decode(p, 5, 4, Some([97])) == Some((1, Some([97])));
  }

  lemma {:induction false} DottedNext(acc: Text, labels: seq<Bytes>, l: Bytes)
    ensures Dotted(acc, labels + [l]) == Append(Dotted(acc, labels), l)
    decreases |labels|
  {
    if labels == [] {
      assert [] + [l] == [l];
      assert [l][1..] == [];
    } else {
      assert (labels + [l])[1..] == labels[1..] + [l];
      DottedNext(Append(acc, labels[0]), labels[1..], l);
    }
  }

  /** All labels, each split at its own dots. */
  ghost function Splits(labels: seq<Bytes>): seq<Bytes>
  {
    if labels == [] then [] else Splits(labels[..|labels| - 1]) + Split(labels[|labels| - 1])
  }

  lemma SplitsNext(labels: seq<Bytes>, l: Bytes)
    ensures Splits(labels + [l]) == Splits(labels) + Split(l)
  {
    assert (labels + [l])[..|labels|] == labels;
  }

  lemma LastOf(s: Bytes)
    requires s != []
    ensures s == s[..|s| - 1] + [s[|s| - 1]]
  {
  }

  lemma NonEmptySplit(s: Bytes) returns (done: seq<Bytes>, last: Bytes)
    ensures Split(s) == done + [last]
  {
    hide Split;
    var n := |Split(s)| - 1;
    done, last := Split(s)[..n], Split(s)[n];
  }

  /** A dot between two texts separates their labels. */
  lemma {:induction false} SplitAppend(s: Bytes, t: Bytes)
    ensures Split(s + [DOT] + t) == Split(s) + Split(t)
    decreases |t|
  {
    hide Split;
    if t == [] {
      var done, last := NonEmptySplit(s);
      SplitNext(s, done, last, DOT);
      SplitOf(t);
      assert t[..0] == t && s + [DOT] + t == s + [DOT];
      ghost var none: seq<Bytes> := [];
      assert none + [[]] == [[]];
    } else {
      var front, c := t[..|t| - 1], t[|t| - 1];
      LastOf(t);
      SplitAppend(s, front);
      var done, last := NonEmptySplit(front);
      SplitNext(front, done, last, c);
      var whole := s + [DOT] + front;
      assert whole + [c] == s + [DOT] + t;
      assert Split(whole) == (Split(s) + done) + [last];
      SplitNext(whole, Split(s) + done, last, c);
    }
  }

  lemma {:induction false} SplitDotted(labels: seq<Bytes>)
    requires labels != []
    ensures Dotted(None, labels).Some? && Split(Dotted(None, labels).value) == Splits(labels)
    decreases |labels|
  {
    hide Split, Dotted, Splits;
    var front, last := labels[..|labels| - 1], labels[|labels| - 1];
    assert labels == front + [last];
    DottedNext(None, front, last);
    SplitsNext(front, last);
    if front == [] {
      DottedNone();
    } else {
      SplitDotted(front);
      SplitAppend(Dotted(None, front).value, last);
    }
  }

  lemma DottedNone()
    ensures Dotted(None, []) == None && Splits([]) == []
    ensures forall l: seq<Bytes> :: [] + l == l
  {
  }

  /** The labels of a text hold no dot, and no zero that the text does not. */
  lemma {:induction false} SplitParts(s: Bytes)
    ensures Free(DOT, Split(s)) && (0 !in s ==> Free(0, Split(s)))
    decreases |s|
  {
    hide Split;
    if s == [] {
      SplitOf(s);
      assert s[..0] == s;
    } else {
      var front, c := s[..|s| - 1], s[|s| - 1];
      LastOf(s);
      SplitParts(front);
      var done, last := NonEmptySplit(front);
      SplitNext(front, done, last, c);
      assert forall l :: l in done + [last] <==> l in done || l == last;
      assert forall l :: l in done + [last] + [[]] <==> l in done || l == last || l == [];
      assert forall l :: l in done + [last + [c]] <==> l in done || l == last + [c];
    }
  }

  lemma {:induction false} SplitWhole(l: Bytes)
    requires DOT !in l
    ensures Split(l) == [l]
    decreases |l|
  {
    hide Split;
    ghost var none: seq<Bytes> := [];
    if l == [] {
      SplitOf(l);
      assert l[..0] == l && none + [[]] == [[]];
    } else {
      var front, c := l[..|l| - 1], l[|l| - 1];
      LastOf(l);
      SplitWhole(front);
      assert none + [front] == [front];
      SplitNext(front, none, front, c);
      assert none + [front + [c]] == [l];
    }
  }

  lemma {:induction false} SplitsAre(labels: seq<Bytes>)
    ensures |Splits(labels)| >= |labels| && (Free(DOT, labels) ==> Splits(labels) == labels)
    decreases |labels|
  {
    hide Split, Splits;
    if labels == [] {
      DottedNone();
    } else {
      var front, last := labels[..|labels| - 1], labels[|labels| - 1];
      assert labels == front + [last];
      SplitsAre(front);
      SplitsNext(front, last);
      if Free(DOT, labels) {
        assert last in labels;
        SplitWhole(last);
      }
    }
  }

  /** The labels can be read back from the text. */
  ghost predicate Tells(text: Text, labels: seq<Bytes>)
  {
    text.Some? && Split(text.value) == labels
  }

  /** Exactly when the text of a name tells its labels: no pointer to a root stands behind a label, and no label holds a
      zero or a dot. */
  lemma LabelsExactly(data: Bytes, n: nat, pos: nat)
    requires RfcOk(data, pos, pos) && Below(data, pos, pos) && pos <= n && RfcLabels(data, pos, pos) != []
    ensures Readable(data, n, pos)
    ensures var labels := RfcLabels(data, pos, pos);
            Tells(Left(Decode(data, n, pos, None)), labels) <==>
            !Rooted(data, pos, pos, false) && Free(0, labels) && Free(DOT, labels)
  {
    hide Readable, Decode, TextOf, Append, Rooted, RfcLabels, Dotted, Free, CStr, Cut, Split, Splits;
    var labels := RfcLabels(data, pos, pos);
    DecodeIsSpelled(data, n, pos, pos, None);
    TextIsCut(None, labels);
    CutIs(labels);
    SpelledHasNoZero(None, labels);
    var m := if Rooted(data, pos, pos, false) then Cut(labels) + [NULL_TEXT] else Cut(labels);
    DottedNext(None, Cut(labels), NULL_TEXT);
    var text := Dotted(None, m);
    assert Left(Decode(data, n, pos, None)) == text && ZeroFree(text);
    SplitDotted(m);
    SplitsAre(m);
    SplitParts(text.value);
  }

  /** A packet with one label of three bytes, the second of them a dot. */
  const DOT_LABEL: Bytes := [3, 97, 46, 98, 0]

  /** Its text `a.b` is that of the two labels `a` and `b`. */
  lemma DotLabelAmbiguous()
    ensures RfcOk(DOT_LABEL, 0, 0) && RfcLabels(DOT_LABEL, 0, 0) == [[97, 46, 98]]
    ensures Readable(DOT_LABEL, 5, 0) && Decode(DOT_LABEL, 5, 0, None) == Some((5, Dotted(None, [[97], [98]])))
  {
    var p := DOT_LABEL;
    assert !IsPointer(3);
    assert RfcOk(p, 0, 4) && RfcLabels(p, 0, 4) == [] && Readable(p, 5, 4);
    assert p[1..4] == [97, 46, 98];
    CStrOf([97, 46, 98]);
    assert Decode(p, 5, 4, Some([97, 46, 98])) == Some((1, Some([97, 46, 98])));
    assert [[97], [98]][1..] == [[98]] && [[98]][1..] == [];
    assert [97] + [DOT] + [98] == [97, 46, 98];
  }
}
