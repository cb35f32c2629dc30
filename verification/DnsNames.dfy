/** Domain names of dns/c_dns.c: the decoder `get_name`, what RFC 1035 says a name is, and the encoder. */
module DnsNames {
  import opened Wire

  const DOT: byte := 46

  /** The text a null string is printed as. */
  const NULL_TEXT: Bytes := [40, 110, 117, 108, 108, 41]

  /** A name in text form; a null pointer for the root. */
  type Text = Option<Bytes>

  /** One more label behind a text. */
  function Append(acc: Text, piece: Bytes): Text
  {
    if acc == None then Some(piece) else Some(acc.value + [DOT] + piece)
  }

  /** How the code computes the target of a pointer: the two high bits end up four places too low. */
  function CodeTarget(high: byte, low: byte): nat
  {
    high % 4 * 16 + low
  }

  /** The target of a pointer in section 4.1.4 of RFC 1035. */
  function RfcTarget(high: byte, low: byte): nat
  {
    high % 64 * 256 + low
  }

  /** The code follows a pointer correctly exactly if it points below 256. */
  lemma TargetExact(high: byte, low: byte)
    ensures CodeTarget(high, low) == RfcTarget(high, low) <==> RfcTarget(high, low) < 256
  {
  }

  predicate IsPointer(b: byte)
  {
    b / 64 == 3
  }

  /** A length of 128 or more that is no pointer is negative as a signed character: `get_name` takes everything up to
      the next zero for the label and goes on before the length, here. */
  function Back(b: byte, pos: nat): int
  {
    pos + b - 255
  }

  /** `get_name` at `pos` stays inside the packet and ends after at most `n` jumps: pointers and negative lengths. */
  predicate Readable(data: Bytes, n: nat, pos: nat)
    decreases n, |data| - pos
  {
    pos < |data| &&
    var b := data[pos];
    if b == 0 then true
    else if IsPointer(b) then
      pos + 1 < |data| &&
      var t := CodeTarget(b, data[pos + 1]);
      t > |data| || (n > 0 && Readable(data, n - 1, t))
    else if b < 128 then pos + 1 + b < |data| && Readable(data, n, pos + 1 + b)
    else Back(b, pos) >= 0 && 0 in data[pos + 1..] && n > 0 && Readable(data, n - 1, Back(b, pos))
  }

  /** Where the first jump of the name at `pos` leads; nothing if its labels end with a zero, or leave the packet, or
      the jump does. */
  function Hop(data: Bytes, pos: nat): Option<nat>
    decreases |data| - pos
  {
    if pos >= |data| || data[pos] == 0 then None
    else if IsPointer(data[pos]) then
      if pos + 1 < |data| && CodeTarget(data[pos], data[pos + 1]) <= |data| then
        Some(CodeTarget(data[pos], data[pos + 1]))
      else None
    else if data[pos] < 128 then if pos + 1 + data[pos] < |data| then Hop(data, pos + 1 + data[pos]) else None
    else if Back(data[pos], pos) >= 0 && 0 in data[pos + 1..] then Some(Back(data[pos], pos))
    else None
  }

  /** After `n` jumps `get_name` has come to yet another one. */
  predicate Going(data: Bytes, n: nat, pos: nat)
  {
    var t := Hop(data, pos);
    t.Some? && (n == 0 || Going(data, n - 1, t.value))
  }

  lemma {:induction false} GoingLess(data: Bytes, n: nat, m: nat, pos: nat)
    requires Going(data, n, pos) && m <= n
    ensures Going(data, m, pos)
  {
    if m > 0 {
      GoingLess(data, n - 1, m - 1, Hop(data, pos).value);
    }
  }

  lemma HopInside(data: Bytes, pos: nat)
    requires Hop(data, pos).Some?
    ensures pos < |data|
  {
  }

  lemma {:induction false} BelowBound(s: set<nat>, n: nat)
    requires forall x :: x in s ==> x < n
    ensures |s| <= n
  {
    if n == 0 {
      assert s == {};
    } else {
      BelowBound(s - {n - 1}, n - 1);
    }
  }

  /** A chain of exactly `n` jumps has, with the places `seen` before it, no more places than the packet has
      bytes. */
  lemma {:induction false} ChainIsShort(data: Bytes, n: nat, pos: nat, seen: set<nat>)
    requires !Going(data, n, pos) && (n > 0 ==> Going(data, n - 1, pos))
    requires forall s :: s in seen ==> s < |data| && Going(data, n, s)
    ensures n + |seen| <= |data|
  {
    if n == 0 {
      BelowBound(seen, |data|);
    } else {
      HopInside(data, pos);
      forall s | s in seen + {pos}
        ensures s < |data| && Going(data, n - 1, s)
      {
        if s in seen {
          GoingLess(data, n, n - 1, s);
        }
      }
      ChainIsShort(data, n - 1, Hop(data, pos).value, seen + {pos});
    }
  }

  lemma {:induction false} StopsSoon(data: Bytes, n: nat, pos: nat)
    requires !Going(data, n, pos)
    ensures !Going(data, |data|, pos)
    decreases n
  {
    if n > 0 && !Going(data, n - 1, pos) {
      StopsSoon(data, n - 1, pos);
    } else {
      ChainIsShort(data, n, pos, {});
      if Going(data, |data|, pos) {
        GoingLess(data, |data|, n, pos);
      }
    }
  }

  lemma {:induction false} ReadableStops(data: Bytes, n: nat, m: nat, pos: nat)
    requires Readable(data, n, pos)
    ensures !Going(data, n, pos) && (!Going(data, m, pos) ==> Readable(data, m, pos))
    decreases n, |data| - pos
  {
    var b := data[pos];
    if b != 0 && IsPointer(b) {
      var t := CodeTarget(b, data[pos + 1]);
      if t <= |data| {
        ReadableStops(data, n - 1, if m > 0 then m - 1 else 0, t);
      }
    } else if 0 < b < 128 {
      ReadableStops(data, n, m, pos + 1 + b);
    } else if b != 0 {
      ReadableStops(data, n - 1, if m > 0 then m - 1 else 0, Back(b, pos));
    }
  }

  lemma GoingIsNoEnd(data: Bytes, n: nat, pos: nat)
    requires Going(data, n, pos)
    ensures !Readable(data, n, pos)
  {
    if Readable(data, n, pos) {
      ReadableStops(data, n, n, pos);
    }
  }

  /** When `get_name` ends: it goes on for ever if and only if it makes as many jumps as the packet has bytes, and a
      name that can be read at all can be read with fewer. */
  lemma EndsExactly(data: Bytes, pos: nat)
    ensures (forall n: nat :: Going(data, n, pos)) <==> Going(data, |data|, pos)
    ensures (exists n: nat :: Readable(data, n, pos)) <==> Readable(data, |data|, pos)
  {
    if n: nat :| !Going(data, n, pos) {
      StopsSoon(data, n, pos);
    }
    if n: nat :| Readable(data, n, pos) {
      ReadableStops(data, n, |data|, pos);
      StopsSoon(data, n, pos);
    }
  }

  /** A packet of 14 bytes with a pointer at 12 that leads to 12. */
  function SelfPointer(): (p: Bytes)
    ensures |p| == 14
  {
    seq(14, i requires 0 <= i < 14 => if i == 12 then 192 else if i == 13 then 12 else 0)
  }

  /** On that packet `get_name` never ends. */
  lemma {:induction false} SelfPointerNeverEnds(n: nat)
    ensures Going(SelfPointer(), n, 12) && !Readable(SelfPointer(), n, 12)
  {
    var p := SelfPointer();
    assert p[12] == 192 && p[13] == 12;
    assert CodeTarget(p[12], p[13]) == 12 && Hop(p, 12) == Some(12);
    if n > 0 {
      SelfPointerNeverEnds(n - 1);
    }
  }

  /** A packet of 90 bytes with a label of 63 letters at 12 and, behind it at 76, the length 191. */
  function BackwardLength(): (p: Bytes)
    ensures |p| == 90
  {
    seq(90, i requires 0 <= i < 90 => if i == 12 then 63 else if 13 <= i < 76 then 97 else if i == 76 then 191 else 0)
  }

  /** There `get_name` steps from 12 to 76 and back to 12 for ever, without a pointer. */
  lemma {:induction false} BackwardLengthNeverEnds(n: nat)
    ensures Going(BackwardLength(), n, 12) && !Readable(BackwardLength(), n, 12)
  {
    var p := BackwardLength();
    assert p[12] == 63 && p[76] == 191 && p[77..][0] == 0;
    assert !IsPointer(63) && !IsPointer(191) && Back(191, 76) == 12;
    assert Hop(p, 76) == Some(12) && Hop(p, 12) == Some(12);
    if n > 0 {
      BackwardLengthNeverEnds(n - 1);
    }
    GoingIsNoEnd(p, n, 12);
  }

  /** What `get_name` returns from `pos` on, `acc` being the text so far: nothing on a pointer beyond the packet, or
      else the size in place and the text. Errors of nested calls go unnoticed. */
  function Decode(data: Bytes, n: nat, pos: nat, acc: Text): Option<(int, Text)>
    requires Readable(data, n, pos)
    decreases n, |data| - pos
  {
    var b := data[pos];
    if b == 0 then Some((1, acc))
    else if IsPointer(b) then
      var t := CodeTarget(b, data[pos + 1]);
      if t > |data| then None else
        var left := Left(Decode(data, n - 1, t, None));
        Some((2, if acc == None then left else Append(acc, left.GetOr(NULL_TEXT))))
    else if b < 128 then
      Longer(b + 1, Decode(data, n, pos + 1 + b, Append(acc, CStr(data[pos + 1..pos + 1 + b]))))
    else
      Longer(Back(b, pos) - pos, Decode(data, n - 1, Back(b, pos), Append(acc, CStr(data[pos + 1..]))))
  }

  /** A packet of 67 bytes with the label `a` at 0 and, at 64, the length 191 before `x`. */
  function BackwardName(): (p: Bytes)
    ensures |p| == 67
  {
    seq(67, i requires 0 <= i < 67 =>
      if i == 0 then 1 else if i == 1 then 97 else if i == 64 then 191 else if i == 65 then 120 else 0)
  }

  /** There the name at 64 is read as `x.a`, and it ends 61 bytes before it began. */
  lemma BackwardLengthText()
    ensures Readable(BackwardName(), 1, 64)
    ensures Decode(BackwardName(), 1, 64, None) == Some((-61, Some([120, 46, 97])))
  {
    var p := BackwardName();
    assert p[64] == 191 && p[65..][0] == 120 && p[65..][1] == 0 && Back(191, 64) == 0;
    assert p[65..] == [120] + [0] + p[67..];
    CStrUpTo([120], p[67..]);
    assert p[0] == 1 && p[1] == 97 && p[2] == 0 && p[1..2] == [97];
    CStrOf([97]);
    assert Readable(p, 0, 2) && Readable(p, 0, 0);
    var x: Text, xa: Text := Some([120]), Some([120, 46, 97]);
    assert [120] + [DOT] + [97] == [120, 46, 97];
    assert Decode(p, 0, 2, xa) == Some((1, xa));
    assert Append(x, [97]) == xa;
    assert Decode(p, 0, 0, x) == Some((3, xa));
  }

  function Left(r: Option<(int, Text)>): Text
  {
    if r == None then None else r.value.1
  }

  /** The size as it is returned; an error is -1, which a size can be as well. */
  function Size(r: Option<(int, Text)>): int
  {
    if r == None then -1 else r.value.0
  }

  function Longer(n: int, r: Option<(int, Text)>): Option<(int, Text)>
  {
    if r == None then None else Some((r.value.0 + n, r.value.1))
  }

  /** The offset that `get_name` reports: where the name's own first label is, behind any pointers it starts with. */
  function Resolve(data: Bytes, n: nat, start: nat): nat
    requires Readable(data, n, start)
    decreases n
  {
    if IsPointer(data[start]) && CodeTarget(data[start], data[start + 1]) <= |data| then
      Resolve(data, n - 1, CodeTarget(data[start], data[start + 1]))
    else start
  }

  lemma AppendIsSome()
    ensures forall t: Text, b: Bytes :: Append(t, b).Some?
  {
  }

  /** `get_name`. */
  method GetName(data: Bytes, start: nat, ghost n: nat) returns (size: int, result: Text, offset: nat)
    requires Readable(data, n, start)
    ensures size == Size(Decode(data, n, start, None))
    ensures result == Left(Decode(data, n, start, None))
    ensures offset == Resolve(data, n, start)
    decreases n
  {
    hide CodeTarget, IsPointer, CStr, Append;
    AppendIsSome();
    SmallIsNoPointer();
    var name: Text := None;
    var pos := start;
    size, offset := 0, start;
    ghost var left := n;
    while true
      invariant 0 <= pos && size == pos - start && 0 <= left <= n && offset == start
      invariant (name == None ==> pos == start && left == n) && (name.Some? ==> !IsPointer(data[start]))
      invariant Readable(data, left, pos)
      invariant Decode(data, n, start, None) == Longer(size, Decode(data, left, pos, name))
      decreases left, |data| - pos
    {
      var b := data[pos];
      if b == 0 {
        size := size + 1;
        break;
      }
      if IsPointer(b) {
        size := size + 2;
        var t := CodeTarget(b, data[pos + 1]);
        if t > |data| {
          return -1, None, start;
        }
        var s, rest, o := GetName(data, t, left - 1);
        if name == None {
          offset := o;
          name := rest;
        } else {
          name := Append(name, rest.GetOr(NULL_TEXT));
        }
        break;
      }
      if b < 128 {
        size := size + b + 1;
        name := Append(name, CStr(data[pos + 1..pos + 1 + b]));
        pos := pos + b + 1;
      } else {
        size := size + (Back(b, pos) - pos);
        name := Append(name, CStr(data[pos + 1..]));
        pos := Back(b, pos);
        left := left - 1;
      }
    }
    result := name;
  }

  /** A name as section 4.1.4 of RFC 1035 has it: labels of up to 63 bytes, then a zero or a pointer to an earlier place
      of the packet. */
  ghost predicate RfcOk(data: Bytes, start: nat, pos: nat)
    decreases start, |data| - pos
  {
    pos < |data| &&
    var b := data[pos];
    if b == 0 then true
    else if IsPointer(b) then
      pos + 1 < |data| && RfcTarget(b, data[pos + 1]) < start &&
      RfcOk(data, RfcTarget(b, data[pos + 1]), RfcTarget(b, data[pos + 1]))
    else b < 64 && pos + 1 + b < |data| && RfcOk(data, start, pos + 1 + b)
  }

  /** The labels such a name denotes. */
  ghost function RfcLabels(data: Bytes, start: nat, pos: nat): seq<Bytes>
    requires RfcOk(data, start, pos)
    decreases start, |data| - pos
  {
    var b := data[pos];
    if b == 0 then []
    else if IsPointer(b) then
      RfcLabels(data, RfcTarget(b, data[pos + 1]), RfcTarget(b, data[pos + 1]))
    else [data[pos + 1..pos + 1 + b]] + RfcLabels(data, start, pos + 1 + b)
  }

  /** The bytes it takes in place: its own labels and the terminator or the pointer. */
  ghost function RfcSize(data: Bytes, start: nat, pos: nat): nat
    requires RfcOk(data, start, pos)
    decreases start, |data| - pos
  {
    var b := data[pos];
    if b == 0 then 1
    else if IsPointer(b) then 2
    else 1 + b + RfcSize(data, start, pos + 1 + b)
  }

  /** All pointers on the way of the name lead below 256. */
  ghost predicate Below(data: Bytes, start: nat, pos: nat)
    requires RfcOk(data, start, pos)
    decreases start, |data| - pos
  {
    var b := data[pos];
    if b == 0 then true
    else if IsPointer(b) then
      var t := RfcTarget(b, data[pos + 1]);
      t < 256 && Below(data, t, t)
    else Below(data, start, pos + 1 + b)
  }

  /** A pointer to a root stands behind a label. */
  ghost predicate Rooted(data: Bytes, start: nat, pos: nat, labelled: bool)
    requires RfcOk(data, start, pos)
    decreases start, |data| - pos
  {
    var b := data[pos];
    if b == 0 then false
    else if IsPointer(b) then
      var t := RfcTarget(b, data[pos + 1]);
      (labelled && RfcLabels(data, t, t) == []) || Rooted(data, t, t, false)
    else Rooted(data, start, pos + 1 + b, true)
  }

  /** Names in an answered question section: pointers lead to places from `lo` up to 255, never to a root. */
  ghost predicate Modest(data: Bytes, lo: nat, start: nat, pos: nat)
    requires RfcOk(data, start, pos)
    decreases start, |data| - pos
  {
    var b := data[pos];
    if b == 0 then true
    else if IsPointer(b) then
      var t := RfcTarget(b, data[pos + 1]);
      lo <= t < 256 && t < |data| && data[t] != 0 && Modest(data, lo, t, t)
    else Modest(data, lo, start, pos + 1 + b)
  }

  /** Labels behind a text, each as a C string. */
  ghost function TextOf(acc: Text, labels: seq<Bytes>): Text
    decreases |labels|
  {
    if labels == [] then acc else TextOf(Append(acc, CStr(labels[0])), labels[1..])
  }

  lemma TextOfNone(acc: Text)
    ensures TextOf(acc, []) == acc
  {
  }

  lemma TextOfFirst(acc: Text, l: Bytes, rest: seq<Bytes>)
    ensures TextOf(acc, [l] + rest) == TextOf(Append(acc, CStr(l)), rest)
  {
    assert ([l] + rest)[1..] == rest;
  }

  lemma {:induction false} TextOfBehind(acc: Text, labels: seq<Bytes>)
    requires acc.Some? && labels != []
    ensures TextOf(None, labels).Some? && TextOf(acc, labels) == Append(acc, TextOf(None, labels).value)
    decreases |labels|
  {
    var first := CStr(labels[0]);
    if |labels| > 1 {
      TextOfBehind(Append(acc, first), labels[1..]);
      TextOfBehind(Some(first), labels[1..]);
      var rest := TextOf(None, labels[1..]).value;
      assert (acc.value + [DOT] + first) + [DOT] + rest == acc.value + [DOT] + (first + [DOT] + rest);
    }
  }

  /** One step of the decoder, seen from outside. */
  lemma DecodeStep(data: Bytes, n: nat, pos: nat, acc: Text)
    requires pos < |data|
    ensures data[pos] == 0 ==> Readable(data, n, pos) && Decode(data, n, pos, acc) == Some((1, acc))
    ensures data[pos] != 0 && IsPointer(data[pos]) && pos + 1 < |data| && n > 0 ==>
              var t := CodeTarget(data[pos], data[pos + 1]);
              t < |data| && Readable(data, n - 1, t) ==>
                && Readable(data, n, pos)
                && var left := Left(Decode(data, n - 1, t, None));
                   Decode(data, n, pos, acc) ==
                   Some((2, if acc == None then left else Append(acc, left.GetOr(NULL_TEXT))))
    ensures 0 < data[pos] < 64 && pos + 1 + data[pos] < |data| && Readable(data, n, pos + 1 + data[pos]) ==>
              && Readable(data, n, pos)
              && Decode(data, n, pos, acc) ==
                 Longer(data[pos] + 1, Decode(data, n, pos + 1 + data[pos],
                                              Append(acc, CStr(data[pos + 1..pos + 1 + data[pos]]))))
  {
  }

  /** The text of the name at `pos` by the code: that of the RFC, except that a root behind a label is spelled out. */
  ghost function Spelled(data: Bytes, start: nat, pos: nat, acc: Text): Text
    requires RfcOk(data, start, pos)
  {
    var text := TextOf(acc, RfcLabels(data, start, pos));
    if Rooted(data, start, pos, acc.Some?) then Append(text, NULL_TEXT) else text
  }

  /** The decoder's text for the name at `pos` is `Spelled`, and the size is that in place. */
  ghost predicate IsSpelled(data: Bytes, n: nat, start: nat, pos: nat, acc: Text)
    requires RfcOk(data, start, pos)
  {
    && Readable(data, n, pos)
    && Decode(data, n, pos, acc) == Some((RfcSize(data, start, pos), Spelled(data, start, pos, acc)))
  }

  /** The decoder's text for the name at `pos` is that of the RFC's labels as C strings, and the size is that in
      place. */
  ghost predicate IsText(data: Bytes, n: nat, start: nat, pos: nat, acc: Text)
    requires RfcOk(data, start, pos)
  {
    && Readable(data, n, pos)
    && Decode(data, n, pos, acc) == Some((RfcSize(data, start, pos), TextOf(acc, RfcLabels(data, start, pos))))
  }

  lemma AppendTwice(acc: Text, middle: Bytes, last: Bytes)
    requires acc.Some?
    ensures Append(acc, Append(Some(middle), last).value) == Append(Append(acc, middle), last)
  {
    var a := acc.value;
    assert a + [DOT] + (middle + [DOT] + last) == (a + [DOT] + middle) + [DOT] + last;
  }

  lemma PointerIsSpelled(data: Bytes, n: nat, start: nat, pos: nat, acc: Text)
    requires RfcOk(data, start, pos) && data[pos] != 0 && IsPointer(data[pos]) && n > 0
    requires var t := RfcTarget(data[pos], data[pos + 1]); t < 256 && IsSpelled(data, n - 1, t, t, None)
    ensures IsSpelled(data, n, start, pos, acc)
  {
    hide Readable, Decode, TextOf, Append, CStr, CodeTarget, RfcTarget, IsPointer;
    var t := RfcTarget(data[pos], data[pos + 1]);
    TargetExact(data[pos], data[pos + 1]);
    DecodeStep(data, n, pos, acc);
    var labels := RfcLabels(data, t, t);
    TextOfNone(None);
    TextOfNone(acc);
    AppendSome(None, NULL_TEXT);
    if acc.Some? && labels != [] {
      TextOfBehind(acc, labels);
      AppendSome(TextOf(None, labels), NULL_TEXT);
      AppendTwice(acc, TextOf(None, labels).value, NULL_TEXT);
    }
  }

  lemma AppendSome(acc: Text, piece: Bytes)
    ensures Append(acc, piece).Some? && (acc == None ==> Append(acc, piece) == Some(piece))
    ensures Append(acc, piece) != acc
  {
    assert acc.Some? ==> |Append(acc, piece).value| > |acc.value|;
  }

  lemma LabelIsSpelled(data: Bytes, n: nat, start: nat, pos: nat, acc: Text)
    requires RfcOk(data, start, pos) && data[pos] != 0 && !IsPointer(data[pos])
    requires IsSpelled(data, n, start, pos + 1 + data[pos], Append(acc, CStr(data[pos + 1..pos + 1 + data[pos]])))
    ensures IsSpelled(data, n, start, pos, acc)
  {
    hide Readable, Decode, TextOf, Append, CStr, CodeTarget, RfcTarget, IsPointer;
    var next := pos + 1 + data[pos];
    DecodeStep(data, n, pos, acc);
    AppendSome(acc, CStr(data[pos + 1..next]));
    TextOfFirst(acc, data[pos + 1..next], RfcLabels(data, start, next));
  }

  /** What `get_name` makes of every name whose pointers lead below 256. */
  lemma {:induction false} DecodeIsSpelled(data: Bytes, n: nat, start: nat, pos: nat, acc: Text)
    requires RfcOk(data, start, pos) && Below(data, start, pos) && start <= n
    ensures IsSpelled(data, n, start, pos, acc)
    decreases start, |data| - pos
  {
    hide Readable, Decode, TextOf, Append, CStr, CodeTarget, RfcTarget, IsPointer;
    var b := data[pos];
    if b == 0 {
      DecodeStep(data, n, pos, acc);
      TextOfNone(acc);
    } else if IsPointer(b) {
      var t := RfcTarget(b, data[pos + 1]);
      DecodeIsSpelled(data, n - 1, t, t, None);
      PointerIsSpelled(data, n, start, pos, acc);
    } else {
      var piece := data[pos + 1..pos + 1 + b];
      DecodeIsSpelled(data, n, start, pos + 1 + b, Append(acc, CStr(piece)));
      LabelIsSpelled(data, n, start, pos, acc);
    }
  }

  lemma {:induction false} ModestIsBelow(data: Bytes, lo: nat, start: nat, pos: nat, labelled: bool)
    requires RfcOk(data, start, pos) && Modest(data, lo, start, pos)
    ensures Below(data, start, pos) && !Rooted(data, start, pos, labelled)
    decreases start, |data| - pos
  {
    hide RfcTarget, IsPointer;
    var b := data[pos];
    if b != 0 {
      if IsPointer(b) {
        var t := RfcTarget(b, data[pos + 1]);
        ModestIsBelow(data, lo, t, t, false);
        LabelsOfNonRoot(data, lo, t);
      } else {
        ModestIsBelow(data, lo, start, pos + 1 + b, true);
      }
    }
  }

  /** On names whose pointers never lead to a root the text is that of the labels. */
  lemma DecodeIsText(data: Bytes, n: nat, lo: nat, start: nat, pos: nat, acc: Text)
    requires RfcOk(data, start, pos) && Modest(data, lo, start, pos) && start <= n
    ensures IsText(data, n, start, pos, acc)
  {
    hide Readable, Decode, TextOf, Rooted, RfcLabels;
    ModestIsBelow(data, lo, start, pos, acc.Some?);
    DecodeIsSpelled(data, n, start, pos, acc);
  }

  /** A packet of 21 bytes with a root at 12 and, at 17, the label `a` and a pointer to the root. */
  function RootPointer(): (p: Bytes)
    ensures |p| == 21
  {
    seq(21, i requires 0 <= i < 21 =>
      if i == 17 then 1 else if i == 18 then 97 else if i == 19 then 192 else if i == 20 then 12 else 0)
  }

  lemma RootPointerIs()
    ensures var p := RootPointer();
            && RfcOk(p, 17, 17) && Below(p, 17, 17) && Rooted(p, 17, 17, false)
            && RfcLabels(p, 17, 17) == [[97]] && RfcSize(p, 17, 17) == 4
  {
    var p := RootPointer();
    assert p[17] == 1 && p[18] == 97 && p[19] == 192 && p[20] == 12 && p[12] == 0;
    assert RfcTarget(p[19], p[20]) == 12;
    assert RfcOk(p, 12, 12) && RfcLabels(p, 12, 12) == [];
    assert RfcOk(p, 17, 19) && RfcLabels(p, 17, 19) == [] && Rooted(p, 17, 19, true) && Below(p, 17, 19);
    assert p[18..19] == [97];
  }

  /** There the pointer leads below 256, and the name `a` comes out as `a.(null)`. */
  lemma RootPointerMisread()
    ensures RfcOk(RootPointer(), 17, 17) && Below(RootPointer(), 17, 17) && RfcLabels(RootPointer(), 17, 17) == [[97]]
    ensures Readable(RootPointer(), 21, 17)
    ensures Decode(RootPointer(), 21, 17, None) == Some((4, Some([97, 46, 40, 110, 117, 108, 108, 41])))
  {
    hide Readable, Decode, RfcOk, Below, Rooted, RfcLabels, RfcSize, RootPointer;
    RootPointerIs();
    DecodeIsSpelled(RootPointer(), 21, 17, 17, None);
    TextOfFirst(None, [97], []);
    assert [[97]] + [] == [[97]];
    CStrOf([97]);
    TextOfNone(Some([97]));
    assert [97] + [DOT] + NULL_TEXT == [97, 46, 40, 110, 117, 108, 108, 41];
  }

  lemma {:induction false} LabelsOfNonRoot(data: Bytes, lo: nat, start: nat)
    requires RfcOk(data, start, start) && Modest(data, lo, start, start) && data[start] != 0
    ensures RfcLabels(data, start, start) != []
    decreases start
  {
    if IsPointer(data[start]) {
      LabelsOfNonRoot(data, lo, RfcTarget(data[start], data[start + 1]));
    }
  }

  /** Decoding again at the reported offset gives the same name, and that offset is not a pointer. */
  lemma {:induction false} ResolveSameName(data: Bytes, n: nat, lo: nat, start: nat)
    requires RfcOk(data, start, start) && Modest(data, lo, start, start) && start <= n
    ensures Readable(data, n, start)
    ensures var o := Resolve(data, n, start);
            && o <= start && (o == start || lo <= o < 256) && !IsPointer(data[o])
            && RfcOk(data, o, o) && Modest(data, lo, o, o)
            && RfcLabels(data, o, o) == RfcLabels(data, start, start)
            && (data[o] == 0 <==> data[start] == 0)
    decreases start
  {
    DecodeIsText(data, n, lo, start, start, None);
    if IsPointer(data[start]) {
      TargetExact(data[start], data[start + 1]);
      ResolveSameName(data, n - 1, lo, RfcTarget(data[start], data[start + 1]));
    }
  }

  /** A name depends only on the bytes from `lo` on and inside the part it is well formed in. */
  lemma {:induction false} NameAgrees(data: Bytes, other: Bytes, lo: nat, start: nat, pos: nat)
    requires RfcOk(data, start, pos) && Modest(data, lo, start, pos) && lo <= pos
    requires |data| <= |other| && forall i :: lo <= i < |data| ==> data[i] == other[i]
    ensures RfcOk(other, start, pos) && Modest(other, lo, start, pos)
    ensures RfcLabels(other, start, pos) == RfcLabels(data, start, pos)
    ensures RfcSize(other, start, pos) == RfcSize(data, start, pos)
    ensures pos + RfcSize(data, start, pos) <= |data|
    decreases start, |data| - pos
  {
    hide RfcTarget, IsPointer;
    var b := data[pos];
    if b == 0 {
    } else if IsPointer(b) {
      var t := RfcTarget(b, data[pos + 1]);
      NameAgrees(data, other, lo, t, t);
    } else {
      NameAgrees(data, other, lo, start, pos + 1 + b);
      assert data[pos + 1..pos + 1 + b] == other[pos + 1..pos + 1 + b];
    }
  }

  lemma {:induction false} ResolveAgrees(data: Bytes, n: nat, other: Bytes, m: nat, lo: nat, start: nat)
    requires RfcOk(data, start, start) && Modest(data, lo, start, start) && lo <= start && start <= n && start <= m
    requires |data| <= |other| && forall i :: lo <= i < |data| ==> data[i] == other[i]
    ensures Readable(data, n, start) && Readable(other, m, start)
    ensures Resolve(other, m, start) == Resolve(data, n, start)
    decreases start
  {
    NameAgrees(data, other, lo, start, start);
    DecodeIsText(data, n, lo, start, start, None);
    DecodeIsText(other, m, lo, start, start, None);
    if IsPointer(data[start]) {
      TargetExact(data[start], data[start + 1]);
      ResolveAgrees(data, n - 1, other, m - 1, lo, RfcTarget(data[start], data[start + 1]));
    }
  }

  /** A packet of 300 bytes with the label `a` at 256 and a pointer to it at 270. */
  function FarPointer(): (p: Bytes)
    ensures |p| == 300
  {
    seq(300, i requires 0 <= i < 300 =>
      if i == 256 then 1 else if i == 257 then 97 else if i == 270 then 193 else 0)
  }

  /** Beyond the range the code goes wrong: here it reads the pointer to 256 as one to 16 and returns no name. */
  lemma FarPointerMisread()
    ensures RfcOk(FarPointer(), 270, 270) && RfcLabels(FarPointer(), 270, 270) == [[97]]
    ensures Readable(FarPointer(), 300, 270) && Decode(FarPointer(), 300, 270, None) == Some((2, None))
  {
    var p := FarPointer();
    assert p[270] == 193 && p[271] == 0 && p[256] == 1 && p[257] == 97 && p[258] == 0 && p[16] == 0;
    assert RfcTarget(p[270], p[271]) == 256 && CodeTarget(p[270], p[271]) == 16;
    assert RfcOk(p, 256, 258) && RfcLabels(p, 256, 258) == [];
    assert RfcOk(p, 256, 256) && RfcLabels(p, 256, 256) == [p[257..258]];
    assert p[257..258] == [97];
    assert Readable(p, 299, 16) && Decode(p, 299, 16, None) == Some((1, None));
  }

  /** The labels of a dotted name. */
  ghost function Split(s: Bytes): (labels: seq<Bytes>)
    ensures labels != []
  {
    if s == [] then [[]] else
      var labels := Split(s[..|s| - 1]);
      var c := s[|s| - 1];
      if c == DOT then labels + [[]]
      else labels[..|labels| - 1] + [labels[|labels| - 1] + [c]]
  }

  /** Labels on the wire, each behind its length in one byte. */
  ghost function WireLabels(labels: seq<Bytes>): Bytes
  {
    if labels == [] then [] else
      WireLabels(labels[..|labels| - 1]) + [|labels[|labels| - 1]| % 0x100] + labels[|labels| - 1]
  }

  lemma SplitOf(s: Bytes)
    ensures Split(s[..0]) == [] + [[]] && WireLabels([]) == []
  {
  }

  lemma SplitNext(s: Bytes, done: seq<Bytes>, last: Bytes, c: byte)
    requires Split(s) == done + [last]
    ensures Split(s + [c]) == if c == DOT then done + [last] + [[]] else done + [last + [c]]
  {
    assert (s + [c])[..|s|] == s;
  }

  lemma WireLabelsNext(labels: seq<Bytes>, l: Bytes)
    ensures WireLabels(labels + [l]) == WireLabels(labels) + [|l| % 0x100] + l
  {
    assert (labels + [l])[..|labels|] == labels;
  }

  /** `domain_to_dns_name_format`: each label's length is filled in at the place of the dot before it. */
  method DomainToDnsNameFormat(domain: Bytes) returns (dns: array<byte>)
    ensures fresh(dns) && dns[..] == WireLabels(Split(domain)) + [0]
  {
    SplitOf(domain);
    hide Split, WireLabels;
    dns := new byte[|domain| + 2];
    var p, num := 0, 0;
    ghost var done: seq<Bytes>, last: Bytes := [], [];
    for i := 0 to |domain|
      invariant p + num == i && num == |last|
      invariant Split(domain[..i]) == done + [last]
      invariant dns[..p] == WireLabels(done) && dns[p + 1..i + 1] == last
    {
      assert domain[..i + 1] == domain[..i] + [domain[i]];
      SplitNext(domain[..i], done, last, domain[i]);
      if domain[i] == DOT {
        dns[p] := num % 0x100;
        WireLabelsNext(done, last);
        assert dns[..i + 1] == dns[..p] + [dns[p]] + dns[p + 1..i + 1];
        done, last := done + [last], [];
        p := i + 1;
        num := 0;
      } else {
        dns[i + 1] := domain[i];
        num := num + 1;
        last := last + [domain[i]];
      }
    }
    dns[p] := num % 0x100;
    dns[|domain| + 1] := 0;
    WireLabelsNext(done, last);
    assert domain[..|domain|] == domain;
    assert dns[..] == dns[..p] + [dns[p]] + dns[p + 1..|domain| + 1] + [dns[|domain| + 1]];
  }

  /** A dotted name whose labels fit the wire format. */
  ghost predicate Wellformed(domain: Bytes)
  {
    0 !in domain && forall l :: l in Split(domain) ==> 1 <= |l| <= 63
  }

  lemma {:induction false} TextOfNext(acc: Text, labels: seq<Bytes>, l: Bytes)
    ensures TextOf(acc, labels + [l]) == Append(TextOf(acc, labels), CStr(l))
    decreases |labels|
  {
    if labels == [] {
      assert ([l] + [])[1..] == [];
      assert [] + [l] == [l];
    } else {
      assert (labels + [l])[1..] == labels[1..] + [l];
      TextOfNext(Append(acc, CStr(labels[0])), labels[1..], l);
    }
  }

  /** Joining the labels of a dotted name gives the name, and its wire form is one byte longer. */
  lemma {:induction false} SplitBack(s: Bytes)
    requires 0 !in s
    ensures TextOf(None, Split(s)) == Some(s) && |WireLabels(Split(s))| == |s| + 1
    ensures forall l :: l in Split(s) ==> 0 !in l
  {
    if s == [] {
      TextOfNext(None, [], []);
      WireLabelsNext([], []);
      ghost var none: seq<Bytes> := [];
      assert none + [[]] == [[]];
    } else {
      var t, c := s[..|s| - 1], s[|s| - 1];
      assert s == t + [c];
      SplitBack(t);
      SplitBackNext(t, c);
    }
  }

  lemma SplitBackNext(t: Bytes, c: byte)
    requires c != 0 && TextOf(None, Split(t)) == Some(t) && |WireLabels(Split(t))| == |t| + 1
    requires forall l :: l in Split(t) ==> 0 !in l
    ensures TextOf(None, Split(t + [c])) == Some(t + [c]) && |WireLabels(Split(t + [c]))| == |t| + 2
    ensures forall l :: l in Split(t + [c]) ==> 0 !in l
  {
    hide Split, TextOf, WireLabels, CStr;
    var n := |Split(t)| - 1;
    var done, last := Split(t)[..n], Split(t)[n];
    assert Split(t) == done + [last];
    SplitNext(t, done, last, c);
    TextOfNext(None, done, last);
    WireLabelsNext(done, last);
    CStrOf(last);
    if c == DOT {
      CStrOf([]);
      TextOfNext(None, done + [last], []);
      WireLabelsNext(done + [last], []);
      assert t + [DOT] + [] == t + [c];
    } else {
      CStrOf(last + [c]);
      TextOfNext(None, done, last + [c]);
      WireLabelsNext(done, last + [c]);
      var before := TextOf(None, done);
      assert Append(before, last + [c]).value == Append(before, last).value + [c];
    }
  }

  lemma {:induction false} WireLabelsFirst(l: Bytes, labels: seq<Bytes>)
    ensures WireLabels([l] + labels) == [|l| % 0x100] + l + WireLabels(labels)
    decreases |labels|
  {
    WireLabelsNext([], l);
    if labels == [] {
      assert [l] + labels == [] + [l];
    } else {
      var front, last := labels[..|labels| - 1], labels[|labels| - 1];
      WireLabelsFirst(l, front);
      WireLabelsNext([l] + front, last);
      assert [l] + labels == ([l] + front) + [last];
    }
  }

  lemma SmallIsNoPointer()
    ensures forall b: byte :: b < 64 ==> !IsPointer(b)
  {
  }

  lemma WireLabelsNone()
    ensures WireLabels([]) == []
  {
  }

  /** `data` has, from `pos` on, exactly the name with these labels. */
  ghost predicate IsName(data: Bytes, lo: nat, start: nat, pos: nat, labels: seq<Bytes>)
  {
    && RfcOk(data, start, pos) && Modest(data, lo, start, pos)
    && RfcLabels(data, start, pos) == labels && RfcSize(data, start, pos) == |WireLabels(labels)| + 1
  }

  lemma LabelInFront(data: Bytes, lo: nat, start: nat, pos: nat, l: Bytes, rest: seq<Bytes>)
    requires 1 <= |l| <= 63 && pos + 1 + |l| < |data| && data[pos] == |l| && data[pos + 1..pos + 1 + |l|] == l
    requires IsName(data, lo, start, pos + 1 + |l|, rest)
    ensures IsName(data, lo, start, pos, [l] + rest)
  {
    hide WireLabels, RfcTarget, IsPointer;
    SmallIsNoPointer();
    WireLabelsFirst(l, rest);
  }

  /** Labels on the wire, closed by a zero, are the name of these labels. */
  lemma {:induction false} WireIsName(data: Bytes, lo: nat, start: nat, pos: nat, labels: seq<Bytes>)
    requires forall l :: l in labels ==> 1 <= |l| <= 63
    requires pos + |WireLabels(labels)| < |data|
    requires data[pos..pos + |WireLabels(labels)|] == WireLabels(labels) && data[pos + |WireLabels(labels)|] == 0
    ensures IsName(data, lo, start, pos, labels)
    decreases |labels|, 1
  {
    if labels == [] {
      WireLabelsNone();
    } else {
      hide WireLabels, IsName;
      assert labels == [labels[0]] + labels[1..] && labels[0] in labels;
      WireIsNameNext(data, lo, start, pos, labels[0], labels[1..]);
    }
  }

  lemma {:induction false} WireIsNameNext(data: Bytes, lo: nat, start: nat, pos: nat, l: Bytes, rest: seq<Bytes>)
    requires 1 <= |l| <= 63 && forall x :: x in rest ==> 1 <= |x| <= 63
    requires var w := WireLabels([l] + rest);
             pos + |w| < |data| && data[pos..pos + |w|] == w && data[pos + |w|] == 0
    ensures IsName(data, lo, start, pos, [l] + rest)
    decreases |rest| + 1, 0
  {
    hide WireLabels, IsName;
    WireLabelsFirst(l, rest);
    LabelSlices(data, pos, l, WireLabels(rest));
    WireIsName(data, lo, start, pos + 1 + |l|, rest);
    LabelInFront(data, lo, start, pos, l, rest);
  }

  lemma LabelSlices(data: Bytes, pos: nat, l: Bytes, w: Bytes)
    requires |l| < 64 && pos + 1 + |l| + |w| <= |data|
    requires data[pos..pos + 1 + |l| + |w|] == [|l| % 0x100] + l + w
    ensures data[pos] == |l| && data[pos + 1..pos + 1 + |l|] == l
    ensures data[pos + 1 + |l|..pos + 1 + |l| + |w|] == w
  {
    var all := data[pos..pos + 1 + |l| + |w|];
    assert all == [|l|] + (l + w);
    assert data[pos] == all[0];
    forall i | 0 <= i < |l|
      ensures data[pos + 1 + i] == l[i]
    {
      assert all[1 + i] == data[pos + 1 + i];
    }
    forall i | 0 <= i < |w|
      ensures data[pos + 1 + |l| + i] == w[i]
    {
      assert all[1 + |l| + i] == data[pos + 1 + |l| + i];
    }
  }

  /** Name round trip: a well-formed name, encoded anywhere in a packet, decodes to itself and takes its length and two
      bytes more. */
  lemma EncodeDecode(domain: Bytes, data: Bytes, pos: nat)
    requires Wellformed(domain) && pos + |domain| + 2 <= |data|
    requires data[pos..pos + |domain| + 2] == WireLabels(Split(domain)) + [0]
    ensures Readable(data, |data|, pos) && Decode(data, |data|, pos, None) == Some((|domain| + 2, Some(domain)))
    ensures RfcOk(data, pos, pos) && Modest(data, 0, pos, pos) && RfcLabels(data, pos, pos) == Split(domain)
  {
    hide Split, WireLabels, RfcOk, Modest, RfcLabels, RfcSize, Decode, TextOf, Readable;
    SplitBack(domain);
    var wire, n := data[pos..pos + |domain| + 2], |domain| + 1;
    assert wire[..n] == WireLabels(Split(domain)) && wire[n] == 0;
    assert data[pos..pos + n] == wire[..n] && data[pos + n] == wire[n];
    WireIsName(data, 0, pos, pos, Split(domain));
    DecodeIsText(data, |data|, 0, pos, pos, None);
  }

  lemma {:induction false} WireHasNoZero(labels: seq<Bytes>)
    requires forall l :: l in labels ==> 1 <= |l| <= 63 && 0 !in l
    ensures 0 !in WireLabels(labels)
  {
    if labels != [] {
      var front, l := labels[..|labels| - 1], labels[|labels| - 1];
      assert l in labels;
      WireHasNoZero(front);
      var wire := WireLabels(front);
      assert 0 !in wire + [|l| % 0x100];
    }
  }
}
