/** Bytes and the big-endian integers of dlib/clib.c. */
module Wire {

  datatype Option<+T> = None | Some(value: T)
  {
    function GetOr(default: T): T
    {
      if this.Some? then value else default
    }
  }

  type byte = b: int | 0 <= b < 0x100
  type uint16 = w: int | 0 <= w < 0x1_0000

  type Bytes = seq<byte>

  /** The C string that starts with these bytes: everything before the first zero. */
  function CStr(b: Bytes): (s: Bytes)
  {
    if b == [] || b[0] == 0 then [] else [b[0]] + CStr(b[1..])
  }

  /** It is the longest prefix without a zero. */
  lemma {:induction false} CStrIs(b: Bytes)
    ensures CStr(b) <= b && 0 !in CStr(b)
    ensures CStr(b) == b || b[|CStr(b)|] == 0
  {
    if b != [] && b[0] != 0 {
      assert b == [b[0]] + b[1..];
      CStrIs(b[1..]);
    }
  }

  lemma CStrOf(b: Bytes)
    ensures CStr(b) == b <==> 0 !in b
  {
    CStrIs(b);
  }

  lemma {:induction false} CStrUpTo(b: Bytes, rest: Bytes)
    requires 0 !in b
    ensures CStr(b + [0] + rest) == b
  {
    if b != [] {
      CStrUpTo(b[1..], rest);
      assert (b + [0] + rest)[1..] == b[1..] + [0] + rest;
    }
  }

  /** A 16-bit integer in network order. */
  function U16(data: Bytes, at: nat): (v: nat)
    requires at + 1 < |data|
    ensures v < 0x1_0000
  {
    var high: nat, low: nat := data[at], data[at + 1];
    high * 0x100 + low
  }

  function Short(v: nat): (b: Bytes)
    ensures |b| == 2
  {
    [v / 0x100 % 0x100, v % 0x100]
  }

  /** Writing and reading such an integer are inverse to each other. */
  lemma ShortBack(v: nat, b: Bytes)
    requires v < 0x1_0000 && |b| == 2
    ensures U16(Short(v), 0) == v && Short(U16(b, 0)) == b
  {
    var high: nat, low: nat := b[0], b[1];
    assert (high * 0x100 + low) / 0x100 == high && (high * 0x100 + low) % 0x100 == low;
  }
}
