/** The lookup of dlib/c_array_map.c: a binary search over hashes that may repeat, with the keys beside them. */
module ArrayMap {
  import opened Wire

  ghost predicate Ascending(s: seq<int>)
  {
    forall i, j :: 0 <= i < j < |s| ==> s[i] <= s[j]
  }

  /** Inserting `x` at `p` keeps an ascending sequence ascending. */
  lemma AscendingInsert(s: seq<int>, p: nat, x: int)
    requires Ascending(s) && p <= |s|
    ensures Ascending(s[..p] + [x] + s[p..]) <==>
            (forall i :: 0 <= i < p ==> s[i] <= x) && (forall i :: p <= i < |s| ==> x <= s[i])
  {
    var t := s[..p] + [x] + s[p..];
    assert t[p] == x;
    assert forall i :: 0 <= i < p ==> t[i] == s[i];
    assert forall i :: p <= i < |s| ==> t[i + 1] == s[i];
  }

  /** The first `p` elements are smaller than `x`, and those from `q` on are larger. */
  ghost predicate Parted(s: seq<int>, p: nat, q: nat, x: int)
    requires p <= |s| && q <= |s|
  {
    (forall i :: 0 <= i < p ==> s[i] < x) && (forall i :: q <= i < |s| ==> x < s[i])
  }

  lemma PartedUp(s: seq<int>, p: nat, mid: nat, q: nat, x: int)
    requires p <= mid < q <= |s| && Ascending(s) && Parted(s, p, q, x)
    ensures s[mid] < x ==> Parted(s, mid + 1, q, x)
    ensures x < s[mid] ==> Parted(s, p, mid, x)
  {
    assert forall i :: 0 <= i < mid ==> s[i] <= s[mid];
    assert forall i :: mid < i < |s| ==> s[mid] <= s[i];
  }

  /** A run of `x` ends where a different value stands. */
  lemma PartedRun(s: seq<int>, low: int, mid: nat, high: nat, x: int)
    requires -1 <= low < mid < high <= |s| && Ascending(s) && s[mid] == x
    requires (low >= 0 ==> s[low] != x) && (high < |s| ==> s[high] != x)
    ensures Parted(s, low + 1, high, x)
  {
    assert forall i :: 0 <= i <= low ==> s[i] <= s[low] <= s[mid];
    assert forall i :: high <= i < |s| ==> s[mid] <= s[high] <= s[i];
  }

  class CArrayMap<K(==)> {
    var keys: array<K>
    var hash_array: array<int>
    var len: nat

    ghost predicate Valid()
      reads this
    {
      len <= keys.Length && len <= hash_array.Length
    }

    /** The key is at position `i`, stored under the hash. */
    ghost predicate At(i: int, key: K, hash: int)
      requires Valid()
      reads this, keys, hash_array
    {
      0 <= i < len && hash_array[i] == hash && keys[i] == key
    }

    constructor (keys: array<K>, hash_array: array<int>, len: nat)
      requires len <= keys.Length && len <= hash_array.Length
      ensures Valid() && this.keys == keys && this.hash_array == hash_array && this.len == len
    {
      this.keys, this.hash_array, this.len := keys, hash_array, len;
    }

    /** Where inserting the hash keeps the hashes ascending. */
    ghost predicate Place(p: int, hash: int)
      requires Valid()
      reads this, hash_array
    {
      0 <= p <= len && Ascending(hash_array[..p] + [hash] + hash_array[p..len])
    }

    /** A key can only be between the smaller and the larger hashes. */
    lemma Absent(p: nat, q: nat, key: K, hash: int)
      requires Valid() && p <= q <= len && Parted(hash_array[..len], p, q, hash) && Ascending(hash_array[..len])
      requires forall i :: p <= i < q ==> hash_array[i] == hash && keys[i] != key
      ensures !(exists i :: At(i, key, hash)) && Place(q, hash)
    {
      var h := hash_array[..len];
      AscendingInsert(h, q, hash);
      assert hash_array[..q] == h[..q] && hash_array[q..len] == h[q..];
      forall i | 0 <= i < len
        ensures !At(i, key, hash)
      {
        assert h[i] == hash_array[i];
      }
    }

    /** `key_index`: the position of the key, or the complement of an insertion position. What it finds is right for any
        contents; that it finds every key, and that the position keeps the hashes ascending, needs them ascending. */
    method KeyIndex(key: Option<K>, hash: int) returns (index: int)
      requires Valid()
      ensures index >= 0 ==> key.Some? && At(index, key.value, hash)
      ensures index < 0 ==> -index - 1 <= len
      ensures Ascending(hash_array[..len]) && key.Some? ==> (index >= 0 <==> exists i :: At(i, key.value, hash))
      ensures Ascending(hash_array[..len]) && key.Some? && index < 0 ==> Place(-index - 1, hash)
    {
      hide Ascending, Parted;
      if key == None || len == 0 {
        if key.Some? && Ascending(hash_array[..len]) {
          NothingParted(hash);
          Absent(0, 0, key.value, hash);
        }
        return -1;
      }
      ghost var h := hash_array[..len];
      NothingParted(hash);
      var start, end := 0, len - 1;
      var mid := end / 2;
      while start <= end
        invariant 0 <= start <= end + 1 <= len
        invariant start <= end ==> start <= mid <= end
        invariant Ascending(h) ==> Parted(h, start, end + 1, hash)
        decreases end - start
      {
        var midKey := hash_array[mid];
        if midKey == hash {
          index := SearchRun(mid, key.value, hash);
          return;
        }
        if Ascending(h) {
          PartedUp(h, start, mid, end + 1, hash);
        }
        if midKey < hash {
          start := mid + 1;
        } else {
          end := mid - 1;
        }
        mid := (start + end) / 2;
      }
      if Ascending(h) {
        Absent(start, start, key.value, hash);
      }
      return -start - 1;
    }

    lemma NothingParted(hash: int)
      requires Valid()
      ensures Parted(hash_array[..len], 0, len, hash)
    {
    }

    /** The walk over the equal hashes around `mid`: down first, then up. */
    method SearchRun(mid: nat, key: K, hash: int) returns (index: int)
      requires Valid() && mid < len && hash_array[mid] == hash
      ensures index >= 0 ==> At(index, key, hash)
      ensures index < 0 ==> mid < -index - 1 <= len
      ensures Ascending(hash_array[..len]) ==> (index >= 0 <==> exists i :: At(i, key, hash))
      ensures Ascending(hash_array[..len]) && index < 0 ==> Place(-index - 1, hash)
    {
      hide Ascending, Parted, Place;
      ghost var h := hash_array[..len];
      if keys[mid] == key {
        assert At(mid, key, hash);
        return mid;
      }
      var i := mid - 1;
      while i >= 0 && hash_array[i] == hash
        invariant -1 <= i < mid
        invariant forall j :: i < j <= mid ==> hash_array[j] == hash && keys[j] != key
      {
        if keys[i] == key {
          assert At(i, key, hash);
          return i;
        }
        i := i - 1;
      }
      ghost var low := i;
      i := mid + 1;
      while i < len && hash_array[i] == hash
        invariant mid < i <= len
        invariant forall j :: low < j < i ==> hash_array[j] == hash && keys[j] != key
      {
        if keys[i] == key {
          assert At(i, key, hash);
          return i;
        }
        i := i + 1;
      }
      if Ascending(h) {
        PartedRun(h, low, mid, i, hash);
        Absent(low + 1, i, key, hash);
      }
      return -i - 1;
    }
  }
}
