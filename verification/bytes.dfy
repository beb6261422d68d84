/** Bytes as the driver sees them in Node.js `Buffer`s, the protocol's
    sentinel bytes, and the few JavaScript array primitives the driver
    relies on (`buf[i]` past the end, `slice` with negative bounds). */
module Bytes {
  import opened Wrappers

  type byte = bv8

  const STX: byte := 0x02
  const ETX: byte := 0x03
  const ENQ: byte := 0x05

  /** `s[i]` as JavaScript reads it: `undefined` (here `None`) past the end. */
  function At<T>(s: seq<T>, i: nat): (r: Option<T>)
    ensures r.Some? <==> i < |s|
    ensures r.Some? ==> r.value == s[i]
  {
    if i < |s| then Some(s[i]) else None
  }

  /** How `Array.prototype.slice` resolves a bound `k` against a length `n`:
      negative bounds count from the end, and both ends are clamped. */
  function RelIndex(k: int, n: nat): (i: nat)
    ensures i <= n
    ensures 0 <= k <= n ==> i == k
    ensures k < 0 && 0 <= n + k ==> i == n + k
  {
    if k < 0 then (if n + k < 0 then 0 else n + k)
    else if k < n then k else n
  }

  /** `s.slice(start, end)` with JavaScript's resolution of the bounds. */
  function Slice<T>(s: seq<T>, start: int, end: int): (r: seq<T>)
    ensures |r| <= |s|
    ensures 0 <= start <= end <= |s| ==> r == s[start..end]
    ensures 0 <= end <= start ==> r == []
  {
    var i := RelIndex(start, |s|);
    var j := RelIndex(end, |s|);
    if i < j then s[i..j] else []
  }

  /** A slice that starts inside the sequence begins with the element at
      its start. */
  lemma SliceStartsAt<T>(s: seq<T>, start: nat, end: int)
    requires start < |s| && start < end
    ensures |Slice(s, start, end)| > 0 && Slice(s, start, end)[0] == s[start]
  {
    var j := RelIndex(end, |s|);
    assert start < j;
  }

  /** Slicing a suffix is slicing the whole with both bounds shifted. */
  lemma SliceOfSuffix<T>(s: seq<T>, k: nat, a: nat, b: nat)
    requires k <= |s|
    ensures Slice(s[k..], a, b) == Slice(s, k + a, k + b)
  {
    var i := RelIndex(a, |s| - k);
    var j := RelIndex(b, |s| - k);
    assert RelIndex(k + a, |s|) == k + i;
    assert RelIndex(k + b, |s|) == k + j;
    if i < j {
      Subslice(s, k, |s|, i, j);
    }
  }

  /** A slice of a slice is a slice of the original. */
  lemma Subslice<T>(s: seq<T>, i: nat, j: nat, a: nat, b: nat)
    requires i <= j <= |s| && a <= b <= j - i
    ensures s[i..j][a..b] == s[i + a..i + b]
  {
    var inner := s[i..j][a..b];
    var outer := s[i + a..i + b];
    assert |inner| == |outer|;
    forall k | 0 <= k < |inner|
      ensures inner[k] == outer[k]
    {
      assert inner[k] == s[i..j][a + k] == s[i + a + k];
    }
  }

  /** `s.slice(start)`. */
  function SliceFrom<T>(s: seq<T>, start: int): (r: seq<T>)
    ensures 0 <= start <= |s| ==> r == s[start..]
    ensures |s| <= start ==> r == []
  {
    Slice(s, start, |s|)
  }

  /** `data.slice(1)`: what a failed decode hands to the retry. */
  function Tail<T>(s: seq<T>): (r: seq<T>)
    ensures |s| > 0 ==> r == s[1..] && |r| == |s| - 1
    ensures |s| == 0 ==> r == []
  {
    SliceFrom(s, 1)
  }

  /** XOR of all bytes of `s`, folded from the left. */
  function XorAll(s: seq<byte>): byte
  {
    if |s| == 0 then 0 else XorAll(s[..|s| - 1]) ^ s[|s| - 1]
  }

  /** XOR distributes over concatenation. */
  lemma {:induction false} XorAllAppend(a: seq<byte>, b: seq<byte>)
    ensures XorAll(a + b) == XorAll(a) ^ XorAll(b)
    decreases |b|
  {
    if |b| == 0 {
      assert a + b == a;
    } else {
      var b' := b[..|b| - 1];
      assert (a + b)[..|a + b| - 1] == a + b';
      XorAllAppend(a, b');
    }
  }
}
