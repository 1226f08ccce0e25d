/** Big-endian integers in byte buffers, and block copies. */
module Bytes {
  type byte = x: int | 0 <= x < 256

  /** A page number, a cookie, a counter. */
  type u32 = x: int | 0 <= x < 0x1_0000_0000

  function Get2(d: seq<byte>, i: nat): (v: nat)
    requires i + 1 < |d|
    ensures v < 65536
  {
    d[i] as int * 256 + d[i + 1] as int
  }

  /** get2byteNotZero: a stored 0 means 65536. */
  function NotZero(v: nat): (r: nat)
    requires v < 65536
    ensures 0 < r <= 65536
  {
    if v == 0 then 65536 else v
  }

  function Put2(d: seq<byte>, i: nat, v: nat): (r: seq<byte>)
    requires i + 1 < |d|
    ensures |r| == |d|
    ensures forall j {:trigger r[j]} :: 0 <= j < |d| && j != i && j != i + 1 ==> r[j] == d[j]
    ensures v <= 65536 ==> Get2(r, i) == if v == 65536 then 0 else v
  {
    d[i := v / 256 % 256][i + 1 := v % 256]
  }

  function Get4(d: seq<byte>, i: nat): (v: nat)
    requires i + 3 < |d|
  {
    ((d[i] as int * 256 + d[i + 1] as int) * 256 + d[i + 2] as int) * 256 + d[i + 3] as int
  }

  function Put4(d: seq<byte>, i: nat, v: nat): (r: seq<byte>)
    requires i + 3 < |d|
    ensures |r| == |d|
    ensures forall j {:trigger r[j]} :: 0 <= j < |d| && !(i <= j < i + 4) ==> r[j] == d[j]
  {
    d[i := v / 0x100_0000 % 256][i + 1 := v / 0x1_0000 % 256][i + 2 := v / 0x100 % 256][i + 3 := v % 256]
  }

  lemma GetPut4(d: seq<byte>, i: nat, v: nat)
    requires i + 3 < |d| && v < 0x1_0000_0000
    ensures Get4(Put4(d, i, v), i) == v
  {
  }

  /** The n bytes from `src` on, copied to `dst` on (memcpy or memmove). */
  function Copied(d: seq<byte>, dst: nat, from: seq<byte>, src: nat, n: nat): (r: seq<byte>)
    requires dst + n <= |d| && src + n <= |from|
    ensures |r| == |d|
    ensures forall j {:trigger r[j]} :: 0 <= j < |d| ==>
      r[j] == if dst <= j < dst + n then from[j - dst + src] else d[j]
  {
    seq(|d|, j requires 0 <= j < |d| => if dst <= j < dst + n then from[j - dst + src] else d[j])
  }

  function Zeroed(d: seq<byte>, at: nat, n: nat): (r: seq<byte>)
    requires at + n <= |d|
    ensures |r| == |d|
    ensures forall j {:trigger r[j]} :: 0 <= j < |d| ==> r[j] == if at <= j < at + n then 0 else d[j]
  {
    seq(|d|, j requires 0 <= j < |d| => if at <= j < at + n then 0 else d[j])
  }
}
