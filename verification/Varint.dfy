/** Variable-length integers: seven bits in a byte, most significant first, the high bit set in
    all bytes but the last; a ninth byte holds eight bits. */
module Varint {
  import opened Bytes

  /** Bytes past the end of a buffer read as 0. */
  function At(s: seq<byte>, i: nat): byte {
    if i < |s| then s[i] else 0
  }

  /** The length of the integer, if the first k bytes have their high bit set. */
  function LenFrom(s: seq<byte>, k: nat): (n: nat)
    requires k <= 8
    ensures k < n <= 9
    decreases 8 - k
  {
    if k == 8 || At(s, k) < 128 then k + 1 else LenFrom(s, k + 1)
  }

  function VarLen(s: seq<byte>): (n: nat)
    ensures 1 <= n <= 9
  {
    LenFrom(s, 0)
  }

  /** The number in the low seven bits of the first n bytes. */
  function Bits7(s: seq<byte>, n: nat): nat {
    if n == 0 then 0 else Bits7(s, n - 1) * 128 + At(s, n - 1) % 128
  }

  /** getVarint. */
  function GetVarint(s: seq<byte>): nat {
    var n := VarLen(s);
    if n < 9 then Bits7(s, n) else Bits7(s, 8) * 256 + At(s, 8)
  }

  /** What the loops that read a payload size compute in 32 bits. */
  function GetSize(s: seq<byte>): nat {
    Bits7(s, VarLen(s)) % 0x1_0000_0000
  }

  /** The bytes in front of the last one. */
  function Cont(v: nat): seq<byte> {
    if v == 0 then [] else Cont(v / 128) + [128 + v % 128]
  }

  function Cont8(v: nat, n: nat): (r: seq<byte>)
    ensures |r| == n
  {
    if n == 0 then [] else Cont8(v / 128, n - 1) + [128 + v % 128]
  }

  /** The bytes of v. */
  function Encode(v: nat): (r: seq<byte>)
    ensures |r| > 0
  {
    if v >= 0x100_0000_0000_0000 then Cont8(v / 256, 8) + [v % 256] else Cont(v / 128) + [v % 128]
  }

  ghost function Power(k: nat): (p: nat)
    ensures p > 0
  {
    if k == 0 then 1 else 128 * Power(k - 1)
  }

  lemma {:induction false} ContLength(v: nat, k: nat)
    requires v < Power(k)
    ensures |Cont(v)| <= k
  {
    if v == 0 {
    } else {
      ContLength(v / 128, k - 1);
    }
  }

  lemma {:induction false} ContBits(v: nat, t: seq<byte>)
    ensures Bits7(Cont(v) + t, |Cont(v)|) == v
    ensures forall i :: 0 <= i < |Cont(v)| ==> Cont(v)[i] >= 128
  {
    if v == 0 {
    } else {
      ContBits(v / 128, [128 + v % 128] + t);
      assert Cont(v) + t == Cont(v / 128) + ([128 + v % 128] + t);
    }
  }

  lemma {:induction false} Cont8Bits(v: nat, n: nat, t: seq<byte>)
    requires v < Power(n)
    ensures Bits7(Cont8(v, n) + t, n) == v
    ensures forall i :: 0 <= i < n ==> Cont8(v, n)[i] >= 128
  {
    if n == 0 {
    } else {
      Cont8Bits(v / 128, n - 1, [128 + v % 128] + t);
      assert Cont8(v, n) + t == Cont8(v / 128, n - 1) + ([128 + v % 128] + t);
    }
  }

  lemma {:induction false} LenIs(s: seq<byte>, k: nat, n: nat)
    requires k <= n <= 8 && forall i :: k <= i < n ==> At(s, i) >= 128
    requires n == 8 || At(s, n) < 128
    ensures LenFrom(s, k) == n + 1
    decreases n - k
  {
    if k == n {
    } else {
      LenIs(s, k + 1, n);
    }
  }

  lemma Powers()
    ensures Power(7) == 0x2_0000_0000_0000 && Power(8) == 0x100_0000_0000_0000
  {
    assert Power(1) == 128 && Power(2) == 16384 && Power(3) == 2097152 && Power(4) == 268435456;
    assert Power(5) == 34359738368 && Power(6) == 4398046511104;
  }

  /** Reading back what was written, whatever follows. */
  lemma RoundTrip(v: nat, rest: seq<byte>)
    requires v < 0x1_0000_0000_0000_0000
    ensures VarLen(Encode(v) + rest) == |Encode(v)| <= 9 && GetVarint(Encode(v) + rest) == v
    ensures v < 0x1_0000_0000 ==> GetSize(Encode(v) + rest) == v
  {
    Powers();
    var s := Encode(v) + rest;
    if v >= 0x100_0000_0000_0000 {
      var w, t := v / 256, [v % 256] + rest;
      Cont8Bits(w, 8, t);
      assert s == Cont8(w, 8) + t;
      LenIs(s, 0, 8);
    } else {
      var w, t := v / 128, [v % 128] + rest;
      ContLength(w, 7);
      ContBits(w, t);
      assert s == Cont(w) + t;
      LenIs(s, 0, |Cont(w)|);
    }
  }

  lemma {:induction false} ContShortest(v: nat, k: nat)
    requires |Cont(v)| <= k
    ensures v < Power(k)
    decreases k
  {
    if v == 0 {
    } else {
      ContShortest(v / 128, k - 1);
    }
  }

  /** No more bytes than needed: k bytes hold the numbers below 128 to the power k, up to eight. */
  lemma EncodeShortest(v: nat, k: nat)
    requires v < 0x1_0000_0000_0000_0000 && 1 <= k <= 8
    ensures |Encode(v)| <= k <==> v < Power(k)
  {
    Powers();
    PowersGrow(k, 8);
    if v < 0x100_0000_0000_0000 {
      if v < Power(k) {
        ContLength(v / 128, k - 1);
      } else if |Encode(v)| <= k {
        ContShortest(v / 128, k - 1);
      }
    }
  }

  lemma {:induction false} PowersGrow(j: nat, k: nat)
    requires j <= k
    ensures Power(j) <= Power(k)
    decreases k
  {
    if j == k {
    } else {
      PowersGrow(j, k - 1);
    }
  }

  /** putVarint64 with a ninth byte. */
  method PutNine(v: nat) returns (r: seq<byte>)
    ensures r == Cont8(v / 256, 8) + [v % 256]
  {
    r := [v % 256];
    var w: nat, i: nat := v / 256, 8;
    while i > 0
      invariant Cont8(v / 256, 8) + [v % 256] == Cont8(w, i) + r
    {
      assert Cont8(w, i) + r == Cont8(w / 128, i - 1) + ([128 + w % 128] + r);
      r := [128 + w % 128] + r;
      w := w / 128;
      i := i - 1;
    }
    assert Cont8(w, 0) + r == r;
  }

  /** ... and without. */
  method PutGroups(v: nat) returns (r: seq<byte>)
    ensures r == Cont(v / 128) + [v % 128]
  {
    r := [v % 128];
    var w: nat := v / 128;
    while w != 0
      invariant Cont(v / 128) + [v % 128] == Cont(w) + r
    {
      assert Cont(w) + r == Cont(w / 128) + ([128 + w % 128] + r);
      r := [128 + w % 128] + r;
      w := w / 128;
    }
    assert Cont(w) + r == r;
  }

  /** sqlite3PutVarint. */
  method PutVarint(v: nat) returns (r: seq<byte>)
    requires v < 0x1_0000_0000_0000_0000
    ensures r == Encode(v)
    ensures v <= 0x7f ==> r == [v]
    ensures 0x7f < v <= 0x3fff ==> r == [128 + v / 128, v % 128]
    ensures v >= 0x100_0000_0000_0000 ==> |r| == 9 && r[8] == v % 256
  {
    if v <= 0x7f {
      assert Cont(0) == [];
      r := [v];
    } else if v <= 0x3fff {
      assert Cont(v / 128) == Cont(0) + [128 + v / 128];
      r := [v / 128 + 128, v % 128];
    } else if v >= 0x100_0000_0000_0000 {
      r := PutNine(v);
    } else {
      r := PutGroups(v);
    }
  }

  /** Only the bytes of the integer matter. */
  lemma {:induction false} LenLocal(s: seq<byte>, t: seq<byte>, k: nat)
    requires k <= 8 && LenFrom(s, k) <= |s| && LenFrom(s, k) <= |t|
    requires forall i :: k <= i < LenFrom(s, k) ==> t[i] == s[i]
    ensures LenFrom(t, k) == LenFrom(s, k)
    decreases 8 - k
  {
    if k >= 8 || At(s, k) < 128 {
    } else {
      LenLocal(s, t, k + 1);
    }
  }

  lemma {:induction false} BitsLocal(s: seq<byte>, t: seq<byte>, n: nat)
    requires n <= |s| && n <= |t| && forall i :: 0 <= i < n ==> t[i] == s[i]
    ensures Bits7(t, n) == Bits7(s, n)
  {
    if n == 0 {
    } else {
      BitsLocal(s, t, n - 1);
    }
  }
}
