/** Byte strings, little-endian numbers in them and single bits of them. */
module Bytes {
  import opened Dyadic

  type byte = x: nat | x < 256

  /** The string with `s` copied in at `off`. */
  function Put(b: seq<byte>, off: nat, s: seq<byte>): (r: seq<byte>)
    requires off + |s| <= |b|
    ensures |r| == |b|
  {
    b[..off] + s + b[off + |s|..]
  }

  lemma PutAt(b: seq<byte>, off: nat, s: seq<byte>, k: nat)
    requires off + |s| <= |b| && k < |b|
    ensures Put(b, off, s)[k] == if off <= k < off + |s| then s[k - off] else b[k]
  {
  }

  function Le16(v: nat): (r: seq<byte>)
    ensures |r| == 2
  {
    [v % 256, v / 256 % 256]
  }

  function Le32(v: nat): (r: seq<byte>)
    ensures |r| == 4
  {
    [v % 256, v / 256 % 256, v / 65536 % 256, v / 16777216 % 256]
  }

  function Get16(b: seq<byte>, off: nat): nat
    requires off + 2 <= |b|
  {
    b[off] as nat + 256 * (b[off + 1] as nat)
  }

  function Get32(b: seq<byte>, off: nat): nat
    requires off + 4 <= |b|
  {
    b[off] as nat + 256 * (b[off + 1] as nat) + 65536 * (b[off + 2] as nat) + 16777216 * (b[off + 3] as nat)
  }

  /** A number that fits is read back as it was written. */
  lemma GetPut32(b: seq<byte>, off: nat, v: nat)
    requires off + 4 <= |b| && v < 0x1_0000_0000
    ensures Get32(Put(b, off, Le32(v)), off) == v
  {
    PutAt(b, off, Le32(v), off);
    PutAt(b, off, Le32(v), off + 1);
    PutAt(b, off, Le32(v), off + 2);
    PutAt(b, off, Le32(v), off + 3);
    assert v == v % 256 + 256 * (v / 256 % 256) + 65536 * (v / 65536 % 256) + 16777216 * (v / 16777216 % 256);
  }

  lemma GetPut16(b: seq<byte>, off: nat, v: nat)
    requires off + 2 <= |b| && v < 0x1_0000
    ensures Get16(Put(b, off, Le16(v)), off) == v
  {
    PutAt(b, off, Le16(v), off);
    PutAt(b, off, Le16(v), off + 1);
  }

  /** Two strings agree on `lo .. hi`. */
  ghost predicate SameRange(a: seq<byte>, b: seq<byte>, lo: nat, hi: nat) {
    |a| == |b| && hi <= |a| && forall k :: lo <= k < hi ==> a[k] == b[k]
  }

  /** Copying leaves everything outside the copy alone. */
  lemma PutKeeps(b: seq<byte>, off: nat, s: seq<byte>, lo: nat, hi: nat)
    requires off + |s| <= |b| && hi <= |b| && (hi <= off || off + |s| <= lo)
    ensures SameRange(b, Put(b, off, s), lo, hi)
  {
    forall k | lo <= k < hi ensures b[k] == Put(b, off, s)[k] {
      PutAt(b, off, s, k);
    }
  }

  lemma SameNumbers(a: seq<byte>, b: seq<byte>, off: nat)
    requires off + 2 <= |a| && SameRange(a, b, off, off + 2)
    ensures Get16(a, off) == Get16(b, off)
    ensures off + 4 <= |a| && SameRange(a, b, off, off + 4) ==> Get32(a, off) == Get32(b, off)
  {
  }

  // ---- bits ----

  predicate BitOf(v: nat, k: nat) {
    if k == 0 then v % 2 == 1 else BitOf(v / 2, k - 1)
  }

  /** `v | (1 << k)` in `n` bits. */
  function WithBit(v: nat, k: nat, n: nat): (r: nat)
    requires k < n && v < Pow2(n)
    ensures r < Pow2(n)
  {
    if k == 0 then v - v % 2 + 1 else 2 * WithBit(v / 2, k - 1, n - 1) + v % 2
  }

  lemma {:induction false} WithBitSets(v: nat, k: nat, n: nat, j: nat)
    requires k < n && v < Pow2(n)
    ensures BitOf(WithBit(v, k, n), j) <==> j == k || BitOf(v, j)
  {
    if k == 0 {
      assert (v - v % 2 + 1) / 2 == v / 2;
    } else if j > 0 {
      WithBitSets(v / 2, k - 1, n - 1, j - 1);
      assert (2 * WithBit(v / 2, k - 1, n - 1) + v % 2) / 2 == WithBit(v / 2, k - 1, n - 1);
    }
  }

  predicate Bit(b: seq<byte>, i: nat)
    requires i / 8 < |b|
  {
    BitOf(b[i / 8], i % 8)
  }

  function SetBit(b: seq<byte>, i: nat): (r: seq<byte>)
    requires i / 8 < |b|
    ensures |r| == |b|
  {
    assert Pow2(8) == 256;
    b[i / 8 := WithBit(b[i / 8], i % 8, 8)]
  }

  lemma SetBitSets(b: seq<byte>, i: nat, j: nat)
    requires i / 8 < |b| && j / 8 < |b|
    ensures Bit(SetBit(b, i), j) <==> j == i || Bit(b, j)
  {
    if i / 8 == j / 8 {
      assert Pow2(8) == 256;
      WithBitSets(b[i / 8], i % 8, 8, j % 8);
    }
  }

  // ---- several fields ----

  datatype Field = Field(offset: nat, bytes: seq<byte>)

  predicate Fit(fields: seq<Field>, n: nat) {
    forall f :: f in fields ==> f.offset + |f.bytes| <= n
  }

  function PutAll(b: seq<byte>, fields: seq<Field>): (r: seq<byte>)
    requires Fit(fields, |b|)
    ensures |r| == |b|
    decreases |fields|
  {
    if fields == [] then b else PutAll(Put(b, fields[0].offset, fields[0].bytes), fields[1..])
  }

  predicate Clear(fields: seq<Field>, lo: nat, hi: nat) {
    forall f :: f in fields ==> hi <= f.offset || f.offset + |f.bytes| <= lo
  }

  /** Fields elsewhere leave a range alone. */
  lemma {:induction false} PutAllKeeps(b: seq<byte>, fields: seq<Field>, lo: nat, hi: nat)
    requires Fit(fields, |b|) && hi <= |b| && Clear(fields, lo, hi)
    ensures SameRange(b, PutAll(b, fields), lo, hi)
    decreases |fields|
  {
    if fields != [] {
      PutKeeps(b, fields[0].offset, fields[0].bytes, lo, hi);
      PutAllKeeps(Put(b, fields[0].offset, fields[0].bytes), fields[1..], lo, hi);
    }
  }

  /** A field that no later one overlaps is read back. */
  lemma {:induction false} FieldStays(b: seq<byte>, fields: seq<Field>, i: nat)
    requires Fit(fields, |b|) && i < |fields|
    requires Clear(fields[i + 1..], fields[i].offset, fields[i].offset + |fields[i].bytes|)
    ensures PutAll(b, fields)[fields[i].offset..fields[i].offset + |fields[i].bytes|] == fields[i].bytes
    decreases |fields|
  {
    var f := fields[0];
    var b1 := Put(b, f.offset, f.bytes);
    if i == 0 {
      PutAllKeeps(b1, fields[1..], f.offset, f.offset + |f.bytes|);
      forall k: nat | k < |f.bytes| ensures b1[f.offset + k] == f.bytes[k] {
        PutAt(b, f.offset, f.bytes, f.offset + k);
      }
    } else {
      assert fields[1..][i - 1] == fields[i] && fields[1..][i..] == fields[i + 1..];
      FieldStays(b1, fields[1..], i - 1);
    }
  }

  lemma Read32(b: seq<byte>, off: nat, v: nat)
    requires off + 4 <= |b| && v < 0x1_0000_0000 && b[off..off + 4] == Le32(v)
    ensures Get32(b, off) == v
  {
    assert Put(b, off, Le32(v)) == b;
    GetPut32(b, off, v);
  }

  lemma Read16(b: seq<byte>, off: nat, v: nat)
    requires off + 2 <= |b| && v < 0x1_0000 && b[off..off + 2] == Le16(v)
    ensures Get16(b, off) == v
  {
    assert Put(b, off, Le16(v)) == b;
    GetPut16(b, off, v);
  }
}
