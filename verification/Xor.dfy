/** The XOR loops of src/base/math_misc.c, and the algebra of the blocks they compute. */
module Xor {
  import opened ByteStrings

  /** XOR of a column of bytes, in the order of the loop over the blocks. */
  function XorOf(column: Bytes): bv8 {
    if column == [] then 0 else XorOf(column[..|column| - 1]) ^ column[|column| - 1]
  }

  function Column(blocks: seq<Bytes>, b: nat): Bytes
    requires forall j :: 0 <= j < |blocks| ==> b < |blocks[j]|
  {
    seq(|blocks|, j requires 0 <= j < |blocks| => blocks[j][b])
  }

  ghost predicate SameSize(blocks: seq<Bytes>, size: nat) {
    forall j :: 0 <= j < |blocks| ==> |blocks[j]| == size
  }

  /** The byte-wise XOR of a number of blocks of one size. */
  function XorBlocks(blocks: seq<Bytes>, size: nat): Bytes
    requires SameSize(blocks, size)
  {
    seq(size, b requires 0 <= b < size => XorOf(Column(blocks, b)))
  }

  function Without<T>(s: seq<T>, j: nat): seq<T>
    requires j < |s|
  {
    s[..j] + s[j + 1..]
  }

  lemma Cancel(a: bv8, b: bv8)
    ensures a ^ b ^ b == a
    ensures a ^ b == b ^ a
  {
  }

  lemma Regroup(a: bv8, b: bv8, c: bv8, d: bv8)
    ensures a ^ b ^ c ^ d == a ^ d ^ b ^ c
  {
  }

  /** Replacing one byte of a column changes its XOR by the difference. */
  lemma {:induction false} XorOfUpdate(xs: Bytes, j: nat, v: bv8)
    requires j < |xs|
    ensures XorOf(xs[j := v]) == XorOf(xs) ^ xs[j] ^ v
  {
    var n := |xs| - 1;
    if j == n {
      assert xs[j := v][..n] == xs[..n];
      Cancel(XorOf(xs[..n]), xs[n]);
    } else {
      XorOfUpdate(xs[..n], j, v);
      assert xs[j := v][..n] == xs[..n][j := v];
      Regroup(XorOf(xs[..n]), xs[j], v, xs[n]);
    }
  }

  /** The XOR of all bytes but one. */
  lemma {:induction false} XorOfWithout(xs: Bytes, j: nat)
    requires j < |xs|
    ensures XorOf(Without(xs, j)) == XorOf(xs) ^ xs[j]
  {
    var n := |xs| - 1;
    if j == n {
      assert Without(xs, j) == xs[..n];
      Cancel(XorOf(xs[..n]), xs[n]);
    } else {
      XorOfWithout(xs[..n], j);
      assert Without(xs, j)[..n - 1] == Without(xs[..n], j);
      Swap(XorOf(xs[..n]), xs[j], xs[n]);
    }
  }

  lemma Swap(a: bv8, b: bv8, c: bv8)
    ensures a ^ b ^ c == a ^ c ^ b
  {
  }

  /**
   * If one block is the XOR of all the others, every block is the XOR of all the others.
   */
  lemma AnyBlockFromTheOthers(blocks: seq<Bytes>, size: nat, p: nat, f: nat)
    requires SameSize(blocks, size) && p < |blocks| && f < |blocks|
    requires blocks[p] == XorBlocks(Without(blocks, p), size)
    ensures blocks[f] == XorBlocks(Without(blocks, f), size)
  {
    forall b | 0 <= b < size ensures blocks[f][b] == XorOf(Column(Without(blocks, f), b)) {
      var col := Column(blocks, b);
      ColumnWithout(blocks, size, p, b);
      ColumnWithout(blocks, size, f, b);
      XorOfWithout(col, p);
      XorOfWithout(col, f);
      assert blocks[p][b] == XorBlocks(Without(blocks, p), size)[b];
      FromParity(XorOf(col), col[p], col[f]);
    }
  }

  lemma FromParity(all: bv8, p: bv8, f: bv8)
    requires p == all ^ p
    ensures f == all ^ f
  {
    Cancel(all, p);
    assert all == 0;
  }

  /** The parity byte after a small write: old parity, old data and new data. */
  function Xor3Blocks(p: Bytes, d: Bytes, n: Bytes, size: nat): Bytes
    requires |p| == |d| == |n| == size
  {
    seq(size, b requires 0 <= b < size => p[b] ^ d[b] ^ n[b])
  }

  lemma ColumnParityUpdate(col: Bytes, p: nat, d: nat, v: bv8)
    requires p < |col| && d < |col| && p != d && col[p] == XorOf(Without(col, p))
    ensures col[p] ^ col[d] ^ v == XorOf(Without(col[d := v], p))
  {
    XorOfWithout(col, p);
    XorOfWithout(col[d := v], p);
    XorOfUpdate(col, d, v);
    Regroup(XorOf(col), col[d], v, col[p]);
  }

  /** Writing data block d and updating parity block p with Xor3 keeps the parity right. */
  lemma ParityUpdate(blocks: seq<Bytes>, size: nat, p: nat, d: nat, data: Bytes)
    requires SameSize(blocks, size) && p < |blocks| && d < |blocks| && p != d && |data| == size
    requires blocks[p] == XorBlocks(Without(blocks, p), size)
    ensures var after := blocks[d := data][p := Xor3Blocks(blocks[p], blocks[d], data, size)];
      SameSize(after, size) && after[p] == XorBlocks(Without(after, p), size)
  {
    var after := blocks[d := data][p := Xor3Blocks(blocks[p], blocks[d], data, size)];
    forall b | 0 <= b < size ensures after[p][b] == XorOf(Column(Without(after, p), b)) {
      assert blocks[p][b] == XorBlocks(Without(blocks, p), size)[b];
      ColumnWithout(blocks, size, p, b);
      ColumnParityUpdate(Column(blocks, b), p, d, data[b]);
      ColumnAfterUpdate(blocks, size, p, d, data, after, b);
    }
  }

  lemma ColumnAfterUpdate(blocks: seq<Bytes>, size: nat, p: nat, d: nat, data: Bytes, after: seq<Bytes>, b: nat)
    requires SameSize(blocks, size) && p < |blocks| && d < |blocks| && p != d && |data| == size && b < size
    requires SameSize(after, size) && |after| == |blocks| && after == blocks[d := data][p := after[p]]
    ensures Column(Without(after, p), b) == Without(Column(blocks, b)[d := data[b]], p)
  {
    ColumnWithout(after, size, p, b);
    assert Column(after, b) == Column(blocks, b)[d := data[b]][p := after[p][b]];
  }

  lemma ColumnWithout(blocks: seq<Bytes>, size: nat, p: nat, b: nat)
    requires SameSize(blocks, size) && p < |blocks| && b < size
    ensures Column(Without(blocks, p), b) == Without(Column(blocks, b), p)
  {
  }

  /** block_result = block_1 ^ block_2; the result may be one of the inputs. */
  method Xor(result: array<bv8>, block1: array<bv8>, block2: array<bv8>, blockSize: int) returns (ret: int)
    requires blockSize <= result.Length && blockSize <= block1.Length && blockSize <= block2.Length
    modifies result
    ensures ret == 1
    ensures forall b :: 0 <= b < blockSize ==> result[b] == old(block1[b]) ^ old(block2[b])
    ensures forall b :: 0 <= b < result.Length && blockSize <= b ==> result[b] == old(result[b])
  {
    var i := 0;
    while i < blockSize
      invariant i == 0 || 0 < i <= blockSize
      invariant forall b :: 0 <= b < i && b < blockSize ==> result[b] == old(block1[b]) ^ old(block2[b])
      invariant forall b :: i <= b < result.Length ==> result[b] == old(result[b])
      invariant forall b :: i <= b < block1.Length ==> block1[b] == old(block1[b])
      invariant forall b :: i <= b < block2.Length ==> block2[b] == old(block2[b])
    {
      result[i] := block1[i] ^ block2[i];
      i := i + 1;
    }
    return 1;
  }

  /** block_result = block_1 ^ block_2 ^ block_3; the result may be one of the inputs. */
  method Xor3(result: array<bv8>, block1: array<bv8>, block2: array<bv8>, block3: array<bv8>, blockSize: int)
    returns (ret: int)
    requires blockSize <= result.Length && blockSize <= block1.Length
    requires blockSize <= block2.Length && blockSize <= block3.Length
    modifies result
    ensures ret == 1
    ensures 0 <= blockSize ==> (
        result[..blockSize]
        == Xor3Blocks(old(block1[..blockSize]), old(block2[..blockSize]), old(block3[..blockSize]), blockSize))
    ensures forall b :: 0 <= b < result.Length && blockSize <= b ==> result[b] == old(result[b])
  {
    var i := 0;
    while i < blockSize
      invariant i == 0 || 0 < i <= blockSize
      invariant forall b :: 0 <= b < i && b < blockSize ==>
        result[b] == old(block1[b]) ^ old(block2[b]) ^ old(block3[b])
      invariant forall b :: i <= b < result.Length ==> result[b] == old(result[b])
      invariant forall b :: i <= b < block1.Length ==> block1[b] == old(block1[b])
      invariant forall b :: i <= b < block2.Length ==> block2[b] == old(block2[b])
      invariant forall b :: i <= b < block3.Length ==> block3[b] == old(block3[b])
    {
      result[i] := block1[i] ^ block2[i] ^ block3[i];
      i := i + 1;
    }
    return 1;
  }

  /** The first nblocks blocks, each cut to blockSize bytes. */
  ghost function Contents(blocks: seq<array<bv8>>, nblocks: nat, blockSize: nat): (r: seq<Bytes>)
    requires nblocks <= |blocks| && forall j :: 0 <= j < nblocks ==> blockSize <= blocks[j].Length
    reads blocks
    ensures |r| == nblocks && forall j :: 0 <= j < nblocks ==> r[j] == blocks[j][..blockSize]
  {
    if nblocks == 0 then []
    else Contents(blocks, nblocks - 1, blockSize) + [blocks[nblocks - 1][..blockSize]]
  }

  /** The inner loop of XorN: byte i of the result. */
  method XorByte(result: array<bv8>, blocks: seq<array<bv8>>, nblocks: nat, i: nat, ghost col: Bytes)
    requires 1 <= nblocks == |col| <= |blocks| && i < result.Length
    requires forall j :: 0 <= j < nblocks ==> i < blocks[j].Length && blocks[j][i] == col[j]
    requires forall j :: 1 <= j < nblocks ==> blocks[j] != result
    modifies result
    ensures result[i] == XorOf(col)
    ensures forall b :: 0 <= b < result.Length && b != i ==> result[b] == old(result[b])
  {
    result[i] := blocks[0][i];
    assert col[..1] == [col[0]];
    var j := 1;
    while j < nblocks
      invariant 1 <= j <= nblocks
      invariant result[i] == XorOf(col[..j])
      invariant forall b :: 0 <= b < result.Length && b != i ==> result[b] == old(result[b])
    {
      assert col[..j + 1][..j] == col[..j];
      result[i] := result[i] ^ blocks[j][i];
      j := j + 1;
    }
    assert col[..nblocks] == col;
  }

  /**
   * block_result = blocks[0] ^ ... ^ blocks[nblocks-1]. The result may be blocks[0],
   * but none of the later blocks: they are read after the result byte is written.
   */
  method XorN(result: array<bv8>, blocks: seq<array<bv8>>, nblocks: nat, blockSize: nat) returns (ret: int)
    requires 1 <= nblocks <= |blocks| && blockSize <= result.Length
    requires forall j :: 0 <= j < nblocks ==> blockSize <= blocks[j].Length
    requires forall j :: 1 <= j < nblocks ==> blocks[j] != result
    modifies result
    ensures ret == 1
    ensures SameSize(old(Contents(blocks, nblocks, blockSize)), blockSize)
    ensures result[..blockSize] == XorBlocks(old(Contents(blocks, nblocks, blockSize)), blockSize)
    ensures forall b :: blockSize <= b < result.Length ==> result[b] == old(result[b])
  {
    ghost var was := Contents(blocks, nblocks, blockSize);
    var i := 0;
    while i < blockSize
      invariant 0 <= i <= blockSize
      invariant forall b :: 0 <= b < i ==> result[b] == XorOf(Column(was, b))
      invariant forall b :: i <= b < result.Length ==> result[b] == old(result[b])
    {
      XorByte(result, blocks, nblocks, i, Column(was, i));
      i := i + 1;
    }
    return 1;
  }
}
