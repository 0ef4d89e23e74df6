/**
 * Round-robin placement of the blocks of a file, and of their replicas, over the
 * data servers (src/xpn_client/xpn/xpn_simple/policy/xpn_policy_rw.c).
 */
module Striping {
  import DivMod

  /** Block size, replication level, number of servers and first server of a file. */
  datatype Layout = Layout(blockSize: int, replicationLevel: int, nserv: int, firstNode: int) {
    predicate Valid() { 0 < blockSize && 0 <= replicationLevel && 0 < nserv && 0 <= firstNode }
  }

  /** A byte of a data server: which server, and at which offset behind the header. */
  datatype Place = Place(serv: int, localOffset: int)

  /** A byte of one copy of the file. */
  datatype Source = Source(offset: int, replication: int)

  predicate ValidSource(l: Layout, src: Source) {
    0 <= src.offset && 0 <= src.replication <= l.replicationLevel
  }

  predicate ValidPlace(l: Layout, p: Place) {
    0 <= p.serv < l.nserv && 0 <= p.localOffset
  }

  /** q * n + r */
  function Weighted(q: int, n: int, r: int): (a: int)
    requires 0 <= q && 0 < n && 0 <= r
    ensures 0 <= a
    ensures r < n ==> a / n == q && a % n == r
  {
    assert 0 <= q * n;
    if r < n then DivMod.Unique(q * n + r, n, q, r); q * n + r else q * n + r
  }

  /** The block copy stored in a line of a server, and the byte of it. */
  function SourceOf(l: Layout, blockReplication: int, x: int): (src: Source)
    requires l.Valid() && 0 <= blockReplication && 0 <= x
    ensures ValidSource(l, src)
  {
    Source(Weighted(blockReplication / (l.replicationLevel + 1), l.blockSize, x),
           blockReplication % (l.replicationLevel + 1))
  }

  /** Byte x of a block copy, the copies being dealt out to the servers one by one. */
  function PlaceOf(l: Layout, blockReplication: int, x: int): (p: Place)
    requires l.Valid() && 0 <= blockReplication && 0 <= x
    ensures ValidPlace(l, p)
  {
    var blockLine := blockReplication / l.nserv;
    Place((blockReplication + l.firstNode) % l.nserv, Weighted(blockLine, l.blockSize, x))
  }

  function CalculateBlock(l: Layout, src: Source): (p: Place)
    requires l.Valid() && 0 <= src.offset && 0 <= src.replication
    ensures ValidPlace(l, p)
  {
    var block := src.offset / l.blockSize;
    var blockReplication := Weighted(block, l.replicationLevel + 1, src.replication);
    PlaceOf(l, blockReplication, src.offset % l.blockSize)
  }

  function CalculateBlockInvert(l: Layout, p: Place): (src: Source)
    requires l.Valid() && 0 <= p.localOffset
    ensures ValidSource(l, src)
  {
    var blockLine := p.localOffset / l.blockSize;
    DivMod.NormalizedRem(p.serv - l.firstNode, l.nserv);
    var turn := DivMod.TruncRem(DivMod.TruncRem(p.serv - l.firstNode, l.nserv) + l.nserv, l.nserv);
    SourceOf(l, Weighted(blockLine, l.nserv, turn), p.localOffset % l.blockSize)
  }

  /** The server turn of a block copy: undoing the rotation by the first node. */
  lemma TurnOfServer(br: int, first: int, n: int)
    requires 0 < n && 0 <= br
    ensures ((br + first) % n - first) % n == br % n
  {
    var q := (br + first) / n;
    assert (br + first) % n - first == br + (-q) * n;
    DivMod.AddTurns(br, -q, n);
  }

  lemma ServerOfTurn(line: int, s: int, first: int, n: int)
    requires 0 < n && 0 <= s < n
    ensures (line * n + (s - first) % n + first) % n == s
  {
    var q := (s - first) / n;
    assert line * n + (s - first) % n + first == s + (line - q) * n;
    DivMod.AddTurns(s, line - q, n);
    DivMod.Unique(s, n, 0, s);
  }

  lemma Reassemble(a: int, n: int)
    requires 0 <= a && 0 < n
    ensures 0 <= a / n && 0 <= a % n && Weighted(a / n, n, a % n) == a
  {
    DivMod.Bounds(a, n);
  }

  lemma InvertOfPlace(l: Layout, br: int, x: int)
    requires l.Valid() && 0 <= br && 0 <= x < l.blockSize
    ensures CalculateBlockInvert(l, PlaceOf(l, br, x)) == SourceOf(l, br, x)
  {
    var p := PlaceOf(l, br, x);
    assert p.localOffset / l.blockSize == br / l.nserv && p.localOffset % l.blockSize == x;
    DivMod.NormalizedRem(p.serv - l.firstNode, l.nserv);
    TurnOfServer(br, l.firstNode, l.nserv);
    Reassemble(br, l.nserv);
  }

  lemma CalculateOfSource(l: Layout, br: int, x: int)
    requires l.Valid() && 0 <= br && 0 <= x < l.blockSize
    ensures CalculateBlock(l, SourceOf(l, br, x)) == PlaceOf(l, br, x)
  {
    var src := SourceOf(l, br, x);
    assert src.offset / l.blockSize == br / (l.replicationLevel + 1) && src.offset % l.blockSize == x;
    Reassemble(br, l.replicationLevel + 1);
  }

  /** Going to the server and back gives the same byte of the same copy. */
  lemma InvertAfterCalculate(l: Layout, src: Source)
    requires l.Valid() && ValidSource(l, src)
    ensures CalculateBlockInvert(l, CalculateBlock(l, src)) == src
  {
    var block, x := src.offset / l.blockSize, src.offset % l.blockSize;
    var br := Weighted(block, l.replicationLevel + 1, src.replication);
    InvertOfPlace(l, br, x);
    Reassemble(src.offset, l.blockSize);
  }

  /** Going to the file and back gives the same byte of the same server. */
  lemma CalculateAfterInvert(l: Layout, p: Place)
    requires l.Valid() && ValidPlace(l, p)
    ensures CalculateBlock(l, CalculateBlockInvert(l, p)) == p
  {
    var line, x := p.localOffset / l.blockSize, p.localOffset % l.blockSize;
    DivMod.NormalizedRem(p.serv - l.firstNode, l.nserv);
    var br := Weighted(line, l.nserv, (p.serv - l.firstNode) % l.nserv);
    CalculateOfSource(l, br, x);
    ServerOfTurn(line, p.serv, l.firstNode, l.nserv);
    Reassemble(p.localOffset, l.blockSize);
  }

  /** Inside one block, places follow the bytes: the copy loops move whole blocks. */
  lemma BlockIsContiguous(l: Layout, p: Place, x: int)
    requires l.Valid() && ValidPlace(l, p) && p.localOffset % l.blockSize == 0 && 0 <= x < l.blockSize
    ensures CalculateBlockInvert(l, Place(p.serv, p.localOffset + x))
         == var src := CalculateBlockInvert(l, p); Source(src.offset + x, src.replication)
  {
    DivMod.Unique(p.localOffset + x, l.blockSize, p.localOffset / l.blockSize, x);
  }

  lemma SourceBlockIsContiguous(l: Layout, src: Source, x: int)
    requires l.Valid() && ValidSource(l, src) && src.offset % l.blockSize == 0 && 0 <= x < l.blockSize
    ensures CalculateBlock(l, Source(src.offset + x, src.replication))
         == Place(CalculateBlock(l, src).serv, CalculateBlock(l, src).localOffset + x)
  {
    DivMod.Unique(src.offset + x, l.blockSize, src.offset / l.blockSize, x);
  }

  // ----- round robin

  /** q is the place dealt next after p: the next server, a line further on after a full turn. */
  predicate Follows(l: Layout, p: Place, q: Place)
    requires l.Valid()
  {
    && q.serv == (p.serv + 1) % l.nserv
    && q.localOffset == p.localOffset + if q.serv == l.firstNode % l.nserv then l.blockSize else 0
  }

  lemma SameTurn(a: int, f: int, n: int)
    requires 0 < n && 0 <= a
    ensures (a + f) % n == f % n <==> a % n == 0
  {
    assert a + f == f % n + a % n + (a / n + f / n) * n;
    DivMod.AddTurns(f % n + a % n, a / n + f / n, n);
    if f % n + a % n < n {
      DivMod.Unique(f % n + a % n, n, 0, f % n + a % n);
    } else {
      DivMod.Unique(f % n + a % n, n, 1, f % n + a % n - n);
    }
  }

  lemma NextPlace(l: Layout, br: int)
    requires l.Valid() && 0 <= br
    ensures Follows(l, PlaceOf(l, br, 0), PlaceOf(l, br + 1, 0))
  {
    DivMod.Successor(br + l.firstNode, l.nserv);
    SameTurn(br + 1, l.firstNode, l.nserv);
    DivMod.Successor(br, l.nserv);
    OneLineMore(br / l.nserv, l.blockSize);
  }

  lemma OneLineMore(q: int, bs: int)
    ensures (q + 1) * bs == q * bs + bs
  {
  }

  lemma BlockPlace(l: Layout, block: int, r: int)
    requires l.Valid() && 0 <= block && 0 <= r
    ensures 0 <= block * l.blockSize && 0 <= block * (l.replicationLevel + 1) + r
    ensures CalculateBlock(l, Source(block * l.blockSize, r)) == PlaceOf(l, block * (l.replicationLevel + 1) + r, 0)
  {
    assert Weighted(block, l.blockSize, 0) == block * l.blockSize;
    assert Weighted(block, l.replicationLevel + 1, r) == block * (l.replicationLevel + 1) + r;
  }

  /**
   * Block copies are dealt out one by one: the first copy of block 0 begins the first node,
   * the next copy of a block follows it, and so does the first copy of the next block.
   */
  lemma DealtOneByOne(l: Layout, block: int, r: int)
    requires l.Valid() && 0 <= block && 0 <= r <= l.replicationLevel
    ensures CalculateBlock(l, Source(0, 0)) == Place(l.firstNode % l.nserv, 0)
    ensures 0 <= block * l.blockSize && 0 <= (block + 1) * l.blockSize
    ensures var next := if r < l.replicationLevel then Source(block * l.blockSize, r + 1) else Source((block + 1) * l.blockSize, 0);
      Follows(l, CalculateBlock(l, Source(block * l.blockSize, r)), CalculateBlock(l, next))
  {
    BlockPlace(l, 0, 0);
    DivMod.Unique(0, l.nserv, 0, 0);
    BlockPlace(l, block, r);
    if r < l.replicationLevel { BlockPlace(l, block, r + 1); } else { BlockPlace(l, block + 1, 0); }
    OneLineMore(block, l.replicationLevel + 1);
    NextPlace(l, block * (l.replicationLevel + 1) + r);
  }

  /**
   * The copies of every byte lie on distinct servers exactly when there are at least
   * as many servers as copies.
   */
  lemma CopiesOnDistinctServers(l: Layout)
    requires l.Valid()
    ensures CopiesDistinct(l) <==> l.replicationLevel < l.nserv
  {
    if l.replicationLevel < l.nserv {
      forall o, r1, r2 | 0 <= o && 0 <= r1 < r2 <= l.replicationLevel
        ensures CalculateBlock(l, Source(o, r1)).serv != CalculateBlock(l, Source(o, r2)).serv
      {
        EnoughServers(l, o, r1, r2);
      }
    } else {
      TooManyCopies(l);
    }
  }

  lemma EnoughServers(l: Layout, o: int, r1: int, r2: int)
    requires l.Valid() && l.replicationLevel < l.nserv && 0 <= o && 0 <= r1 < r2 <= l.replicationLevel
    ensures CalculateBlock(l, Source(o, r1)).serv != CalculateBlock(l, Source(o, r2)).serv
  {
    var first := (o / l.blockSize) * (l.replicationLevel + 1);
    assert Weighted(o / l.blockSize, l.replicationLevel + 1, r1) == first + r1;
    assert Weighted(o / l.blockSize, l.replicationLevel + 1, r2) == first + r2;
    DistinctTurns(first, r1, r2, l.firstNode, l.nserv);
  }

  /** With more copies than servers, copies 0 and nserv of the first block share a server. */
  lemma TooManyCopies(l: Layout)
    requires l.Valid() && l.nserv <= l.replicationLevel
    ensures !CopiesDistinct(l)
  {
    DivMod.Unique(0, l.blockSize, 0, 0);
    DivMod.AddTurns(l.firstNode, 1, l.nserv);
    assert CalculateBlock(l, Source(0, 0)).serv == CalculateBlock(l, Source(0, l.nserv)).serv;
  }

  ghost predicate CopiesDistinct(l: Layout)
    requires l.Valid()
  {
    forall o, r1, r2 :: 0 <= o && 0 <= r1 < r2 <= l.replicationLevel ==>
      CalculateBlock(l, Source(o, r1)).serv != CalculateBlock(l, Source(o, r2)).serv
  }

  lemma DistinctTurns(base: int, r1: int, r2: int, first: int, n: int)
    requires 0 <= r1 < r2 < n + r1 && 0 < n
    ensures (base + r1 + first) % n != (base + r2 + first) % n
  {
    var a, b := base + r1 + first, base + r2 + first;
    if a % n == b % n {
      var d := b / n - a / n;
      assert d * n == r2 - r1;
      if d >= 1 { DivMod.MulAtLeast(d, n); } else { DivMod.MulAtMostZero(d, n); }
    }
  }

  /**
   * With fewer lost servers than copies, and copies on distinct servers, every byte
   * of the file still has a copy on a server that is up.
   */
  lemma {:induction false} SurvivesLostServers(l: Layout, offset: int, lost: set<int>, copies: nat)
    returns (r: int)
    requires l.Valid() && CopiesDistinct(l) && 0 <= offset
    requires |lost| < copies <= l.replicationLevel + 1
    ensures 0 <= r < copies && CalculateBlock(l, Source(offset, r)).serv !in lost
    decreases copies
  {
    r := copies - 1;
    var s := CalculateBlock(l, Source(offset, r)).serv;
    if s in lost {
      r := SurvivesLostServers(l, offset, lost - {s}, copies - 1);
    }
  }
}
