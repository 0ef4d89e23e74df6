/**
 * Placement of a file whose metadata records expansions: every expansion begins a new
 * segment of blocks, dealt out over more servers (XpnCalculateBlockMdata of
 * src/xpn_client/xpn/xpn_simple/policy/xpn_policy_rw.c).
 */
module ExpandedPlacement {
  import DivMod
  import opened Striping

  const MAX_RECONSTRUCTIONS: nat := 40

  /**
   * The used entries of the metadata of a file that was expanded |nserv| - 1 times:
   * nserv[i] servers hold the blocks behind block offsets[i].
   */
  datatype Metadata = Metadata(blockSize: int, replicationLevel: int, firstNode: int, nserv: seq<int>, offsets: seq<int>) {
    /** The lookups of entries i + 1 and i + 2 stay inside the arrays of the metadata. */
    predicate Valid() {
      && 0 < blockSize && 0 <= replicationLevel && 0 <= firstNode
      && 1 <= |nserv| == |offsets| <= MAX_RECONSTRUCTIONS - 2
      && offsets[0] == 0
      && (forall i :: 0 <= i < |nserv| ==> 0 < nserv[i])
      && (forall i, j :: 0 <= i < j < |nserv| ==> nserv[i] <= nserv[j])
    }

    function LayoutAt(i: nat): (l: Layout)
      requires Valid() && i < |nserv|
      ensures l.Valid()
    {
      Layout(blockSize, replicationLevel, nserv[i], firstNode)
    }

    /** The entry as the loop reads it: unused entries are zero. */
    function ServersOf(i: nat): int { if i < |nserv| then nserv[i] else 0 }
    function OffsetOf(i: nat): int { if i < |offsets| then offsets[i] else 0 }
  }

  /** The first block of a segment. */
  function Start(m: Metadata, i: nat): int {
    if i == 0 then 0 else m.OffsetOf(i) + 1
  }

  /** The segment of a block: the first one whose upper bound is not below it, or the last. */
  function Segment(m: Metadata, block: int, i: nat): (s: nat)
    requires m.Valid() && i < |m.nserv|
    ensures i <= s < |m.nserv|
    decreases |m.nserv| - i
  {
    if i + 1 == |m.nserv| || block <= m.offsets[i + 1] || m.offsets[i + 1] == 0 then i else Segment(m, block, i + 1)
  }

  /** The bytes that blocks 0..p, with all copies, take on a server; p may be negative. */
  function Advance(l: Layout, p: int): int
    requires l.Valid()
  {
    l.blockSize
    + if p >= 0 then CalculateBlock(l, Source(Weighted(p, l.blockSize, 0), l.replicationLevel)).localOffset
      else -((-(p * (l.replicationLevel + 1) + l.replicationLevel)) / l.nserv) * l.blockSize
  }

  /** The last block of segment i - 1, counted from its first one. */
  function LastBlock(m: Metadata, i: nat): int
    requires 1 <= i
  {
    m.OffsetOf(i) - Start(m, i - 1)
  }

  /** Where segment i begins on the servers that were there from the start. */
  function Base(m: Metadata, i: nat): int
    requires m.Valid() && i < |m.nserv|
  {
    if i == 0 then 0 else Base(m, i - 1) + Advance(m.LayoutAt(i - 1), LastBlock(m, i))
  }

  /** The expansion, up to the i-th, that added a server; 0 for the servers there from the start. */
  function AddedBy(m: Metadata, i: nat, serv: int): (j: nat)
    requires m.Valid() && i < |m.nserv|
    ensures j <= i
  {
    if i == 0 then 0
    else if m.nserv[i - 1] <= serv < m.nserv[i] then i
    else AddedBy(m, i - 1, serv)
  }

  /** A byte behind the first block of its segment, on the layout of the segment. */
  function InSegment(m: Metadata, src: Source, i: nat): (p: Place)
    requires m.Valid() && i < |m.nserv| && 0 <= src.replication && 0 <= src.offset - m.blockSize * Start(m, i)
    ensures ValidPlace(m.LayoutAt(i), p)
  {
    CalculateBlock(m.LayoutAt(i), Source(src.offset - m.blockSize * Start(m, i), src.replication))
  }

  function SegmentOf(m: Metadata, src: Source): (i: nat)
    requires m.Valid()
    ensures i < |m.nserv|
  {
    Segment(m, src.offset / m.blockSize, 0)
  }

  lemma {:induction false} SegmentBounds(m: Metadata, block: int, i: nat)
    requires m.Valid() && i < |m.nserv| && Start(m, i) <= block
    ensures Start(m, Segment(m, block, i)) <= block
    decreases |m.nserv| - i
  {
    if !(i + 1 == |m.nserv| || block <= m.offsets[i + 1] || m.offsets[i + 1] == 0) { SegmentBounds(m, block, i + 1); }
  }

  lemma BehindItsStart(m: Metadata, src: Source)
    requires m.Valid() && 0 <= src.offset
    ensures 0 <= src.offset - m.blockSize * Start(m, SegmentOf(m, src))
  {
    var block := src.offset / m.blockSize;
    DivMod.Bounds(src.offset, m.blockSize);
    SegmentBounds(m, block, 0);
    BytesOfBlocks(m.blockSize, Start(m, SegmentOf(m, src)), block);
  }

  lemma BytesOfBlocks(n: int, a: int, b: int)
    requires 0 < n && a <= b
    ensures n * a <= b * n
  {
  }

  /** The place of a byte of a copy. */
  function Locate(m: Metadata, src: Source): (p: Place)
    requires m.Valid() && 0 <= src.offset && 0 <= src.replication
  {
    BehindItsStart(m, src);
    var i := SegmentOf(m, src);
    var p := InSegment(m, src, i);
    Place(p.serv, p.localOffset + Base(m, i) - Base(m, AddedBy(m, i, p.serv)))
  }

  // ----- no two copies share a cell

  /** Segment i begins on a server no earlier than the segment before it. */
  predicate StepsOn(m: Metadata, i: nat)
    requires m.Valid() && 1 <= i < |m.nserv|
  {
    0 <= Advance(m.LayoutAt(i - 1), LastBlock(m, i))
  }

  predicate BasesGrow(m: Metadata)
    requires m.Valid()
  {
    forall i :: 1 <= i < |m.nserv| ==> StepsOn(m, i)
  }

  lemma AdvanceNotNegativeExactlyIf(l: Layout, p: int)
    requires l.Valid()
    ensures 0 <= Advance(l, p) <==> 0 <= p || -p * (l.replicationLevel + 1) - l.replicationLevel < 2 * l.nserv
  {
    if p < 0 {
      var x := -p * (l.replicationLevel + 1) - l.replicationLevel;
      MinusTimes(p, l.replicationLevel + 1);
      BackLines(x, l.nserv, l.blockSize);
    }
  }

  lemma MinusTimes(p: int, c: int)
    ensures -p * c == -(p * c)
  {
  }

  lemma BackLines(x: int, n: int, bs: int)
    requires 0 < n && 0 < bs
    ensures 0 <= bs + -(x / n) * bs <==> x < 2 * n
  {
    var q := x / n;
    MinusTimes(q, bs);
    assert (q - 1) * bs == q * bs - bs;
    if q <= 1 { DivMod.MulAtMostZero(q - 1, bs); } else { DivMod.MulAtLeast(q - 1, bs); }
    assert (q - 1) * n == q * n - n;
    if q <= 1 { DivMod.MulAtMostZero(q - 1, n); } else { DivMod.MulAtLeast(q - 1, n); }
  }

  /** The step from entry i - 1 back to entry i is small. */
  predicate SmallStepBack(m: Metadata, i: nat)
    requires m.Valid() && 2 <= i < |m.nserv|
  {
    (m.offsets[i - 1] - m.offsets[i]) * (m.replicationLevel + 1) + 1 < 2 * m.nserv[i - 1]
  }

  lemma FirstStepsOn(m: Metadata)
    requires m.Valid() && 1 < |m.nserv| && -1 <= m.offsets[1]
    ensures StepsOn(m, 1)
  {
    AdvanceNotNegativeExactlyIf(m.LayoutAt(0), LastBlock(m, 1));
    if m.offsets[1] == -1 { MinusTimes(-1, m.replicationLevel + 1); }
  }

  lemma StepsOnExactlyIf(m: Metadata, i: nat)
    requires m.Valid() && 2 <= i < |m.nserv|
    ensures StepsOn(m, i) <==> SmallStepBack(m, i)
    ensures m.offsets[i - 1] <= m.offsets[i] ==> SmallStepBack(m, i)
  {
    var c, d, p := m.replicationLevel + 1, m.offsets[i - 1] - m.offsets[i], LastBlock(m, i);
    AdvanceNotNegativeExactlyIf(m.LayoutAt(i - 1), p);
    assert p == -d - 1;
    StepTimes(d, c);
    if d <= 0 { DivMod.MulAtMostZero(d, c); }
  }

  lemma StepTimes(d: int, c: int)
    ensures -(-d - 1) * c == d * c + c
  {
  }

  /**
   * The bases grow exactly if every step back is small: steps * copies + 1 stays below two
   * lines of the servers the expansion found. Where nothing steps back they always grow.
   */
  lemma BasesGrowExactlyIf(m: Metadata)
    requires m.Valid() && (|m.offsets| > 1 ==> -1 <= m.offsets[1])
    ensures BasesGrow(m) <==> forall i :: 2 <= i < |m.nserv| ==> SmallStepBack(m, i)
    ensures (forall i, j :: 1 <= i < j < |m.offsets| ==> m.offsets[i] <= m.offsets[j]) ==> BasesGrow(m)
  {
    if |m.nserv| > 1 { FirstStepsOn(m); }
    forall i | 2 <= i < |m.nserv|
      ensures StepsOn(m, i) <==> SmallStepBack(m, i)
      ensures m.offsets[i - 1] <= m.offsets[i] ==> SmallStepBack(m, i)
    {
      StepsOnExactlyIf(m, i);
    }
  }

  lemma NextBase(m: Metadata, i: nat)
    requires m.Valid() && i + 1 < |m.nserv|
    ensures Base(m, i + 1) == Base(m, i) + Advance(m.LayoutAt(i), LastBlock(m, i + 1))
  {
  }

  lemma {:induction false} BaseGrows(m: Metadata, i: nat, j: nat)
    requires m.Valid() && BasesGrow(m) && i <= j < |m.nserv|
    ensures Base(m, i) <= Base(m, j)
    decreases j
  {
    if i < j {
      BaseGrows(m, i, j - 1);
      NextBase(m, j - 1);
      assert StepsOn(m, j);
    }
  }

  lemma WeightedGrows(q1: int, q2: int, n: int, r1: int, r2: int)
    requires 0 <= q1 <= q2 && 0 < n && 0 <= r1 < n && 0 <= r2
    requires q1 < q2 || r1 <= r2
    ensures Weighted(q1, n, r1) <= Weighted(q2, n, r2)
  {
    if q1 < q2 { DivMod.MulAtLeast(q2 - q1, n); assert (q2 - q1) * n == q2 * n - q1 * n; }
  }

  /** A segment that ends with block p takes no byte of a server behind what Advance counts. */
  lemma StaysBelowAdvance(l: Layout, src: Source, p: int)
    requires l.Valid() && ValidSource(l, src) && src.offset / l.blockSize <= p
    ensures 0 <= p && CalculateBlock(l, src).localOffset < Advance(l, p)
  {
    var block, x := src.offset / l.blockSize, src.offset % l.blockSize;
    DivMod.Bounds(src.offset, l.blockSize);
    var last := Source(Weighted(p, l.blockSize, 0), l.replicationLevel);
    var br := Weighted(block, l.replicationLevel + 1, src.replication);
    var brLast := Weighted(p, l.replicationLevel + 1, l.replicationLevel);
    WeightedGrows(block, p, l.replicationLevel + 1, src.replication, l.replicationLevel);
    DivMod.Bounds(br, l.nserv);
    DivMod.Monotone(br, brLast, l.nserv);
    LinesApart(br / l.nserv, brLast / l.nserv, l.blockSize, x);
  }

  lemma LinesApart(q1: int, q2: int, n: int, x: int)
    requires 0 <= q1 <= q2 && 0 <= x < n
    ensures Weighted(q1, n, x) < Weighted(q2, n, 0) + n
  {
    if q1 < q2 { DivMod.MulAtLeast(q2 - q1, n); assert (q2 - q1) * n == q2 * n - q1 * n; }
  }

  /** A block of an earlier segment does not go beyond the offset where the next one begins. */
  lemma {:induction false} EndsBefore(m: Metadata, b1: int, b2: int, i: nat)
    requires m.Valid() && i < |m.nserv| && Segment(m, b1, i) < Segment(m, b2, i)
    ensures b1 <= m.offsets[Segment(m, b1, i) + 1]
    decreases |m.nserv| - i
  {
    if Segment(m, b1, i) != i { EndsBefore(m, b1, b2, i + 1); }
  }

  /** The same server was added by the same expansion, whatever segment one looks from. */
  lemma {:induction false} AddedByOneExpansion(m: Metadata, i: nat, j: nat, serv: int)
    requires m.Valid() && i <= j < |m.nserv| && serv < m.nserv[i]
    ensures AddedBy(m, j, serv) == AddedBy(m, i, serv)
  {
    if i < j { AddedByOneExpansion(m, i, j - 1, serv); }
  }

  lemma RelativeBlock(offset: int, n: int, start: int)
    requires 0 < n && 0 <= offset - n * start
    ensures (offset - n * start) / n == offset / n - start
    ensures (offset - n * start) % n == offset % n
  {
    assert offset - n * start == (offset / n - start) * n + offset % n;
    DivMod.Unique(offset - n * start, n, offset / n - start, offset % n);
  }

  /** A byte of some copy of the file. */
  predicate InFile(m: Metadata, src: Source) {
    0 <= src.offset && 0 <= src.replication <= m.replicationLevel
  }

  /** On a server, everything of a segment lies before a later one that begins no earlier than the next. */
  lemma SegmentBefore(m: Metadata, s1: Source, s2: Source)
    requires m.Valid() && InFile(m, s1) && InFile(m, s2) && SegmentOf(m, s1) < SegmentOf(m, s2)
    requires Base(m, SegmentOf(m, s1) + 1) <= Base(m, SegmentOf(m, s2))
    ensures Locate(m, s1).serv == Locate(m, s2).serv ==> Locate(m, s1).localOffset < Locate(m, s2).localOffset
  {
    var i, j := SegmentOf(m, s1), SegmentOf(m, s2);
    BehindItsStart(m, s1);
    BehindItsStart(m, s2);
    var p1, p2 := InSegment(m, s1, i), InSegment(m, s2, j);
    if p1.serv == p2.serv {
      InSegmentBelow(m, s1, s2);
      NextBase(m, i);
      AddedByOneExpansion(m, i, j, p1.serv);
    }
  }

  lemma InSegmentBelow(m: Metadata, s1: Source, s2: Source)
    requires m.Valid() && InFile(m, s1) && InFile(m, s2) && SegmentOf(m, s1) < SegmentOf(m, s2)
    ensures var i := SegmentOf(m, s1);
      && 0 <= s1.offset - m.blockSize * Start(m, i)
      && InSegment(m, s1, i).localOffset < Advance(m.LayoutAt(i), LastBlock(m, i + 1))
  {
    var i := SegmentOf(m, s1);
    BehindItsStart(m, s1);
    EndsBefore(m, s1.offset / m.blockSize, s2.offset / m.blockSize, 0);
    RelativeBlock(s1.offset, m.blockSize, Start(m, i));
    StaysBelowAdvance(m.LayoutAt(i), Source(s1.offset - m.blockSize * Start(m, i), s1.replication), LastBlock(m, i + 1));
  }

  /** If the bases grow, everything of an earlier segment lies before everything of a later one. */
  lemma SegmentsApart(m: Metadata, s1: Source, s2: Source)
    requires m.Valid() && BasesGrow(m)
    requires InFile(m, s1) && InFile(m, s2) && SegmentOf(m, s1) < SegmentOf(m, s2)
    ensures Locate(m, s1).serv == Locate(m, s2).serv ==> Locate(m, s1).localOffset < Locate(m, s2).localOffset
  {
    BaseGrows(m, SegmentOf(m, s1) + 1, SegmentOf(m, s2));
    SegmentBefore(m, s1, s2);
  }

  /** In one segment no two bytes of any copies share a byte of a server. */
  lemma OneSegmentApart(m: Metadata, s1: Source, s2: Source)
    requires m.Valid() && InFile(m, s1) && InFile(m, s2) && SegmentOf(m, s1) == SegmentOf(m, s2) && s1 != s2
    ensures Locate(m, s1) != Locate(m, s2)
  {
    var i := SegmentOf(m, s1);
    BehindItsStart(m, s1);
    BehindItsStart(m, s2);
    var l, start := m.LayoutAt(i), m.blockSize * Start(m, i);
    InvertAfterCalculate(l, Source(s1.offset - start, s1.replication));
    InvertAfterCalculate(l, Source(s2.offset - start, s2.replication));
  }

  /**
   * After any number of expansions with growing bases, no two bytes of any copies of the
   * file share a byte of a server.
   */
  lemma NoTwoShareAPlace(m: Metadata, s1: Source, s2: Source)
    requires m.Valid() && BasesGrow(m) && InFile(m, s1) && InFile(m, s2) && s1 != s2
    ensures Locate(m, s1) != Locate(m, s2)
  {
    if SegmentOf(m, s1) < SegmentOf(m, s2) {
      SegmentsApart(m, s1, s2);
    } else if SegmentOf(m, s2) < SegmentOf(m, s1) {
      SegmentsApart(m, s2, s1);
    } else {
      OneSegmentApart(m, s1, s2);
    }
  }

  /** Every place is on a server of the file's segment, at an offset that is not negative. */
  lemma PlaceExists(m: Metadata, src: Source)
    requires m.Valid() && BasesGrow(m) && 0 <= src.offset && 0 <= src.replication
    ensures ValidPlace(m.LayoutAt(SegmentOf(m, src)), Locate(m, src))
  {
    var i := SegmentOf(m, src);
    BehindItsStart(m, src);
    BaseGrows(m, AddedBy(m, i, InSegment(m, src, i).serv), i);
  }

  /** The copies of a byte lie on distinct servers if the first layout has enough of them. */
  lemma CopiesStayOnDistinctServers(m: Metadata, offset: int, r1: int, r2: int)
    requires m.Valid() && m.replicationLevel < m.nserv[0] && 0 <= offset && 0 <= r1 < r2 <= m.replicationLevel
    ensures Locate(m, Source(offset, r1)).serv != Locate(m, Source(offset, r2)).serv
  {
    var i := SegmentOf(m, Source(offset, r1));
    BehindItsStart(m, Source(offset, r1));
    EnoughServers(m.LayoutAt(i), offset - m.blockSize * Start(m, i), r1, r2);
  }

  /**
   * On a server the j-th expansion added, segment j begins at offset 0, and what later
   * segments put there follows at the distance of the bases.
   */
  lemma AddedServersStartEmpty(m: Metadata, src: Source, j: nat)
    requires m.Valid() && 0 <= src.offset && 0 <= src.replication && 1 <= j <= SegmentOf(m, src)
    ensures var i := SegmentOf(m, src);
      && 0 <= src.offset - m.blockSize * Start(m, i)
      && var p := InSegment(m, src, i);
      && (m.nserv[j - 1] <= p.serv < m.nserv[j] ==>
            Locate(m, src) == Place(p.serv, p.localOffset + Base(m, i) - Base(m, j)))
      && (m.nserv[j - 1] <= p.serv < m.nserv[j] && j == i ==> Locate(m, src) == p)
  {
    BehindItsStart(m, src);
    var i := SegmentOf(m, src);
    var p := InSegment(m, src, i);
    if m.nserv[j - 1] <= p.serv < m.nserv[j] { AddedByOneExpansion(m, j, i, p.serv); }
  }

  /** The servers there from the start hold every segment behind all the earlier ones. */
  lemma FirstServersKeepAll(m: Metadata, src: Source)
    requires m.Valid() && 0 <= src.offset && 0 <= src.replication
    ensures var i := SegmentOf(m, src);
      && 0 <= src.offset - m.blockSize * Start(m, i)
      && var p := InSegment(m, src, i);
      p.serv < m.nserv[0] ==> Locate(m, src) == Place(p.serv, p.localOffset + Base(m, i))
  {
    BehindItsStart(m, src);
    var i := SegmentOf(m, src);
    var p := InSegment(m, src, i);
    if p.serv < m.nserv[0] { AddedByOneExpansion(m, 0, i, p.serv); }
  }

  /** The block behind the one recorded for the segment before; 0 for the first segment. */
  function BehindRecorded(m: Metadata, i: nat): int
    requires i < |m.offsets|
  {
    if i == 0 then 0 else m.offsets[i] + 1
  }

  /** The last byte of the last block of the segment before segment i. */
  function LastByte(m: Metadata, i: nat): int
    requires 1 <= i < |m.offsets|
  {
    m.blockSize * (m.offsets[i] + 1) - 1
  }

  lemma LastByteOffset(n: int, first: int, last: int)
    requires 0 < n && first <= last
    ensures 0 <= n * (last + 1) - 1 - n * first
    ensures (n * (last + 1) - 1 - n * first) / n == last - first && (n * (last + 1) - 1 - n * first) % n == n - 1
  {
    assert n * (last + 1) - 1 - n * first == (last - first) * n + (n - 1);
    DivMod.MulAtMostZero(first - last, n);
    assert (first - last) * n == -((last - first) * n);
    DivMod.Unique(n * (last + 1) - 1 - n * first, n, last - first, n - 1);
  }

  /**
   * A segment that follows at least one block begins right behind the last byte of the
   * last copy of that block, and is dealt out from the first node again.
   */
  lemma SegmentFollows(m: Metadata, i: nat)
    requires m.Valid() && 1 <= i < |m.nserv| && BehindRecorded(m, i - 1) <= m.offsets[i]
    ensures 0 <= LastByte(m, i) - m.blockSize * Start(m, i - 1)
    ensures Base(m, i) == Base(m, i - 1) + InSegment(m, Source(LastByte(m, i), m.replicationLevel), i - 1).localOffset + 1
    ensures 0 <= m.blockSize * BehindRecorded(m, i) - m.blockSize * Start(m, i)
    ensures InSegment(m, Source(m.blockSize * BehindRecorded(m, i), 0), i) == Place(m.firstNode % m.nserv[i], 0)
  {
    NextBase(m, i - 1);
    LastByteOffset(m.blockSize, BehindRecorded(m, i - 1), m.offsets[i]);
    AdvanceIsTight(m.LayoutAt(i - 1), LastBlock(m, i), LastByte(m, i) - m.blockSize * Start(m, i - 1));
    DealtOneByOne(m.LayoutAt(i), 0, 0);
  }

  lemma AdvanceIsTight(l: Layout, p: int, last: int)
    requires l.Valid() && 0 <= p && 0 <= last && last / l.blockSize == p && last % l.blockSize == l.blockSize - 1
    ensures Advance(l, p) == CalculateBlock(l, Source(last, l.replicationLevel)).localOffset + 1
  {
  }

  /**
   * Where the recorded block steps back, the next segment begins earlier: by the whole
   * lines of block copies stepped back, from the line every segment is ahead.
   */
  lemma SegmentStepsBack(m: Metadata, i: nat, lines: int)
    requires m.Valid() && 1 <= i < |m.nserv| && m.offsets[i] < BehindRecorded(m, i - 1)
    requires var copies := (BehindRecorded(m, i - 1) - m.offsets[i]) * (m.replicationLevel + 1) - m.replicationLevel;
      lines * m.nserv[i - 1] <= copies < lines * m.nserv[i - 1] + m.nserv[i - 1]
    ensures Base(m, i) == Base(m, i - 1) + m.blockSize - lines * m.blockSize
  {
    NextBase(m, i - 1);
    AdvanceBack(m.LayoutAt(i - 1), LastBlock(m, i), lines);
  }

  lemma AdvanceBack(l: Layout, p: int, lines: int)
    requires l.Valid() && p < 0
    requires lines * l.nserv <= -p * (l.replicationLevel + 1) - l.replicationLevel < lines * l.nserv + l.nserv
    ensures Advance(l, p) == l.blockSize - lines * l.blockSize
  {
    var x := -p * (l.replicationLevel + 1) - l.replicationLevel;
    MinusTimes(p, l.replicationLevel + 1);
    DivMod.Unique(x, l.nserv, lines, x - lines * l.nserv);
    MinusTimes(lines, l.blockSize);
  }

  // ----- the loop of XpnCalculateBlockMdata, for metadata without shrinks

  /** The inner loop: what a server added by an expansion lacks of the segments before it. */
  method SubtractMissing(m: Metadata, i: nat, serv: int, bases: array<int>) returns (missing: int)
    requires m.Valid() && i < |m.nserv| && bases.Length == MAX_RECONSTRUCTIONS
    requires HoldsBases(m, bases[..], i)
    ensures missing == Base(m, AddedBy(m, i, serv))
  {
    missing := 0;
    var j: int := i;
    while j >= 0
      invariant -1 <= j <= i
      invariant j >= 0 ==> AddedBy(m, i, serv) == AddedBy(m, j, serv)
      invariant j == -1 ==> AddedBy(m, i, serv) == 0
    {
      if j - 1 >= 0 && serv > m.nserv[j - 1] - 1 && serv <= m.nserv[j] - 1 {
        return bases[j];
      }
      j := j - 1;
    }
  }

  /** The block of a segment is known when the loop reaches the segment. */
  lemma SegmentReached(m: Metadata, block: int, i: nat)
    requires m.Valid() && i < |m.nserv| && 0 <= block && (i == 0 || m.offsets[i] < block)
    ensures var upper := if m.ServersOf(i + 1) > 0 then m.OffsetOf(i + 1) else m.OffsetOf(i + 2);
      Segment(m, block, i) == i <==> (block > m.offsets[i] || block == 0) && (block <= upper || upper == 0)
  {
  }

  /** Whether `bases` holds where segments 0..i begin. */
  ghost predicate HoldsBases(m: Metadata, bases: seq<int>, i: nat)
    requires m.Valid()
  {
    i < |m.nserv| && i < |bases| && forall k :: 0 <= k <= i ==> bases[k] == Base(m, k)
  }

  /** Where the segment begins that the search has reached. */
  method AddSegment(m: Metadata, i: nat, acum: int, bases: array<int>) returns (sum: int)
    requires m.Valid() && bases.Length == MAX_RECONSTRUCTIONS
    requires 1 <= i < |m.nserv| && HoldsBases(m, bases[..], i - 1) && acum == bases[i - 1]
    modifies bases
    ensures HoldsBases(m, bases[..], i) && sum == bases[i]
  {
    var prevBlockNum := if i - 1 == 0 then m.offsets[i] else m.offsets[i] - m.offsets[i - 1] - 1;
    NextBase(m, i - 1);
    sum := acum + Advance(m.LayoutAt(i - 1), prevBlockNum);
    ghost var before := bases[..];
    bases[i] := sum;
    forall k | 0 <= k <= i ensures bases[..][k] == Base(m, k) {
      if k < i { assert bases[..][k] == before[k]; }
    }
  }

  /** The search for the segment, which adds up the segments before it. */
  method FindSegment(m: Metadata, blockNum: int, bases: array<int>) returns (actualIndex: nat)
    requires m.Valid() && 0 <= blockNum && bases.Length == MAX_RECONSTRUCTIONS && bases[0] == 0
    modifies bases
    ensures actualIndex == Segment(m, blockNum, 0) && HoldsBases(m, bases[..], actualIndex)
  {
    var acum := 0;
    var i: nat := 0;
    while true
      invariant i < |m.nserv| && (i == 0 || m.offsets[i] < blockNum)
      invariant Segment(m, blockNum, 0) == Segment(m, blockNum, i)
      invariant if i == 0 then bases[0] == acum == 0 else HoldsBases(m, bases[..], i - 1) && acum == bases[i - 1]
      decreases |m.nserv| - i
    {
      SegmentReached(m, blockNum, i);
      if i - 1 >= 0 {
        acum := AddSegment(m, i, acum, bases);
      }
      var upper := if m.ServersOf(i + 1) > 0 then m.OffsetOf(i + 1) else m.OffsetOf(i + 2);
      if (blockNum > m.offsets[i] || blockNum == 0) && (blockNum <= upper || upper == 0) {
        return i;
      }
      i := i + 1;
    }
  }

  /** The place, put together from what the loops have found. */
  lemma Assembled(m: Metadata, src: Source, i: nat, offset: int)
    requires m.Valid() && 0 <= src.offset && 0 <= src.replication && i == SegmentOf(m, src)
    requires offset == if i != 0 then src.offset - m.blockSize * (m.offsets[i] + 1) else src.offset
    ensures 0 <= offset
    ensures var p := CalculateBlock(m.LayoutAt(i), Source(offset, src.replication));
      Locate(m, src) == Place(p.serv, p.localOffset + Base(m, i) - Base(m, AddedBy(m, i, p.serv)))
  {
    BehindItsStart(m, src);
  }

  /** XpnCalculateBlockMdata. */
  method CalculateBlockMdata(m: Metadata, src: Source) returns (localOffset: int, serv: int)
    requires m.Valid() && 0 <= src.offset && 0 <= src.replication
    ensures Place(serv, localOffset) == Locate(m, src)
  {
    if m.ServersOf(1) == 0 {
      Assembled(m, src, 0, src.offset);
      var p := CalculateBlock(m.LayoutAt(0), src);
      return p.localOffset, p.serv;
    }
    DivMod.Bounds(src.offset, m.blockSize);
    var bases := new int[MAX_RECONSTRUCTIONS](_ => 0);
    var i := FindSegment(m, src.offset / m.blockSize, bases);
    var offset := if i != 0 then src.offset - m.blockSize * (m.offsets[i] + 1) else src.offset;
    Assembled(m, src, i, offset);
    var p := CalculateBlock(m.LayoutAt(i), Source(offset, src.replication));
    var missing := SubtractMissing(m, i, p.serv, bases);
    return p.localOffset + bases[i] - missing, p.serv;
  }
}
