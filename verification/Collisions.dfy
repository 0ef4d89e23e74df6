/**
 * Two expansions of a file (src/utils/xpn_expand.c): exactly when blocks written later
 * fall on blocks already there, in terms of the recorded blocks and the server counts.
 */
module Collisions {
  import DivMod
  import opened Striping
  import opened ExpandedPlacement
  import opened Expansion

  /** Two bytes of copies of the file have the same place. */
  ghost predicate Collide(m: Metadata)
    requires m.Valid()
  {
    exists s1, s2 :: InFile(m, s1) && InFile(m, s2) && s1 != s2 && Locate(m, s1) == Locate(m, s2)
  }

  /** Metadata of two expansions, the first of which recorded a whole line. */
  predicate TwoExpansions(m: Metadata) {
    && m.Valid() && |m.nserv| == 3 && m.firstNode < m.nserv[0]
    && -1 <= m.offsets[1] && -1 <= m.offsets[2] && (m.offsets[1] + 1) % m.nserv[0] == 0
  }

  /** The block copies between the block recorded first and the block recorded second. */
  function StepBack(m: Metadata): int
    requires TwoExpansions(m)
  {
    (m.offsets[1] - m.offsets[2]) * (m.replicationLevel + 1)
  }

  /** How many lines of the middle configuration they make up. */
  function LinesBack(m: Metadata): int
    requires TwoExpansions(m)
  {
    (StepBack(m) + 1) / m.nserv[1]
  }

  /** The highest turn among the last servers of a server that was there from the start. */
  function HighestTurn(m: Metadata): (u: int)
    requires TwoExpansions(m)
    ensures 0 <= u < m.nserv[2]
  {
    if m.firstNode == 0 then m.nserv[0] - 1 else m.nserv[2] - 1
  }

  /** The second expansion went back by two lines or more, and its first blocks reach the old servers soon enough. */
  predicate Crosses(m: Metadata)
    requires TwoExpansions(m)
  {
    && m.offsets[2] < m.offsets[1] && m.offsets[1] != 0 && m.offsets[2] != 0
    && 2 <= LinesBack(m)
    && StepBack(m) <= (LinesBack(m) - 2) * m.nserv[2] + HighestTurn(m)
  }

  lemma ThreeSegments(m: Metadata, b: int)
    requires m.Valid() && |m.nserv| == 3
    ensures Segment(m, b, 0) == if b <= m.offsets[1] || m.offsets[1] == 0 then 0
                                else if b <= m.offsets[2] || m.offsets[2] == 0 then 1 else 2
  {
    assert Segment(m, b, 2) == 2;
    assert Segment(m, b, 1) == if b <= m.offsets[2] || m.offsets[2] == 0 then 1 else 2;
  }

  /** The second segment, empty as it is, takes the base back. */
  lemma BackAdvance(m: Metadata)
    requires TwoExpansions(m) && 2 <= LinesBack(m) && m.offsets[2] < m.offsets[1]
    ensures Advance(m.LayoutAt(1), LastBlock(m, 2)) == -Weighted(LinesBack(m) - 1, m.blockSize, 0)
  {
    var d, c, p := m.offsets[1] - m.offsets[2], m.replicationLevel + 1, LastBlock(m, 2);
    assert p == -d - 1;
    assert -(p * c + m.replicationLevel) == d * c + 1;
    TimesMinus(LinesBack(m), m.blockSize);
  }

  lemma BackBase(m: Metadata)
    requires TwoExpansions(m) && 2 <= LinesBack(m) && m.offsets[2] < m.offsets[1]
    ensures Base(m, 2) == Advance(m.LayoutAt(0), m.offsets[1]) - Weighted(LinesBack(m) - 1, m.blockSize, 0)
  {
    BackAdvance(m);
    NextBase(m, 0);
    NextBase(m, 1);
  }

  lemma TimesMinus(f: int, bs: int)
    ensures bs + -f * bs == -((f - 1) * bs)
  {
  }

  // ----- a collision needs it

  lemma TurnOf(r: int, first: int, serv: int, n0: int, n2: int)
    requires 0 <= r && 0 <= first < n0 <= n2 && serv == (r + first) % n2 < n0
    ensures first == 0 ==> r % n2 <= n0 - 1
    ensures r % n2 <= n2 - 1
  {
  }

  /** Block copy numbers behind the first recorded block are at least the step back. */
  lemma AtLeastStepBack(m: Metadata, block: int, rep: int)
    requires TwoExpansions(m) && m.offsets[2] <= m.offsets[1] < block && 0 <= rep
    ensures StepBack(m) <= Weighted(block - m.offsets[2] - 1, m.replicationLevel + 1, rep)
  {
    var d, c, k := m.offsets[1] - m.offsets[2], m.replicationLevel + 1, block - m.offsets[1] - 1;
    assert (d + k) * c == d * c + k * c;
    assert 0 <= k * c;
  }

  lemma FewLines(a: int, b: int, bs: int, x: int)
    requires 0 <= a && 0 <= b && 0 < bs && 0 <= x
    ensures Weighted(a, bs, x) < Weighted(b, bs, 0) ==> a < b
  {
    assert (a - b) * bs == a * bs - b * bs;
    NegativeFactor(a - b, bs);
  }

  lemma CollisionNeeds(m: Metadata, s1: Source, s2: Source)
    requires TwoExpansions(m) && InFile(m, s1) && InFile(m, s2)
    requires m.offsets[2] < m.offsets[1] && m.offsets[1] != 0 && m.offsets[2] != 0 && 2 <= LinesBack(m)
    requires SegmentOf(m, s1) == 0 && SegmentOf(m, s2) == 2 && Locate(m, s1) == Locate(m, s2)
    ensures Crosses(m)
  {
    var n2, b2 := m.nserv[2], s2.offset / m.blockSize;
    BehindItsStart(m, s1);
    BehindItsStart(m, s2);
    InSegmentBelow(m, s1, s2);
    BackBase(m);
    RelativeBlock(s2.offset, m.blockSize, Start(m, 2));
    ThreeSegments(m, b2);
    AtLeastStepBack(m, b2, s2.replication);
    var r := Weighted(b2 - m.offsets[2] - 1, m.replicationLevel + 1, s2.replication);
    var p2 := InSegment(m, s2, 2);
    assert p2 == PlaceOf(m.LayoutAt(2), r, s2.offset % m.blockSize);
    AddedByOneExpansion(m, 0, 2, p2.serv);
    FewLines(r / n2, LinesBack(m) - 1, m.blockSize, s2.offset % m.blockSize);
    TurnOf(r, m.firstNode, p2.serv, m.nserv[0], n2);
    BelowLines(r, n2, LinesBack(m) - 2, HighestTurn(m));
  }

  lemma BelowLines(r: int, n: int, q: int, u: int)
    requires 0 <= r && 0 < n && r / n <= q && r % n <= u
    ensures r <= q * n + u
  {
    DivMod.MulAtMostZero(r / n - q, n);
    assert (r / n - q) * n == (r / n) * n - q * n;
  }

  // ----- and with it there is one

  /** A server that was there from the start, with the highest turn among the last ones. */
  function MeetingServer(m: Metadata): (serv: int)
    requires TwoExpansions(m)
    ensures 0 <= serv < m.nserv[0]
  {
    if m.firstNode == 0 then m.nserv[0] - 1 else m.firstNode - 1
  }

  lemma HighestTurnMeets(m: Metadata, q: int)
    requires TwoExpansions(m) && 0 <= q
    ensures var r := Weighted(q, m.nserv[2], HighestTurn(m));
      (r + m.firstNode) % m.nserv[2] == MeetingServer(m) && r / m.nserv[2] == q
  {
    var n2, first, u := m.nserv[2], m.firstNode, HighestTurn(m);
    if first == 0 {
      assert Weighted(q, n2, u) % n2 == u;
    } else {
      assert Weighted(q, n2, u) + first == (q + 1) * n2 + (first - 1) by { assert (q + 1) * n2 == q * n2 + n2; }
      DivMod.Unique(Weighted(q, n2, u) + first, n2, q + 1, first - 1);
    }
  }

  /** The later one of two bytes that meet: in the last segment, as low as copies on that server get. */
  function LaterCopy(m: Metadata): (r: int)
    requires TwoExpansions(m) && 2 <= LinesBack(m)
    ensures 0 <= r
  {
    Weighted(LinesBack(m) - 2, m.nserv[2], HighestTurn(m))
  }

  function Later(m: Metadata): (src: Source)
    requires TwoExpansions(m) && Crosses(m)
    ensures InFile(m, src)
  {
    var rel := SourceOf(m.LayoutAt(2), LaterCopy(m), 0);
    assert 0 <= m.blockSize * (m.offsets[2] + 1);
    Source(rel.offset + m.blockSize * (m.offsets[2] + 1), rel.replication)
  }

  lemma LaterBlock(m: Metadata)
    requires TwoExpansions(m) && Crosses(m)
    ensures SegmentOf(m, Later(m)) == 2 && Later(m).offset / m.blockSize > m.offsets[1]
  {
    var r, c := LaterCopy(m), m.replicationLevel + 1;
    FarEnough(m, r);
    BlockOfOffset(r / c, m.offsets[2] + 1, m.blockSize);
    BehindBoth(m, Later(m).offset / m.blockSize);
  }

  lemma BehindBoth(m: Metadata, b: int)
    requires TwoExpansions(m) && Crosses(m) && m.offsets[1] < b
    ensures Segment(m, b, 0) == 2
  {
    ThreeSegments(m, b);
  }

  lemma BlockOfOffset(b: int, start: int, bs: int)
    requires 0 <= b && 0 < bs
    ensures (Weighted(b, bs, 0) + bs * start) / bs == b + start
  {
    assert Weighted(b, bs, 0) + bs * start == (b + start) * bs;
    DivMod.Unique(Weighted(b, bs, 0) + bs * start, bs, b + start, 0);
  }

  lemma FarEnough(m: Metadata, r: int)
    requires TwoExpansions(m) && StepBack(m) <= r
    ensures m.offsets[1] - m.offsets[2] <= r / (m.replicationLevel + 1)
  {
    var c := m.replicationLevel + 1;
    DivMod.Unique(StepBack(m), c, m.offsets[1] - m.offsets[2], 0);
    DivMod.Monotone(StepBack(m), r, c);
  }

  lemma LaterInSegment(m: Metadata)
    requires TwoExpansions(m) && Crosses(m) && 0 <= Later(m).offset - m.blockSize * Start(m, 2)
    ensures InSegment(m, Later(m), 2) == Place(MeetingServer(m), Weighted(LinesBack(m) - 2, m.blockSize, 0))
  {
    HighestTurnMeets(m, LinesBack(m) - 2);
    CalculateOfSource(m.LayoutAt(2), LaterCopy(m), 0);
  }

  lemma LaterPlace(m: Metadata)
    requires TwoExpansions(m) && Crosses(m)
    ensures Locate(m, Later(m)) == Place(MeetingServer(m), Advance(m.LayoutAt(0), m.offsets[1]) - m.blockSize)
  {
    var q := LinesBack(m) - 2;
    LaterBlock(m);
    BehindItsStart(m, Later(m));
    LaterInSegment(m);
    AddedByOneExpansion(m, 0, 2, MeetingServer(m));
    BackBase(m);
    assert Weighted(q, m.blockSize, 0) - Weighted(q + 1, m.blockSize, 0) == -m.blockSize;
  }

  /** The earlier one: in the last line of the first segment. */
  function EarlierCopy(m: Metadata): (r: int)
    requires TwoExpansions(m) && 1 <= m.offsets[1]
    ensures 0 <= r < (m.offsets[1] + 1) * (m.replicationLevel + 1)
  {
    FirstLines(m);
    var lines := ((m.offsets[1] + 1) / m.nserv[0]) * (m.replicationLevel + 1);
    LastLine(lines, m.nserv[0], (MeetingServer(m) - m.firstNode) % m.nserv[0]);
    Weighted(lines - 1, m.nserv[0], (MeetingServer(m) - m.firstNode) % m.nserv[0])
  }

  lemma LastLine(lines: int, n: int, turn: int)
    requires 1 <= lines && 0 <= turn < n
    ensures Weighted(lines - 1, n, turn) < lines * n
  {
    assert (lines - 1) * n == lines * n - n;
  }

  lemma EarlierMeets(m: Metadata) returns (src: Source)
    requires TwoExpansions(m) && 1 <= m.offsets[1]
    ensures InFile(m, src) && SegmentOf(m, src) == 0
    ensures Locate(m, src) == Place(MeetingServer(m), Advance(m.LayoutAt(0), m.offsets[1]) - m.blockSize)
  {
    var l, r, c := m.LayoutAt(0), EarlierCopy(m), m.replicationLevel + 1;
    src := SourceOf(l, r, 0);
    assert src.offset / m.blockSize == r / c;
    BlockBelow(r, m.offsets[1] + 1, c);
    ThreeSegments(m, r / c);
    BehindItsStart(m, src);
    CalculateOfSource(l, r, 0);
    assert InSegment(m, src, 0) == PlaceOf(l, r, 0);
    EarlierPlace(m);
  }

  lemma EarlierPlace(m: Metadata)
    requires TwoExpansions(m) && 1 <= m.offsets[1]
    ensures PlaceOf(m.LayoutAt(0), EarlierCopy(m), 0)
         == Place(MeetingServer(m), Advance(m.LayoutAt(0), m.offsets[1]) - m.blockSize)
  {
    FirstLines(m);
    InLastLine(m.LayoutAt(0), ((m.offsets[1] + 1) / m.nserv[0]) * (m.replicationLevel + 1), MeetingServer(m));
  }

  lemma InLastLine(l: Layout, lines: int, serv: int)
    requires l.Valid() && 1 <= lines && 0 <= serv < l.nserv
    ensures PlaceOf(l, Weighted(lines - 1, l.nserv, (serv - l.firstNode) % l.nserv), 0)
         == Place(serv, Weighted(lines, l.blockSize, 0) - l.blockSize)
  {
    ServerOfTurn(lines - 1, serv, l.firstNode, l.nserv);
    assert (lines - 1) * l.blockSize == lines * l.blockSize - l.blockSize;
  }

  lemma BlockBelow(r: int, blocks: int, c: int)
    requires 0 <= r < blocks * c && 0 < c
    ensures r / c < blocks
  {
    assert (r / c - blocks) * c == (r / c) * c - blocks * c;
    NegativeFactor(r / c - blocks, c);
  }

  lemma NegativeFactor(d: int, c: int)
    requires 0 < c
    ensures d * c < 0 ==> d < 0
  {
    if d >= 0 { assert 0 <= d * c; }
  }

  /** The first segment fills whole lines. */
  lemma FirstLines(m: Metadata)
    requires TwoExpansions(m) && 1 <= m.offsets[1]
    ensures var lines := ((m.offsets[1] + 1) / m.nserv[0]) * (m.replicationLevel + 1);
      && 1 <= lines
      && lines * m.nserv[0] == (m.offsets[1] + 1) * (m.replicationLevel + 1)
      && Advance(m.LayoutAt(0), m.offsets[1]) == Weighted(lines, m.blockSize, 0)
  {
    var k, c, n0 := (m.offsets[1] + 1) / m.nserv[0], m.replicationLevel + 1, m.nserv[0];
    assert m.offsets[1] + 1 == k * n0;
    LinesOfCopies(k, n0, c);
    DivMod.Unique(m.offsets[1] * m.blockSize, m.blockSize, m.offsets[1], 0);
    assert Weighted(m.offsets[1], c, m.replicationLevel) == (m.offsets[1] + 1) * c - 1;
  }

  lemma LinesOfCopies(k: int, n: int, c: int)
    requires 0 < n && 0 < c && 1 <= k * n
    ensures 1 <= k * c && (k * c) * n == (k * n) * c
    ensures ((k * n) * c - 1) / n == k * c - 1
  {
    NegativeFactor(k - 1, n);
    assert (k - 1) * n == k * n - n;
    if k <= 0 { DivMod.MulAtMostZero(k, n); }
    DivMod.MulAtLeast(k, c);
    assert (k * n) * c == (k * c) * n;
    assert (k * n) * c - 1 == (k * c - 1) * n + (n - 1);
    DivMod.Unique((k * n) * c - 1, n, k * c - 1, n - 1);
  }

  /**
   * After two expansions two bytes of the file fall together if and only if the second
   * one recorded a block so far in front of the first that it crosses.
   */
  lemma TwoExpansionsCollideExactlyIf(m: Metadata)
    requires TwoExpansions(m)
    ensures Collide(m) <==> Crosses(m)
  {
    if Crosses(m) {
      LaterBlock(m);
      LaterPlace(m);
      var earlier := EarlierMeets(m);
      assert earlier != Later(m);
    } else {
      forall s1, s2 | InFile(m, s1) && InFile(m, s2) && s1 != s2 ensures Locate(m, s1) != Locate(m, s2) {
        NoneWithoutCrossing(m, s1, s2);
      }
    }
  }

  lemma NoneWithoutCrossing(m: Metadata, s1: Source, s2: Source)
    requires TwoExpansions(m) && !Crosses(m) && InFile(m, s1) && InFile(m, s2) && s1 != s2
    ensures Locate(m, s1) != Locate(m, s2)
  {
    ThreeSegments(m, s1.offset / m.blockSize);
    ThreeSegments(m, s2.offset / m.blockSize);
    BasesGrowExactlyIf(m);
    if SegmentOf(m, s1) == SegmentOf(m, s2) {
      OneSegmentApart(m, s1, s2);
    } else if BasesGrow(m) {
      NoTwoShareAPlace(m, s1, s2);
    } else if SegmentOf(m, s1) < SegmentOf(m, s2) {
      WithStepBack(m, s1, s2);
    } else {
      WithStepBack(m, s2, s1);
    }
  }

  lemma WithStepBack(m: Metadata, s1: Source, s2: Source)
    requires TwoExpansions(m) && !Crosses(m) && InFile(m, s1) && InFile(m, s2)
    requires SegmentOf(m, s1) < SegmentOf(m, s2) && !SmallStepBack(m, 2)
    ensures Locate(m, s1) != Locate(m, s2)
  {
    IsStepBack(m);
    ThreeSegments(m, s1.offset / m.blockSize);
    ThreeSegments(m, s2.offset / m.blockSize);
    if SegmentOf(m, s2) == 1 {
      SegmentBefore(m, s1, s2);
    } else if Locate(m, s1) == Locate(m, s2) {
      CollisionNeeds(m, s1, s2);
    }
  }

  /** A step back that is not small is one of two lines or more. */
  lemma IsStepBack(m: Metadata)
    requires TwoExpansions(m) && !SmallStepBack(m, 2)
    ensures m.offsets[2] < m.offsets[1] && 2 <= LinesBack(m)
  {
    DivMod.Monotone(2 * m.nserv[1], StepBack(m) + 1, m.nserv[1]);
    DivMod.Unique(2 * m.nserv[1], m.nserv[1], 2, 0);
    NotPositive(m.offsets[1] - m.offsets[2], m.replicationLevel + 1);
  }

  lemma NotPositive(d: int, c: int)
    requires 0 < c
    ensures d <= 0 ==> d * c <= 0
  {
    if d <= 0 { DivMod.MulAtMostZero(d, c); }
  }

  // ----- in terms of files

  /**
   * A file that was never expanded, expanded when it had fileSize1 bytes and again when it
   * had fileSize2 bytes: bytes can fall together if and only if the metadata crosses.
   */
  lemma ExpandedTwiceCollidesExactlyIf(m: Metadata, fileSize1: int, servers1: int, fileSize2: int, servers2: int)
    requires m.Valid() && |m.nserv| == 1 && m.firstNode < m.nserv[0] <= servers1 <= servers2
    requires 0 <= fileSize1 && 0 <= fileSize2
    ensures Expand(m, fileSize1, servers1).Valid()
    ensures var e := Expand(Expand(m, fileSize1, servers1), fileSize2, servers2);
      && TwoExpansions(e)
      && e.nserv == [m.nserv[0], servers1, servers2]
      && e.offsets == [0, Limit(fileSize1, m.blockSize, m.nserv[0]), Limit(fileSize2, m.blockSize, servers1)]
      && (Collide(e) <==> Crosses(e))
  {
    var e1 := Expand(m, fileSize1, servers1);
    ExpandIsValid(m, fileSize1, servers1);
    ExpandIsValid(e1, fileSize2, servers2);
    LimitBounds(fileSize1, m.blockSize, m.nserv[0]);
    LimitBounds(fileSize2, m.blockSize, servers1);
    DivMod.Bounds(fileSize1, m.blockSize);
    DivMod.Bounds(fileSize2, m.blockSize);
    TwoExpansionsCollideExactlyIf(Expand(e1, fileSize2, servers2));
  }

  /** Four copies of 11 blocks, expanded from 10 servers to 11 and, without growth, on to 40. */
  lemma CrossedExpansionsCollide()
    ensures Expand(Metadata(1, 3, 0, [10], [0]), 11, 11).Valid()
    ensures var e := Expand(Expand(Metadata(1, 3, 0, [10], [0]), 11, 11), 11, 40); e.Valid() && Collide(e)
  {
    ExpandedTwiceCollidesExactlyIf(Metadata(1, 3, 0, [10], [0]), 11, 11, 11, 40);
    assert Limit(11, 1, 10) == 19 && Limit(11, 1, 11) == 10;
  }
}
