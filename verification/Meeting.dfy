/**
 * Any number of expansions of a file: exactly when two segments of its blocks meet on a
 * server. A segment holds consecutive block copies, so on every server it takes
 * consecutive lines, which can be told from the metadata.
 */
module Meeting {
  import DivMod
  import opened Striping
  import opened ExpandedPlacement
  import opened Collisions

  // ----- which blocks a segment holds

  /** Blocks get as far as segment i: no recorded block up to there counts as unused. */
  predicate Reached(m: Metadata, i: nat)
    requires m.Valid() && i < |m.nserv|
  {
    forall h :: 1 <= h <= i ==> m.offsets[h] != 0
  }

  /** The first block behind all blocks recorded up to segment i. */
  function Low(m: Metadata, i: nat): (b: int)
    requires m.Valid() && i < |m.nserv|
    ensures 0 <= b && Start(m, i) <= b
  {
    if i == 0 then 0
    else if m.offsets[i] + 1 < Low(m, i - 1) then Low(m, i - 1) else if m.offsets[i] + 1 < 0 then 0 else m.offsets[i] + 1
  }

  /** No later block ends the segment. */
  predicate Open(m: Metadata, i: nat)
    requires m.Valid() && i < |m.nserv|
  {
    i + 1 == |m.nserv| || m.offsets[i + 1] == 0
  }

  predicate Holds(m: Metadata, i: nat, block: int)
    requires m.Valid() && i < |m.nserv|
  {
    Reached(m, i) && Low(m, i) <= block && (Open(m, i) || block <= m.offsets[i + 1])
  }

  lemma {:induction false} PassesExactlyIf(m: Metadata, block: int, i: nat)
    requires m.Valid() && i < |m.nserv| && 0 <= block
    ensures i <= Segment(m, block, 0) <==> Reached(m, i) && Low(m, i) <= block
    ensures i <= Segment(m, block, 0) ==> Segment(m, block, 0) == Segment(m, block, i)
  {
    if i > 0 {
      PassesExactlyIf(m, block, i - 1);
      assert Reached(m, i) <==> Reached(m, i - 1) && m.offsets[i] != 0;
    }
  }

  lemma HoldsExactlyIf(m: Metadata, block: int, i: nat)
    requires m.Valid() && i < |m.nserv| && 0 <= block
    ensures Segment(m, block, 0) == i <==> Holds(m, i, block)
  {
    PassesExactlyIf(m, block, i);
    if i + 1 < |m.nserv| {
      PassesExactlyIf(m, block, i + 1);
      assert Reached(m, i + 1) <==> Reached(m, i) && m.offsets[i + 1] != 0;
    }
  }

  // ----- which lines it takes

  /** The turn of a server among the n servers of a segment. */
  function Turn(m: Metadata, i: nat, serv: int): (t: int)
    requires m.Valid() && i < |m.nserv|
    ensures 0 <= t < m.nserv[i]
  {
    (serv - m.firstNode) % m.nserv[i]
  }

  /** The least line number L with a <= L * n. */
  function LineFrom(a: int, n: int): int
    requires 0 < n
  {
    (a + n - 1) / n
  }

  lemma LineFromExactlyIf(a: int, n: int, line: int)
    requires 0 < n
    ensures LineFrom(a, n) <= line <==> a <= line * n
  {
    var q := LineFrom(a, n);
    assert q * n == a + n - 1 - (a + n - 1) % n;
    assert (line - q) * n == line * n - q * n;
    if q <= line { DivMod.MulAtMostZero(q - line, n); } else { DivMod.MulAtLeast(q - line, n); }
    assert (q - line) * n == q * n - line * n;
  }

  /** The number of a block's first copy in segment i. */
  function CopyOf(m: Metadata, i: nat, block: int): int
    requires m.Valid() && i < |m.nserv|
  {
    (block - Start(m, i)) * (m.replicationLevel + 1)
  }

  /** The line on the servers of segment i where it begins, as the code counts it. */
  function BaseLine(m: Metadata, i: nat): int
    requires m.Valid() && i < |m.nserv|
  {
    if i == 0 then 0 else BaseLine(m, i - 1) + AdvanceLines(m.LayoutAt(i - 1), LastBlock(m, i))
  }

  function AdvanceLines(l: Layout, p: int): int
    requires l.Valid()
  {
    1 + if p >= 0 then Weighted(p, l.replicationLevel + 1, l.replicationLevel) / l.nserv
        else -((-(p * (l.replicationLevel + 1) + l.replicationLevel)) / l.nserv)
  }

  lemma AdvanceInLines(l: Layout, p: int)
    requires l.Valid()
    ensures Advance(l, p) == AdvanceLines(l, p) * l.blockSize
  {
    var c := l.replicationLevel + 1;
    if p >= 0 {
      DivMod.Unique(p * l.blockSize, l.blockSize, p, 0);
      OneMoreLine(Weighted(p, c, l.replicationLevel) / l.nserv, l.blockSize);
    } else {
      OneMoreLine(-((-(p * c + l.replicationLevel)) / l.nserv), l.blockSize);
    }
  }

  lemma OneMoreLine(q: int, bs: int)
    ensures bs + q * bs == (1 + q) * bs
  {
  }

  lemma {:induction false} BaseInLines(m: Metadata, i: nat)
    requires m.Valid() && i < |m.nserv|
    ensures Base(m, i) == BaseLine(m, i) * m.blockSize
  {
    if i > 0 {
      BaseInLines(m, i - 1);
      NextBase(m, i - 1);
      AdvanceInLines(m.LayoutAt(i - 1), LastBlock(m, i));
      SumOfLines(BaseLine(m, i - 1), AdvanceLines(m.LayoutAt(i - 1), LastBlock(m, i)), m.blockSize);
    }
  }

  lemma SumOfLines(a: int, b: int, bs: int)
    ensures a * bs + b * bs == (a + b) * bs
  {
  }

  /** The first line that segment i takes on a server, and the line behind the last one. */
  function FirstLine(m: Metadata, i: nat, serv: int): int
    requires m.Valid() && i < |m.nserv|
  {
    BaseLine(m, i) + LineFrom(CopyOf(m, i, Low(m, i)) - Turn(m, i, serv), m.nserv[i])
  }

  function EndLine(m: Metadata, i: nat, serv: int): int
    requires m.Valid() && i + 1 < |m.nserv|
  {
    BaseLine(m, i) + LineFrom(CopyOf(m, i, m.offsets[i + 1] + 1) - Turn(m, i, serv), m.nserv[i])
  }

  /** Segment i takes the line of the server, counted from where it was there from the start. */
  predicate Takes(m: Metadata, i: nat, serv: int, line: int)
    requires m.Valid() && i < |m.nserv|
  {
    Reached(m, i) && FirstLine(m, i, serv) <= line && (Open(m, i) || line < EndLine(m, i, serv))
  }

  /** The lines of two segments on the server overlap: both take some, and neither ends before the other begins. */
  predicate Meet(m: Metadata, i: nat, j: nat, serv: int)
    requires m.Valid() && i < |m.nserv| && j < |m.nserv|
  {
    && Reached(m, i) && Reached(m, j)
    && (Open(m, i) || (FirstLine(m, i, serv) < EndLine(m, i, serv) && FirstLine(m, j, serv) < EndLine(m, i, serv)))
    && (Open(m, j) || (FirstLine(m, j, serv) < EndLine(m, j, serv) && FirstLine(m, i, serv) < EndLine(m, j, serv)))
  }

  lemma MeetExactlyIf(m: Metadata, i: nat, j: nat, serv: int)
    requires m.Valid() && i < |m.nserv| && j < |m.nserv|
    ensures Meet(m, i, j, serv) <==> exists line :: Takes(m, i, serv, line) && Takes(m, j, serv, line)
  {
    if Meet(m, i, j, serv) {
      var line := if FirstLine(m, i, serv) < FirstLine(m, j, serv) then FirstLine(m, j, serv) else FirstLine(m, i, serv);
      assert Takes(m, i, serv, line) && Takes(m, j, serv, line);
    }
  }

  /** Two segments meet on some server of the earlier one. */
  predicate SomeMeet(m: Metadata)
    requires m.Valid()
  {
    exists i, j, serv :: 0 <= i < j < |m.nserv| && 0 <= serv < m.nserv[i] && Meet(m, i, j, serv)
  }

  // ----- a byte is in a line its segment takes

  /** The number of the block copy of a byte in its segment. */
  function CopyIn(m: Metadata, s: Source): (r: int)
    requires m.Valid() && InFile(m, s)
    ensures 0 <= r
  {
    var i, block := SegmentOf(m, s), s.offset / m.blockSize;
    BlockBehindStart(m, s);
    Weighted(block - Start(m, i), m.replicationLevel + 1, s.replication)
  }

  lemma BlockBehindStart(m: Metadata, s: Source)
    requires m.Valid() && InFile(m, s)
    ensures Start(m, SegmentOf(m, s)) <= s.offset / m.blockSize
  {
    DivMod.Bounds(s.offset, m.blockSize);
    SegmentBounds(m, s.offset / m.blockSize, 0);
  }

  lemma InSegmentByCopy(m: Metadata, s: Source)
    requires m.Valid() && InFile(m, s)
    ensures var i := SegmentOf(m, s);
      && 0 <= s.offset - m.blockSize * Start(m, i)
      && InSegment(m, s, i) == PlaceOf(m.LayoutAt(i), CopyIn(m, s), s.offset % m.blockSize)
  {
    BehindItsStart(m, s);
    RelativeBlock(s.offset, m.blockSize, Start(m, SegmentOf(m, s)));
  }

  lemma TurnOfCopy(m: Metadata, i: nat, r: int, x: int)
    requires m.Valid() && i < |m.nserv| && 0 <= r && 0 <= x
    ensures r % m.nserv[i] == Turn(m, i, PlaceOf(m.LayoutAt(i), r, x).serv)
  {
    TurnOfServer(r, m.firstNode, m.nserv[i]);
  }

  lemma InLine(m: Metadata, s: Source)
    requires m.Valid() && InFile(m, s)
    ensures var i, r := SegmentOf(m, s), CopyIn(m, s);
      && 0 <= s.offset - m.blockSize * Start(m, i)
      && InSegment(m, s, i) == PlaceOf(m.LayoutAt(i), r, s.offset % m.blockSize)
      && r % m.nserv[i] == Turn(m, i, InSegment(m, s, i).serv)
  {
    InSegmentByCopy(m, s);
    TurnOfCopy(m, SegmentOf(m, s), CopyIn(m, s), s.offset % m.blockSize);
  }

  lemma CopyBounds(m: Metadata, s: Source)
    requires m.Valid() && InFile(m, s)
    ensures var i := SegmentOf(m, s);
      && Reached(m, i) && CopyOf(m, i, Low(m, i)) <= CopyIn(m, s)
      && (Open(m, i) || CopyIn(m, s) < CopyOf(m, i, m.offsets[i + 1] + 1))
  {
    var i, c, b := SegmentOf(m, s), m.replicationLevel + 1, s.offset / m.blockSize;
    DivMod.Bounds(s.offset, m.blockSize);
    HoldsExactlyIf(m, b, i);
    BlocksInOrder(Low(m, i), b, Start(m, i), c);
    if !Open(m, i) { BlocksInOrder(b + 1, m.offsets[i + 1] + 1, Start(m, i), c); }
    assert (b + 1 - Start(m, i)) * c == (b - Start(m, i)) * c + c;
  }

  lemma BlocksInOrder(a: int, b: int, start: int, c: int)
    requires a <= b && 0 <= c
    ensures (a - start) * c <= (b - start) * c
  {
    assert (b - start) * c - (a - start) * c == (b - a) * c;
  }

  lemma TakesItsLine(m: Metadata, s: Source)
    requires m.Valid() && InFile(m, s)
    ensures var i, r := SegmentOf(m, s), CopyIn(m, s);
      && 0 <= s.offset - m.blockSize * Start(m, i)
      && Takes(m, i, InSegment(m, s, i).serv, BaseLine(m, i) + r / m.nserv[i])
  {
    var i, r := SegmentOf(m, s), CopyIn(m, s);
    InLine(m, s);
    CopyBounds(m, s);
    var n, turn := m.nserv[i], Turn(m, i, InSegment(m, s, i).serv);
    DivMod.Bounds(r, n);
    LineFromExactlyIf(CopyOf(m, i, Low(m, i)) - turn, n, r / n);
    if !Open(m, i) { LineFromExactlyIf(CopyOf(m, i, m.offsets[i + 1] + 1) - turn, n, r / n); }
  }

  /** The place of a byte, from the line its segment takes. */
  lemma PlaceByLine(m: Metadata, s: Source)
    requires m.Valid() && InFile(m, s)
    ensures var i := SegmentOf(m, s);
      && 0 <= s.offset - m.blockSize * Start(m, i)
      && var serv, line := InSegment(m, s, i).serv, BaseLine(m, i) + CopyIn(m, s) / m.nserv[i];
      && Locate(m, s) == Place(serv, line * m.blockSize + s.offset % m.blockSize - Base(m, AddedBy(m, i, serv)))
  {
    var i := SegmentOf(m, s);
    InLine(m, s);
    BaseInLines(m, i);
    SumOfLines(BaseLine(m, i), CopyIn(m, s) / m.nserv[i], m.blockSize);
  }

  lemma SameLine(a: int, b: int, bs: int, x: int, y: int)
    requires 0 < bs && 0 <= x < bs && 0 <= y < bs && a * bs + x == b * bs + y
    ensures a == b
  {
    DivMod.Unique(a * bs + x, bs, a, x);
    DivMod.Unique(b * bs + y, bs, b, y);
  }

  lemma CollisionMeets(m: Metadata, s1: Source, s2: Source)
    requires m.Valid() && InFile(m, s1) && InFile(m, s2) && Locate(m, s1) == Locate(m, s2)
    requires SegmentOf(m, s1) < SegmentOf(m, s2)
    ensures SomeMeet(m)
  {
    var i, j := SegmentOf(m, s1), SegmentOf(m, s2);
    PlaceByLine(m, s1);
    PlaceByLine(m, s2);
    TakesItsLine(m, s1);
    TakesItsLine(m, s2);
    var serv := InSegment(m, s1, i).serv;
    AddedByOneExpansion(m, i, j, serv);
    var line1, line2 := BaseLine(m, i) + CopyIn(m, s1) / m.nserv[i], BaseLine(m, j) + CopyIn(m, s2) / m.nserv[j];
    SameLine(line1, line2, m.blockSize, s1.offset % m.blockSize, s2.offset % m.blockSize);
    MeetExactlyIf(m, i, j, serv);
  }

  // ----- and a line it takes has a byte

  /** The copy at a turn of a line. */
  function AtTurn(l: int, n: int, turn: int): int { l * n + turn }

  lemma BehindTurn(a: int, turn: int, n: int, l: int)
    requires 0 < n
    ensures LineFrom(a - turn, n) <= l <==> a <= AtTurn(l, n, turn)
  {
    LineFromExactlyIf(a - turn, n, l);
  }

  lemma LineBehindLow(m: Metadata, i: nat, serv: int, line: int)
    requires m.Valid() && i < |m.nserv| && FirstLine(m, i, serv) <= line
    ensures CopyOf(m, i, Low(m, i)) <= AtTurn(line - BaseLine(m, i), m.nserv[i], Turn(m, i, serv))
  {
    BehindTurn(CopyOf(m, i, Low(m, i)), Turn(m, i, serv), m.nserv[i], line - BaseLine(m, i));
  }

  lemma LineBeforeEnd(m: Metadata, i: nat, serv: int, line: int)
    requires m.Valid() && i + 1 < |m.nserv| && line < EndLine(m, i, serv)
    ensures AtTurn(line - BaseLine(m, i), m.nserv[i], Turn(m, i, serv)) < CopyOf(m, i, m.offsets[i + 1] + 1)
  {
    BehindTurn(CopyOf(m, i, m.offsets[i + 1] + 1), Turn(m, i, serv), m.nserv[i], line - BaseLine(m, i));
  }

  /** The copy of segment i in a line of a server. */
  function CopyInLine(m: Metadata, i: nat, serv: int, line: int): (r: int)
    requires m.Valid() && i < |m.nserv| && Takes(m, i, serv, line)
    ensures 0 <= r && CopyOf(m, i, Low(m, i)) <= r
    ensures Open(m, i) || r < CopyOf(m, i, m.offsets[i + 1] + 1)
  {
    LowIsNotNegative(m, i);
    LineBehindLow(m, i, serv, line);
    assert Open(m, i) || AtTurn(line - BaseLine(m, i), m.nserv[i], Turn(m, i, serv)) < CopyOf(m, i, m.offsets[i + 1] + 1) by {
      if !Open(m, i) { LineBeforeEnd(m, i, serv, line); }
    }
    AtTurn(line - BaseLine(m, i), m.nserv[i], Turn(m, i, serv))
  }

  lemma LowIsNotNegative(m: Metadata, i: nat)
    requires m.Valid() && i < |m.nserv|
    ensures 0 <= CopyOf(m, i, Low(m, i))
  {
    BlocksInOrder(Start(m, i), Low(m, i), Start(m, i), m.replicationLevel + 1);
  }

  function ByteInLine(m: Metadata, i: nat, serv: int, line: int): (s: Source)
    requires m.Valid() && i < |m.nserv| && Takes(m, i, serv, line)
  {
    var rel := SourceOf(m.LayoutAt(i), CopyInLine(m, i, serv, line), 0);
    Source(rel.offset + m.blockSize * Start(m, i), rel.replication)
  }

  lemma BlockOfCopy(r: int, lo: int, c: int)
    requires 0 < c && 0 <= r
    ensures lo * c <= r <==> lo <= r / c
  {
    DivMod.Bounds(r, c);
    assert (r / c - lo) * c == (r / c) * c - lo * c;
    if lo <= r / c { DivMod.MulAtMostZero(lo - r / c, c); } else { DivMod.MulAtLeast(lo - r / c, c); }
    assert (lo - r / c) * c == lo * c - (r / c) * c;
  }

  /** The block of that copy is one the segment holds. */
  lemma BlockInLineIsHeld(m: Metadata, i: nat, serv: int, line: int)
    requires m.Valid() && i < |m.nserv| && Takes(m, i, serv, line)
    ensures var block := CopyInLine(m, i, serv, line) / (m.replicationLevel + 1) + Start(m, i);
      0 <= block && Holds(m, i, block)
  {
    var r, c := CopyInLine(m, i, serv, line), m.replicationLevel + 1;
    BlockOfCopy(r, Low(m, i) - Start(m, i), c);
    if !Open(m, i) { BlockOfCopy(r, m.offsets[i + 1] + 1 - Start(m, i), c); }
  }

  lemma BlockFromStart(q: int, start: int, bs: int)
    ensures q * bs + bs * start == (q + start) * bs
  {
  }

  lemma ByteOfBlock(m: Metadata, i: nat, serv: int, line: int)
    requires m.Valid() && i < |m.nserv| && Takes(m, i, serv, line)
    ensures var s := ByteInLine(m, i, serv, line);
      && s.offset == (CopyInLine(m, i, serv, line) / (m.replicationLevel + 1) + Start(m, i)) * m.blockSize
      && 0 <= s.replication <= m.replicationLevel
  {
    BlockFromStart(CopyInLine(m, i, serv, line) / (m.replicationLevel + 1), Start(m, i), m.blockSize);
  }

  lemma FirstByteOfBlock(block: int, bs: int)
    requires 0 <= block && 0 < bs
    ensures 0 <= block * bs && (block * bs) / bs == block && (block * bs) % bs == 0
  {
    DivMod.Unique(block * bs, bs, block, 0);
  }

  lemma ByteIsInSegment(m: Metadata, i: nat, serv: int, line: int)
    requires m.Valid() && i < |m.nserv| && Takes(m, i, serv, line)
    ensures var s := ByteInLine(m, i, serv, line); InFile(m, s) && SegmentOf(m, s) == i && s.offset % m.blockSize == 0
  {
    var block := CopyInLine(m, i, serv, line) / (m.replicationLevel + 1) + Start(m, i);
    BlockInLineIsHeld(m, i, serv, line);
    ByteOfBlock(m, i, serv, line);
    FirstByteOfBlock(block, m.blockSize);
    HoldsExactlyIf(m, block, i);
  }

  /** Inside the segment the byte is in its line, counted from where the segment begins. */
  lemma ByteInLineInSegment(m: Metadata, i: nat, serv: int, line: int)
    requires m.Valid() && i < |m.nserv| && Takes(m, i, serv, line) && 0 <= serv < m.nserv[i]
    ensures var s := ByteInLine(m, i, serv, line);
      && 0 <= s.offset - m.blockSize * Start(m, i) && 0 <= s.replication && 0 <= line - BaseLine(m, i)
      && InSegment(m, s, i) == Place(serv, Weighted(line - BaseLine(m, i), m.blockSize, 0))
  {
    var r, l := CopyInLine(m, i, serv, line), line - BaseLine(m, i);
    CalculateOfSource(m.LayoutAt(i), r, 0);
    ServerOfTurn(l, serv, m.firstNode, m.nserv[i]);
    DivMod.Unique(r, m.nserv[i], l, Turn(m, i, serv));
    DivMod.Bounds(r, m.nserv[i]);
  }

  lemma ByteInLinePlace(m: Metadata, i: nat, serv: int, line: int)
    requires m.Valid() && i < |m.nserv| && Takes(m, i, serv, line) && 0 <= serv < m.nserv[i]
    ensures InFile(m, ByteInLine(m, i, serv, line))
    ensures Locate(m, ByteInLine(m, i, serv, line)) == Place(serv, line * m.blockSize - Base(m, AddedBy(m, i, serv)))
  {
    ByteIsInSegment(m, i, serv, line);
    BehindItsStart(m, ByteInLine(m, i, serv, line));
    ByteInLineInSegment(m, i, serv, line);
    BaseInLines(m, i);
    SumOfLines(BaseLine(m, i), line - BaseLine(m, i), m.blockSize);
  }

  /**
   * After any number of expansions, whatever they recorded, two bytes of the file fall
   * together if and only if two segments meet on a server, which can be told from the
   * metadata: for each pair of segments and each server by comparing two ranges of lines.
   */
  lemma CollideExactlyIf(m: Metadata)
    requires m.Valid()
    ensures Collide(m) <==> SomeMeet(m)
  {
    if SomeMeet(m) {
      var i, j, serv :| 0 <= i < j < |m.nserv| && 0 <= serv < m.nserv[i] && Meet(m, i, j, serv);
      MeetExactlyIf(m, i, j, serv);
      var line :| Takes(m, i, serv, line) && Takes(m, j, serv, line);
      ByteInLinePlace(m, i, serv, line);
      ByteInLinePlace(m, j, serv, line);
      AddedByOneExpansion(m, i, j, serv);
      ByteIsInSegment(m, i, serv, line);
      ByteIsInSegment(m, j, serv, line);
      assert ByteInLine(m, i, serv, line) != ByteInLine(m, j, serv, line);
    } else if Collide(m) {
      var s1, s2 :| InFile(m, s1) && InFile(m, s2) && s1 != s2 && Locate(m, s1) == Locate(m, s2);
      if SegmentOf(m, s1) == SegmentOf(m, s2) { OneSegmentApart(m, s1, s2); }
      else if SegmentOf(m, s1) < SegmentOf(m, s2) { CollisionMeets(m, s1, s2); }
      else { CollisionMeets(m, s2, s1); }
    }
  }
}
