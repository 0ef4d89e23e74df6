/**
 * What an expansion to more servers does to a file (src/utils/xpn_expand.c): the block it
 * records, which blocks go where afterwards, and exactly when nothing stored is moved.
 */
module Expansion {
  import DivMod
  import opened Striping
  import opened ExpandedPlacement

  /** The last block that stays on the old layout, as xpn_expand records it. */
  function Limit(fileSize: int, blockSize: int, nserv: int): int
    requires 0 <= fileSize && 0 < blockSize && 0 < nserv
  {
    var actualBlocks := fileSize / blockSize;
    ((actualBlocks + nserv - 1) / nserv) * nserv - 1
  }

  function LastServers(m: Metadata): (n: int)
    requires m.Valid()
    ensures 0 < n
  {
    m.nserv[|m.nserv| - 1]
  }

  /** The metadata after an expansion. */
  function Expand(m: Metadata, fileSize: int, servers: int): (e: Metadata)
    requires m.Valid() && 0 <= fileSize
  {
    m.(nserv := m.nserv + [servers], offsets := m.offsets + [Limit(fileSize, m.blockSize, LastServers(m))])
  }

  /** The expansion is to no fewer servers, and there is room to record it. */
  predicate CanExpand(m: Metadata, fileSize: int, servers: int) {
    m.Valid() && 0 <= fileSize && LastServers(m) <= servers && |m.nserv| < MAX_RECONSTRUCTIONS - 2
  }

  lemma ExpandIsValid(m: Metadata, fileSize: int, servers: int)
    requires CanExpand(m, fileSize, servers)
    ensures var e := Expand(m, fileSize, servers);
      && e.Valid() && Extends(m, e) && |e.nserv| == |m.nserv| + 1
  {
    var e := Expand(m, fileSize, servers);
    assert m.nserv == e.nserv[..|m.nserv|] && m.offsets == e.offsets[..|m.nserv|];
  }

  // ----- an expansion leaves the earlier entries as they are

  predicate Extends(m: Metadata, e: Metadata)
    requires m.Valid()
  {
    && e.Valid() && |m.nserv| < |e.nserv|
    && e == m.(nserv := e.nserv, offsets := e.offsets)
    && m.nserv == e.nserv[..|m.nserv|] && m.offsets == e.offsets[..|m.nserv|]
  }

  /**
   * After an expansion a block is in the new segment exactly if it was in the last one, is
   * behind the recorded block, and the recorded block is not 0; otherwise it is where it was.
   */
  lemma {:induction false} SegmentAfter(m: Metadata, e: Metadata, block: int, i: nat)
    requires m.Valid() && Extends(m, e) && |e.nserv| == |m.nserv| + 1 && i < |m.nserv|
    ensures var n := |m.nserv|;
      Segment(e, block, i) == if Segment(m, block, i) == n - 1 && e.offsets[n] < block && e.offsets[n] != 0 then n
                              else Segment(m, block, i)
    decreases |m.nserv| - i
  {
    if i + 1 < |m.nserv| {
      assert m.offsets[i + 1] == e.offsets[i + 1];
      if !(block <= m.offsets[i + 1] || m.offsets[i + 1] == 0) { SegmentAfter(m, e, block, i + 1); }
    }
  }

  lemma {:induction false} SameBase(m: Metadata, e: Metadata, i: nat)
    requires m.Valid() && Extends(m, e) && i < |m.nserv|
    ensures Base(e, i) == Base(m, i)
  {
    if i > 0 {
      SameBase(m, e, i - 1);
      NextBase(m, i - 1);
      NextBase(e, i - 1);
    }
  }

  lemma {:induction false} SameAddedBy(m: Metadata, e: Metadata, i: nat, serv: int)
    requires m.Valid() && Extends(m, e) && i < |m.nserv|
    ensures AddedBy(e, i, serv) == AddedBy(m, i, serv)
  {
    if i > 0 { SameAddedBy(m, e, i - 1, serv); }
  }

  /** A byte whose segment is the same has the same place. */
  lemma SamePlace(m: Metadata, e: Metadata, src: Source)
    requires m.Valid() && Extends(m, e) && 0 <= src.offset && 0 <= src.replication
    requires SegmentOf(e, src) == SegmentOf(m, src)
    ensures Locate(e, src) == Locate(m, src)
  {
    var i := SegmentOf(m, src);
    BehindItsStart(m, src);
    assert e.LayoutAt(i) == m.LayoutAt(i) && Start(e, i) == Start(m, i);
    var serv := InSegment(m, src, i).serv;
    SameAddedBy(m, e, i, serv);
    SameBase(m, e, i);
    SameBase(m, e, AddedBy(m, i, serv));
  }

  // ----- the blocks up to the recorded one

  /** An expansion moves no block up to the recorded one. */
  lemma ExpandKeepsPlaces(m: Metadata, fileSize: int, servers: int, src: Source)
    requires CanExpand(m, fileSize, servers) && Expand(m, fileSize, servers).Valid()
    requires 0 <= src.offset && 0 <= src.replication
    requires src.offset / m.blockSize <= Limit(fileSize, m.blockSize, LastServers(m))
    ensures Locate(Expand(m, fileSize, servers), src) == Locate(m, src)
  {
    var e := Expand(m, fileSize, servers);
    ExpandIsValid(m, fileSize, servers);
    SegmentAfter(m, e, src.offset / m.blockSize, 0);
    SamePlace(m, e, src);
  }

  lemma RoundUp(a: int, n: int)
    requires 0 <= a && 0 < n
    ensures ((a + n - 1) / n) * n == if a % n == 0 then a else a - a % n + n
  {
    if a % n == 0 {
      DivMod.Unique(a + n - 1, n, a / n, n - 1);
    } else {
      assert a + n - 1 == (a / n + 1) * n + (a % n - 1);
      DivMod.Unique(a + n - 1, n, a / n + 1, a % n - 1);
    }
  }

  /** The recorded block is the last whole block, or up to one line behind it. */
  lemma LimitBounds(fileSize: int, blockSize: int, nserv: int)
    requires 0 <= fileSize && 0 < blockSize && 0 < nserv
    ensures fileSize / blockSize - 1 <= Limit(fileSize, blockSize, nserv) <= fileSize / blockSize + nserv - 2
    ensures (Limit(fileSize, blockSize, nserv) + 1) % nserv == 0
    ensures (fileSize / blockSize) % nserv == 0 <==> Limit(fileSize, blockSize, nserv) == fileSize / blockSize - 1
  {
    var a := fileSize / blockSize;
    DivMod.Bounds(fileSize, blockSize);
    DivMod.Bounds(a, nserv);
    RoundUp(a, nserv);
    DivMod.Unique(((a + nserv - 1) / nserv) * nserv, nserv, (a + nserv - 1) / nserv, 0);
  }

  /**
   * The recorded block covers the whole file exactly if the file has no partial last
   * block, or its whole blocks do not fill up the last line of servers.
   */
  lemma LimitCoversFileExactlyIf(fileSize: int, blockSize: int, nserv: int)
    requires 0 <= fileSize && 0 < blockSize && 0 < nserv
    ensures (forall o :: 0 <= o < fileSize ==> o / blockSize <= Limit(fileSize, blockSize, nserv))
       <==> fileSize % blockSize == 0 || (fileSize / blockSize) % nserv != 0
  {
    var a := fileSize / blockSize;
    DivMod.Bounds(fileSize, blockSize);
    LimitBounds(fileSize, blockSize, nserv);
    if a % nserv != 0 {
      forall o | 0 <= o < fileSize ensures o / blockSize <= Limit(fileSize, blockSize, nserv) {
        DivMod.Monotone(o, fileSize, blockSize);
      }
    } else if fileSize % blockSize == 0 {
      forall o | 0 <= o < fileSize ensures o / blockSize <= Limit(fileSize, blockSize, nserv) {
        DivMod.Monotone(o, fileSize - 1, blockSize);
        assert fileSize - 1 == (a - 1) * blockSize + (blockSize - 1);
        DivMod.Unique(fileSize - 1, blockSize, a - 1, blockSize - 1);
      }
    } else {
      DivMod.Unique(fileSize - 1, blockSize, a, fileSize % blockSize - 1);
    }
  }

  // ----- a partial block behind a full line

  /** The lines that w block copies take on every server, as the code counts them. */
  function Lead(w: int, n: int): (lead: int)
    requires 0 <= w && 0 < n
    ensures 0 <= lead
  {
    if w == 0 then (if n == 1 then 0 else 1) else (w - 1) / n + 1
  }

  lemma AdvanceIsLead(l: Layout, q: int)
    requires l.Valid() && 0 <= q
    ensures Advance(l, q - 1) == Weighted(Lead(Weighted(q, l.replicationLevel + 1, 0), l.nserv), l.blockSize, 0)
  {
    var c := l.replicationLevel + 1;
    if q == 0 {
      if l.nserv > 1 { DivMod.Unique(1, l.nserv, 0, 1); }
      assert -c + l.replicationLevel == -1;
    } else {
      DivMod.Unique((q - 1) * l.blockSize, l.blockSize, q - 1, 0);
      assert Weighted(q - 1, c, l.replicationLevel) == Weighted(q, c, 0) - 1;
    }
  }

  /** A byte of the partial last block, when the whole blocks fill the last line of the last segment. */
  predicate Behind(m: Metadata, fileSize: int, src: Source)
    requires m.Valid() && 0 <= fileSize
  {
    var a := fileSize / m.blockSize;
    && InFile(m, src) && src.offset / m.blockSize == a && a % LastServers(m) == 0
    && SegmentOf(m, src) == |m.nserv| - 1
    && !(a == 1 && LastServers(m) == 1)
  }

  /** The whole blocks of the last segment, and their copies. */
  function WholeBlocks(m: Metadata, fileSize: int): int
    requires m.Valid() && 0 <= fileSize
  {
    fileSize / m.blockSize - Start(m, |m.nserv| - 1)
  }

  function WholeCopies(m: Metadata, fileSize: int): (w: int)
    requires m.Valid() && 0 <= fileSize && 0 <= WholeBlocks(m, fileSize)
    ensures 0 <= w
  {
    Weighted(WholeBlocks(m, fileSize), m.replicationLevel + 1, 0)
  }

  lemma BehindGoesToNew(m: Metadata, fileSize: int, servers: int, src: Source)
    requires CanExpand(m, fileSize, servers) && Behind(m, fileSize, src)
    ensures var e, a := Expand(m, fileSize, servers), fileSize / m.blockSize;
      && e.Valid() && SegmentOf(e, src) == |m.nserv| && Start(e, |m.nserv|) == a
      && 0 <= WholeBlocks(m, fileSize)
  {
    var e, a := Expand(m, fileSize, servers), fileSize / m.blockSize;
    ExpandIsValid(m, fileSize, servers);
    LimitBounds(fileSize, m.blockSize, LastServers(m));
    if LastServers(m) > 1 && a == 1 { DivMod.Unique(1, LastServers(m), 0, 1); }
    SegmentAfter(m, e, a, 0);
    DivMod.Bounds(src.offset, m.blockSize);
    SegmentBounds(m, a, 0);
  }

  /** Where byte x of the block is before the expansion, and after it. */
  lemma BehindPlaces(m: Metadata, fileSize: int, servers: int, src: Source)
    requires CanExpand(m, fileSize, servers) && Behind(m, fileSize, src)
    ensures var e, n, x := Expand(m, fileSize, servers), |m.nserv|, src.offset % m.blockSize;
      && e.Valid() && 0 <= WholeBlocks(m, fileSize)
      && 0 <= src.offset - m.blockSize * Start(m, n - 1) && 0 <= src.offset - e.blockSize * Start(e, n)
      && InSegment(m, src, n - 1) == PlaceOf(m.LayoutAt(n - 1), WholeCopies(m, fileSize) + src.replication, x)
      && InSegment(e, src, n) == PlaceOf(e.LayoutAt(n), src.replication, x)
  {
    var e, n := Expand(m, fileSize, servers), |m.nserv|;
    BehindGoesToNew(m, fileSize, servers, src);
    BehindItsStart(m, src);
    BehindItsStart(e, src);
    RelativeBlock(src.offset, m.blockSize, Start(m, n - 1));
    RelativeBlock(src.offset, m.blockSize, Start(e, n));
  }

  lemma LinesAddUp(a: int, b: int, c: int, bs: int, x: int)
    requires 0 <= a && 0 <= b && 0 <= c && 0 < bs && 0 <= x
    ensures Weighted(a, bs, x) == Weighted(b, bs, x) + Weighted(c, bs, 0) <==> a == b + c
  {
    assert (a - b - c) * bs == a * bs - b * bs - c * bs;
    if a > b + c { DivMod.MulAtLeast(a - b - c, bs); }
    if a < b + c {
      assert (b + c - a) * bs == b * bs + c * bs - a * bs;
      DivMod.MulAtLeast(b + c - a, bs);
    }
  }

  /** The copy is on the same server and in the same line. */
  predicate CopyStays(w: int, r: int, first: int, n: int, servers: int)
    requires 0 <= w && 0 < n && 0 < servers
  {
    (w + r + first) % n == (r + first) % servers && (w + r) / n == r / servers + Lead(w, n)
  }

  /** The new segment begins behind the whole blocks of the last one. */
  lemma NewBase(m: Metadata, fileSize: int, servers: int, src: Source)
    requires CanExpand(m, fileSize, servers) && Behind(m, fileSize, src)
    ensures Expand(m, fileSize, servers).Valid() && 0 <= WholeBlocks(m, fileSize)
    ensures Base(Expand(m, fileSize, servers), |m.nserv|)
         == Base(m, |m.nserv| - 1) + Weighted(Lead(WholeCopies(m, fileSize), LastServers(m)), m.blockSize, 0)
  {
    var e, n := Expand(m, fileSize, servers), |m.nserv|;
    ExpandIsValid(m, fileSize, servers);
    BehindGoesToNew(m, fileSize, servers, src);
    SameBase(m, e, n - 1);
    NextBase(e, n - 1);
    AdvanceIsLead(m.LayoutAt(n - 1), WholeBlocks(m, fileSize));
  }

  /** What a server of the old layout lacks of the segments before it is the same as before. */
  lemma SameMissing(m: Metadata, fileSize: int, servers: int, serv: int)
    requires CanExpand(m, fileSize, servers) && serv < LastServers(m)
    ensures var e, n := Expand(m, fileSize, servers), |m.nserv|;
      e.Valid() && Base(e, AddedBy(e, n, serv)) == Base(m, AddedBy(m, n - 1, serv))
  {
    var e, n := Expand(m, fileSize, servers), |m.nserv|;
    ExpandIsValid(m, fileSize, servers);
    SameAddedBy(m, e, n - 1, serv);
    SameBase(m, e, AddedBy(m, n - 1, serv));
  }

  /** A byte stays exactly if its server is the same and its line makes up for the new base. */
  lemma StaysIfLinesMatch(m: Metadata, fileSize: int, servers: int, src: Source)
    requires CanExpand(m, fileSize, servers) && Behind(m, fileSize, src)
    ensures var e, n := Expand(m, fileSize, servers), |m.nserv|;
      && e.Valid() && 0 <= WholeBlocks(m, fileSize)
      && 0 <= src.offset - m.blockSize * Start(m, n - 1) && 0 <= src.offset - e.blockSize * Start(e, n)
      && var p, p' := InSegment(m, src, n - 1), InSegment(e, src, n);
      && var lead := Lead(WholeCopies(m, fileSize), LastServers(m));
      && (Locate(e, src) == Locate(m, src)
          <==> p.serv == p'.serv && p.localOffset == p'.localOffset + Weighted(lead, m.blockSize, 0))
  {
    var n := |m.nserv|;
    BehindGoesToNew(m, fileSize, servers, src);
    BehindPlaces(m, fileSize, servers, src);
    NewBase(m, fileSize, servers, src);
    SameMissing(m, fileSize, servers, InSegment(m, src, n - 1).serv);
  }

  lemma CopyStaysExactlyIf(m: Metadata, fileSize: int, servers: int, src: Source)
    requires CanExpand(m, fileSize, servers) && Behind(m, fileSize, src)
    ensures Expand(m, fileSize, servers).Valid() && 0 <= WholeBlocks(m, fileSize)
    ensures Locate(Expand(m, fileSize, servers), src) == Locate(m, src)
       <==> CopyStays(WholeCopies(m, fileSize), src.replication, m.firstNode, LastServers(m), servers)
  {
    StaysIfLinesMatch(m, fileSize, servers, src);
    BehindPlaces(m, fileSize, servers, src);
    var w, n := WholeCopies(m, fileSize), LastServers(m);
    CopyLines(m.LayoutAt(|m.nserv| - 1), Layout(m.blockSize, m.replicationLevel, servers, m.firstNode),
              w + src.replication, src.replication, Lead(w, n), src.offset % m.blockSize);
  }

  lemma CopyLines(l: Layout, l': Layout, br: int, r: int, lead: int, x: int)
    requires l.Valid() && l'.Valid() && l.blockSize == l'.blockSize
    requires 0 <= br && 0 <= r && 0 <= lead && 0 <= x
    ensures var p, p' := PlaceOf(l, br, x), PlaceOf(l', r, x);
      p.localOffset == p'.localOffset + Weighted(lead, l.blockSize, 0) <==> br / l.nserv == r / l'.nserv + lead
  {
    LinesAddUp(br / l.nserv, r / l'.nserv, lead, l.blockSize, x);
  }

  predicate AllCopiesStay(w: int, rl: int, first: int, n: int, servers: int)
    requires 0 <= w && 0 < n && 0 < servers
  {
    forall r :: 0 <= r <= rl ==> CopyStays(w, r, first, n, servers)
  }

  /** The block copies fill whole lines, and the copies of one block do not wrap around. */
  predicate FillsLines(w: int, rl: int, first: int, n: int, servers: int)
    requires 0 < n
  {
    w % n == 0 && (0 < w || n == 1) && (first + rl < n || servers == n)
  }

  lemma LeadOfFullLines(k: int, n: int)
    requires 0 <= k && 0 < n && (0 < k || n == 1)
    ensures 0 <= k * n && Lead(k * n, n) == k
  {
    if k > 0 {
      DivMod.MulAtLeast(k, n);
      DivMod.Unique(k * n - 1, n, k - 1, n - 1);
    }
  }

  lemma AddLines(w: int, k: int, r: int, n: int)
    requires 0 < n && w == k * n
    ensures (w + r) % n == r % n && (w + r) / n == k + r / n
  {
    assert w + r == (k + r / n) * n + r % n;
    DivMod.Unique(w + r, n, k + r / n, r % n);
  }

  lemma AllStayIf(w: int, rl: int, first: int, n: int, servers: int)
    requires 0 <= w && 0 <= rl && 0 <= first < n <= servers && FillsLines(w, rl, first, n, servers)
    ensures AllCopiesStay(w, rl, first, n, servers)
  {
    var k := w / n;
    DivMod.Bounds(w, n);
    LeadOfFullLines(k, n);
    forall r | 0 <= r <= rl ensures CopyStays(w, r, first, n, servers) {
      AddLines(w, k, r + first, n);
      AddLines(w, k, r, n);
      if servers != n {
        DivMod.Unique(r + first, n, 0, r + first);
        DivMod.Unique(r + first, servers, 0, r + first);
        DivMod.Unique(r, n, 0, r);
        DivMod.Unique(r, servers, 0, r);
      }
    }
  }

  /** What it takes for copy 0 to stay. */
  lemma FirstCopyNeeds(w: int, first: int, n: int, servers: int)
    requires 0 <= w && 0 <= first < n <= servers && CopyStays(w, 0, first, n, servers)
    ensures w % n == 0 && (0 < w || n == 1)
  {
    DivMod.Unique(first, servers, 0, first);
    DivMod.Unique(0, servers, 0, 0);
    assert w == ((w + first) / n) * n;
    DivMod.Unique(w, n, (w + first) / n, 0);
    DivMod.Unique(0, n, 0, 0);
  }

  /** A copy that wraps around to server 0 of the old layout goes to a new server. */
  lemma WrappedCopyMoves(w: int, first: int, n: int, servers: int)
    requires 0 <= w && 0 <= first < n < servers && w % n == 0
    ensures !CopyStays(w, n - first, first, n, servers)
  {
    assert w + (n - first) + first == n + (w / n) * n;
    DivMod.AddTurns(n, w / n, n);
    DivMod.Unique(n, n, 1, 0);
    DivMod.Unique(n, servers, 0, n);
  }

  lemma AllStayExactlyIf(w: int, rl: int, first: int, n: int, servers: int)
    requires 0 <= w && 0 <= rl && 0 <= first < n <= servers
    ensures AllCopiesStay(w, rl, first, n, servers) <==> FillsLines(w, rl, first, n, servers)
  {
    if FillsLines(w, rl, first, n, servers) {
      AllStayIf(w, rl, first, n, servers);
    } else if AllCopiesStay(w, rl, first, n, servers) {
      assert CopyStays(w, 0, first, n, servers);
      FirstCopyNeeds(w, first, n, servers);
      WrappedCopyMoves(w, first, n, servers);
    }
  }

  // ----- when nothing is moved

  /** What can be said of the metadata and the file size before the expansion. */
  predicate MovesNothing(m: Metadata, fileSize: int, servers: int)
    requires m.Valid() && 0 <= fileSize
  {
    var a, n, last := fileSize / m.blockSize, LastServers(m), |m.nserv| - 1;
    || fileSize % m.blockSize == 0
    || a % n != 0
    || (a == 1 && n == 1)
    || Segment(m, a, 0) < last
    || FillsLines((a - Start(m, last)) * (m.replicationLevel + 1), m.replicationLevel, m.firstNode, n, servers)
  }

  /** No byte of any copy of the file changes its place. */
  ghost predicate KeepsTheFile(m: Metadata, e: Metadata, fileSize: int)
    requires m.Valid() && e.Valid()
  {
    forall src :: InFile(m, src) && src.offset < fileSize ==> Locate(e, src) == Locate(m, src)
  }

  /** A byte that is not behind a full last line stays where it is. */
  lemma OthersStay(m: Metadata, fileSize: int, servers: int, src: Source)
    requires CanExpand(m, fileSize, servers) && Expand(m, fileSize, servers).Valid()
    requires InFile(m, src) && src.offset < fileSize && !Behind(m, fileSize, src)
    ensures Locate(Expand(m, fileSize, servers), src) == Locate(m, src)
  {
    var e, b, a := Expand(m, fileSize, servers), src.offset / m.blockSize, fileSize / m.blockSize;
    ExpandIsValid(m, fileSize, servers);
    LimitBounds(fileSize, m.blockSize, LastServers(m));
    DivMod.Monotone(src.offset, fileSize, m.blockSize);
    SegmentAfter(m, e, b, 0);
    SamePlace(m, e, src);
  }

  /** The file has a partial last block that the expansion puts into the new segment. */
  predicate LeavesPartialBlock(m: Metadata, fileSize: int)
    requires m.Valid() && 0 <= fileSize
  {
    var a, n := fileSize / m.blockSize, LastServers(m);
    fileSize % m.blockSize != 0 && a % n == 0 && !(a == 1 && n == 1) && Segment(m, a, 0) == |m.nserv| - 1
  }

  /** Its bytes, of which the last one of the file is one. */
  lemma BytesBehind(m: Metadata, fileSize: int, src: Source)
    requires m.Valid() && 0 <= fileSize && InFile(m, src) && src.offset < fileSize
    ensures Behind(m, fileSize, src) ==> LeavesPartialBlock(m, fileSize)
    ensures LeavesPartialBlock(m, fileSize) && src.offset == fileSize - 1 ==> Behind(m, fileSize, src)
  {
    var a := fileSize / m.blockSize;
    DivMod.Bounds(fileSize, m.blockSize);
    DivMod.Bounds(src.offset, m.blockSize);
    if fileSize % m.blockSize != 0 {
      DivMod.Unique(fileSize - 1, m.blockSize, a, fileSize % m.blockSize - 1);
    }
  }

  /** With such a block, everything stays exactly if all copies of it do. */
  lemma PartialBlockDecides(m: Metadata, fileSize: int, servers: int)
    requires CanExpand(m, fileSize, servers) && LeavesPartialBlock(m, fileSize)
    ensures Expand(m, fileSize, servers).Valid() && 0 <= WholeBlocks(m, fileSize)
    ensures KeepsTheFile(m, Expand(m, fileSize, servers), fileSize)
       <==> AllCopiesStay(WholeCopies(m, fileSize), m.replicationLevel, m.firstNode, LastServers(m), servers)
  {
    var e, first, n := Expand(m, fileSize, servers), m.firstNode, LastServers(m);
    ExpandIsValid(m, fileSize, servers);
    DivMod.Bounds(fileSize, m.blockSize);
    SegmentBounds(m, fileSize / m.blockSize, 0);
    var w := WholeCopies(m, fileSize);
    forall r | 0 <= r <= m.replicationLevel
      ensures Locate(e, Source(fileSize - 1, r)) == Locate(m, Source(fileSize - 1, r)) <==> CopyStays(w, r, first, n, servers)
    {
      BytesBehind(m, fileSize, Source(fileSize - 1, r));
      CopyStaysExactlyIf(m, fileSize, servers, Source(fileSize - 1, r));
    }
    if AllCopiesStay(w, m.replicationLevel, first, n, servers) {
      forall src | InFile(m, src) && src.offset < fileSize ensures Locate(e, src) == Locate(m, src) {
        if Behind(m, fileSize, src) {
          CopyStaysExactlyIf(m, fileSize, servers, src);
        } else {
          OthersStay(m, fileSize, servers, src);
        }
      }
    } else {
      var r :| 0 <= r <= m.replicationLevel && !CopyStays(w, r, first, n, servers);
      assert InFile(m, Source(fileSize - 1, r));
    }
  }

  /**
   * An expansion moves no byte of any copy of the file exactly if the file has no partial
   * last block, or its whole blocks do not fill up a line, or the partial block lies in an
   * earlier segment, or the whole copies of the last segment fill whole lines (at least
   * one, with more than one server) and the copies of one block do not wrap around.
   */
  lemma ExpandKeepsTheFileExactlyIf(m: Metadata, fileSize: int, servers: int)
    requires CanExpand(m, fileSize, servers) && m.firstNode < m.nserv[0]
    ensures Expand(m, fileSize, servers).Valid()
    ensures KeepsTheFile(m, Expand(m, fileSize, servers), fileSize) <==> MovesNothing(m, fileSize, servers)
  {
    var e := Expand(m, fileSize, servers);
    ExpandIsValid(m, fileSize, servers);
    if LeavesPartialBlock(m, fileSize) {
      PartialBlockDecides(m, fileSize, servers);
      AllStayExactlyIf(WholeCopies(m, fileSize), m.replicationLevel, m.firstNode, LastServers(m), servers);
    } else {
      forall src | InFile(m, src) && src.offset < fileSize ensures Locate(e, src) == Locate(m, src) {
        BytesBehind(m, fileSize, src);
        OthersStay(m, fileSize, servers, src);
      }
    }
  }

  /**
   * For the first expansion: exactly if the file has no partial last block, or its whole
   * blocks do not fill up a line, or there is a whole block (or one server only) and the
   * copies of one block do not wrap around.
   */
  lemma FirstExpansionKeepsTheFileExactlyIf(m: Metadata, fileSize: int, servers: int)
    requires m.Valid() && |m.nserv| == 1 && 0 <= fileSize
    requires var n := m.nserv[0]; m.firstNode < n < servers && m.replicationLevel < n
    ensures Expand(m, fileSize, servers).Valid()
    ensures var a, n := fileSize / m.blockSize, m.nserv[0];
      KeepsTheFile(m, Expand(m, fileSize, servers), fileSize)
      <==> fileSize % m.blockSize == 0 || a % n != 0 || ((0 < a || n == 1) && m.firstNode + m.replicationLevel < n)
  {
    var a, n := fileSize / m.blockSize, m.nserv[0];
    ExpandKeepsTheFileExactlyIf(m, fileSize, servers);
    DivMod.Bounds(fileSize, m.blockSize);
    if a % n == 0 { WholeLines(a, m.replicationLevel + 1, n); }
  }

  lemma WholeLines(a: int, c: int, n: int)
    requires 0 <= a && 0 < c && 0 < n && a % n == 0
    ensures (a * c) % n == 0 && (0 < a * c <==> 0 < a)
  {
    assert a * c == ((a / n) * c) * n by { assert a == (a / n) * n; }
    DivMod.Unique(a * c, n, (a / n) * c, 0);
    if a > 0 { DivMod.MulAtLeast(a, c); }
  }

  /**
   * A file smaller than a block, on two servers or more, is looked for one line further on
   * after the expansion: it loses sight of every byte of it.
   */
  lemma SmallFileIsMoved(m: Metadata, fileSize: int, servers: int, offset: int)
    requires m.Valid() && |m.nserv| == 1 && 1 < m.nserv[0] <= servers && m.firstNode < m.nserv[0]
    requires 0 <= offset < fileSize < m.blockSize
    ensures Expand(m, fileSize, servers).Valid()
    ensures Locate(m, Source(offset, 0)) == Place(m.firstNode, offset)
    ensures Locate(Expand(m, fileSize, servers), Source(offset, 0)) == Place(m.firstNode, m.blockSize + offset)
  {
    var e := Expand(m, fileSize, servers);
    DivMod.Unique(offset, m.blockSize, 0, offset);
    DivMod.Unique(fileSize, m.blockSize, 0, fileSize);
    DivMod.Unique(m.nserv[0] - 1, m.nserv[0], 0, m.nserv[0] - 1);
    FirstBlock(m.LayoutAt(0), offset);
    FirstBlock(e.LayoutAt(1), offset);
    EmptySegment(m.LayoutAt(0));
    assert e.offsets[1] == -1 && SegmentOf(e, Source(offset, 0)) == 1;
    assert Base(e, 1) == Base(e, 0) + Advance(e.LayoutAt(0), -1);
  }

  lemma FirstBlock(l: Layout, offset: int)
    requires l.Valid() && l.firstNode < l.nserv && 0 <= offset < l.blockSize
    ensures CalculateBlock(l, Source(offset, 0)) == Place(l.firstNode, offset)
  {
    DivMod.Unique(offset, l.blockSize, 0, offset);
    DivMod.Unique(0, l.nserv, 0, 0);
    DivMod.Unique(l.firstNode, l.nserv, 0, l.firstNode);
  }

  lemma EmptySegment(l: Layout)
    requires l.Valid() && 1 < l.nserv
    ensures Advance(l, -1) == l.blockSize
  {
    DivMod.Unique(1, l.nserv, 0, 1);
    assert -(l.replicationLevel + 1) + l.replicationLevel == -1;
  }

  // ----- where new blocks go

  /** The recorded block is 0 for one whole block on one server, and for nothing else. */
  lemma LimitIsZeroExactlyIf(fileSize: int, blockSize: int, nserv: int)
    requires 0 <= fileSize && 0 < blockSize && 0 < nserv
    ensures Limit(fileSize, blockSize, nserv) == 0 <==> fileSize / blockSize == 1 && nserv == 1
  {
    LimitBounds(fileSize, blockSize, nserv);
    if nserv > 1 { DivMod.Unique(1, nserv, 0, 1); }
  }

  /**
   * A block behind the recorded one that the last servers held goes to the new servers
   * exactly unless the file was one whole block on one server: then the recorded 0 is
   * taken for an unused entry, and the expansion is never used.
   */
  lemma NewBlocksUseNewServersExactlyIf(m: Metadata, fileSize: int, servers: int, block: int)
    requires CanExpand(m, fileSize, servers) && Segment(m, block, 0) == |m.nserv| - 1
    requires Limit(fileSize, m.blockSize, LastServers(m)) < block
    ensures Expand(m, fileSize, servers).Valid()
    ensures Segment(Expand(m, fileSize, servers), block, 0) == |m.nserv|
       <==> !(fileSize / m.blockSize == 1 && LastServers(m) == 1)
  {
    ExpandIsValid(m, fileSize, servers);
    SegmentAfter(m, Expand(m, fileSize, servers), block, 0);
    LimitIsZeroExactlyIf(fileSize, m.blockSize, LastServers(m));
  }

  // ----- when blocks fall together

  /** The metadata records expansions of a file that had the given sizes at the time. */
  predicate Records(m: Metadata, sizes: seq<int>)
    requires m.Valid()
  {
    && |sizes| == |m.nserv| - 1
    && forall i :: 0 <= i < |sizes| ==>
         0 <= sizes[i] && m.offsets[i + 1] == Limit(sizes[i], m.blockSize, m.nserv[i])
  }

  lemma StepBackOfSizes(m: Metadata, sizes: seq<int>, i: nat)
    requires m.Valid() && Records(m, sizes) && 2 <= i < |m.nserv| && sizes[i - 2] <= sizes[i - 1]
    ensures m.offsets[i - 1] - m.offsets[i] <= m.nserv[i - 2] - 1 <= m.nserv[i - 1] - 1
  {
    LimitBounds(sizes[i - 2], m.blockSize, m.nserv[i - 2]);
    LimitBounds(sizes[i - 1], m.blockSize, m.nserv[i - 1]);
    assert m.offsets[i - 2 + 1] == Limit(sizes[i - 2], m.blockSize, m.nserv[i - 2]);
    assert m.offsets[i - 1 + 1] == Limit(sizes[i - 1], m.blockSize, m.nserv[i - 1]);
    DivMod.Monotone(sizes[i - 2], sizes[i - 1], m.blockSize);
  }

  /**
   * With at most two copies, no expansions of a file that never shrinks make two bytes
   * fall together: the step back is below a line.
   */
  lemma TwoCopiesNeverCollide(m: Metadata, sizes: seq<int>, s1: Source, s2: Source)
    requires m.Valid() && Records(m, sizes) && forall i :: 0 <= i < |sizes| - 1 ==> sizes[i] <= sizes[i + 1]
    requires m.replicationLevel <= 1 && InFile(m, s1) && InFile(m, s2) && s1 != s2
    ensures Locate(m, s1) != Locate(m, s2)
  {
    if |sizes| > 0 { LimitBounds(sizes[0], m.blockSize, m.nserv[0]); }
    DivMod.Bounds(if |sizes| > 0 then sizes[0] else 0, m.blockSize);
    BasesGrowExactlyIf(m);
    forall i | 2 <= i < |m.nserv| ensures SmallStepBack(m, i) {
      assert sizes[i - 2] <= sizes[i - 2 + 1];
      StepBackOfSizes(m, sizes, i);
    }
    NoTwoShareAPlace(m, s1, s2);
  }
}
