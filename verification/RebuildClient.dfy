/**
 * What clients find after a rebuild. The tool (src/utils/xpn_rebuild.c) places from server
 * 0 on; a client places from the first node of the file, which is the character sum of the
 * name modulo the number of servers (src/base/path_misc.c), and chooses it anew when the
 * rebuild has cleared the metadata (src/xpn_client/xpn/xpn_simple/xpncore/xpn_open.c).
 */
module RebuildClient {
  import opened ByteStrings
  import DivMod
  import opened Exchange
  import opened Rebuild
  import opened Striping

  /** The layout as a client uses it for a file with the given first node. */
  function From(l: Layout, first: int): (c: Layout)
    requires l.Valid() && 0 <= first
    ensures c.Valid()
  {
    l.(firstNode := first)
  }

  // ----- where the tool moves what a client has placed

  /** The copy that the tool takes the br-th block copy of a client to be. */
  function Turned(br: int, first: int, n: int): (t: int)
    requires 0 <= br && 0 <= first && 0 < n
    ensures 0 <= t
  {
    Weighted(br / n, n, (br + first) % n)
  }

  /** The tool moves it to where a client with the new first node looks for it. */
  predicate CopyFound(n: int, f: int, n2: int, f2: int, br: int)
    requires 0 < n && 0 < n2 && 0 <= f && 0 <= f2 && 0 <= br
  {
    var t := Turned(br, f, n);
    t % n2 == (br + f2) % n2 && t / n2 == br / n2
  }

  lemma SameLine(a: int, b: int, bs: int, x: int)
    requires 0 <= a && 0 <= b && 0 <= x < bs
    ensures Weighted(a, bs, x) == Weighted(b, bs, x) <==> a == b
  {
    assert Weighted(a, bs, x) / bs == a && Weighted(b, bs, x) / bs == b;
  }

  lemma CopyFoundExactlyIf(from: Layout, to: Layout, f: int, f2: int, br: int, x: int)
    requires Compatible(from, to) && from.firstNode == to.firstNode == 0
    requires 0 <= f && 0 <= f2 && 0 <= br && 0 <= x < from.blockSize
    ensures ValidPlace(from, PlaceOf(From(from, f), br, x))
    ensures Move(from, to, PlaceOf(From(from, f), br, x)) == PlaceOf(From(to, f2), br, x)
       <==> CopyFound(from.nserv, f, to.nserv, f2, br)
  {
    var t := Turned(br, f, from.nserv);
    assert PlaceOf(From(from, f), br, x) == PlaceOf(from, t, x);
    InvertOfPlace(from, t, x);
    CalculateOfSource(to, t, x);
    assert SourceOf(from, t, x) == SourceOf(to, t, x);
    SameLine(t / to.nserv, br / to.nserv, from.blockSize, x);
  }

  // ----- for all copies of a file

  /**
   * The first nodes agree, and the file begins on server 0, or the number of servers is
   * the same, or the copies do not go beyond the servers that both have.
   */
  predicate InStep(n: int, f: int, n2: int, f2: int, copies: int) {
    f == f2 && (f == 0 || n == n2 || copies <= (if n < n2 then n else n2) - f)
  }

  predicate AllFound(n: int, f: int, n2: int, f2: int, copies: int)
    requires 0 < n && 0 < n2 && 0 <= f && 0 <= f2
  {
    forall br :: 0 <= br < copies ==> CopyFound(n, f, n2, f2, br)
  }

  lemma InStepFinds(n: int, f: int, n2: int, f2: int, copies: int, br: int)
    requires 0 <= f < n && 0 <= f2 < n2 && InStep(n, f, n2, f2, copies) && 0 <= br < copies
    ensures CopyFound(n, f, n2, f2, br)
  {
    var t := Turned(br, f, n);
    DivMod.Bounds(br, n);
    if f == 0 {
      assert t == br;
    } else if n != n2 {
      DivMod.Unique(br + f, n, 0, br + f);
      DivMod.Unique(br, n, 0, br);
      DivMod.Unique(br, n2, 0, br);
      DivMod.Unique(br + f, n2, 0, br + f);
    }
  }

  lemma FirstCopyNeeds(n: int, f: int, n2: int, f2: int)
    requires 0 <= f < n && 0 <= f2 < n2 && CopyFound(n, f, n2, f2, 0)
    ensures f == f2
  {
    DivMod.Unique(0, n, 0, 0);
    DivMod.Unique(f, n, 0, f);
    DivMod.Unique(0, n2, 0, 0);
    DivMod.Unique(f2, n2, 0, f2);
    DivMod.Bounds(f, n2);
  }

  /** The first copy that goes beyond the servers both have is not found. */
  lemma NextRoundNotFound(n: int, f: int, n2: int)
    requires 0 < f < n && f < n2 && n != n2
    ensures !CopyFound(n, f, n2, f, (if n < n2 then n else n2) - f)
  {
    if n < n2 {
      var br := n - f;
      DivMod.Unique(br, n, 0, br);
      DivMod.Unique(n, n, 1, 0);
      DivMod.Unique(n, n2, 0, n);
      DivMod.Unique(0, n2, 0, 0);
      assert Turned(br, f, n) == 0;
    } else {
      var br := n2 - f;
      DivMod.Unique(br, n, 0, br);
      DivMod.Unique(n2, n, 0, n2);
      DivMod.Unique(n2, n2, 1, 0);
      DivMod.Unique(br, n2, 0, br);
      assert Turned(br, f, n) == n2;
    }
  }

  lemma AllFoundExactlyIf(n: int, f: int, n2: int, f2: int, copies: int)
    requires 0 <= f < n && 0 <= f2 < n2 && 0 < copies
    ensures AllFound(n, f, n2, f2, copies) <==> InStep(n, f, n2, f2, copies)
  {
    if InStep(n, f, n2, f2, copies) {
      forall br | 0 <= br < copies ensures CopyFound(n, f, n2, f2, br) {
        InStepFinds(n, f, n2, f2, copies, br);
      }
    } else if CopyFound(n, f, n2, f2, 0) {
      FirstCopyNeeds(n, f, n2, f2);
      NextRoundNotFound(n, f, n2);
      assert !CopyFound(n, f, n2, f, (if n < n2 then n else n2) - f);
    }
  }

  // ----- what the clients read

  /** A byte of some copy of a file of the given size. */
  predicate InFile(l: Layout, fileSize: int, s: Source) {
    ValidSource(l, s) && s.offset < fileSize
  }

  /** The block copies of a file. */
  function Copies(l: Layout, fileSize: int): int
    requires l.Valid()
  {
    ((fileSize + l.blockSize - 1) / l.blockSize) * (l.replicationLevel + 1)
  }

  /** A byte of a copy as a client of the old servers finds it, with the file's first node. */
  function OldByte(j: Job, f: int, s: Source): Found
    requires j.Valid() && 0 <= f && ValidSource(j.from, s)
  {
    OldAt(j, CalculateBlock(From(j.from, f), s))
  }

  /** And as a client of the new servers finds it. */
  function NewByte(j: Job, dest: seq<File>, f2: int, s: Source): Found
    requires j.Valid() && 0 <= f2 && ValidSource(j.to, s) && |dest| == j.Size()
  {
    NewAt(j, dest, CalculateBlock(From(j.to, f2), s))
  }

  /** The old servers hold the whole file, in all copies. */
  ghost predicate HoldsFile(j: Job, f: int, fileSize: int)
    requires j.Valid() && 0 <= f
  {
    forall s :: InFile(j.from, fileSize, s) ==> OldByte(j, f, s).Byte?
  }

  ghost predicate ClientsAgree(j: Job, dest: seq<File>, f: int, f2: int, fileSize: int)
    requires j.Valid() && 0 <= f && 0 <= f2 && |dest| == j.Size()
  {
    forall s :: InFile(j.from, fileSize, s) ==> NewByte(j, dest, f2, s) == OldByte(j, f, s)
  }

  /** The number of the block copy a byte is in. */
  function CopyNumber(l: Layout, s: Source): (br: int)
    requires l.Valid() && ValidSource(l, s)
    ensures 0 <= br
  {
    Weighted(s.offset / l.blockSize, l.replicationLevel + 1, s.replication)
  }

  lemma CopyInFile(l: Layout, fileSize: int, s: Source)
    requires l.Valid() && InFile(l, fileSize, s)
    ensures CopyNumber(l, s) < Copies(l, fileSize)
  {
    var c, blocks := l.replicationLevel + 1, (fileSize + l.blockSize - 1) / l.blockSize;
    assert fileSize + l.blockSize - 1 >= s.offset + l.blockSize;
    DivMod.Monotone(s.offset + l.blockSize, fileSize + l.blockSize - 1, l.blockSize);
    DivMod.Unique(s.offset + l.blockSize, l.blockSize, s.offset / l.blockSize + 1, s.offset % l.blockSize);
    var b := s.offset / l.blockSize;
    assert (b + 1) * c == b * c + c;
    assert (blocks - (b + 1)) * c == blocks * c - (b + 1) * c;
    assert 0 <= (blocks - (b + 1)) * c;
  }

  /** Block copy br has a byte in the file. */
  lemma ByteOfCopy(l: Layout, fileSize: int, br: int) returns (s: Source)
    requires l.Valid() && 0 < fileSize && 0 <= br < Copies(l, fileSize)
    ensures InFile(l, fileSize, s) && CopyNumber(l, s) == br
  {
    var c, blocks := l.replicationLevel + 1, (fileSize + l.blockSize - 1) / l.blockSize;
    s := SourceOf(l, br, 0);
    Reassemble(br, c);
    BelowProduct(br / c, blocks, c, br);
    BlockBegins(br / c, l.blockSize, fileSize);
  }

  lemma BelowProduct(b: int, blocks: int, c: int, br: int)
    requires 0 < c && 0 <= br < blocks * c && b == br / c
    ensures b < blocks
  {
    assert (b - blocks) * c == b * c - blocks * c;
    if b >= blocks { DivMod.MulAtMostZero(blocks - b, c); }
  }

  lemma BlockBegins(b: int, bs: int, fileSize: int)
    requires 0 < bs && 0 < fileSize && 0 <= b < (fileSize + bs - 1) / bs
    ensures Weighted(b, bs, 0) < fileSize
  {
    var blocks := (fileSize + bs - 1) / bs;
    DivMod.Bounds(fileSize + bs - 1, bs);
    assert (b + 1 - blocks) * bs == b * bs + bs - blocks * bs;
    DivMod.MulAtMostZero(b + 1 - blocks, bs);
  }

  // ----- the rebuild as clients see it

  lemma ByteIsFound(j: Job, dest: seq<File>, f: int, f2: int, s: Source)
    requires j.Valid() && IsCopy(j, dest) && 0 <= f && 0 <= f2 && ValidSource(j.from, s)
    requires CopyFound(j.from.nserv, f, j.to.nserv, f2, CopyNumber(j.from, s))
    ensures NewByte(j, dest, f2, s) == OldByte(j, f, s)
  {
    CopyFoundExactlyIf(j.from, j.to, f, f2, CopyNumber(j.from, s), s.offset % j.from.blockSize);
    EveryByteIsMoved(j, dest, CalculateBlock(From(j.from, f), s));
  }

  /** In step, a client of the new servers finds of the file what a client of the old ones found. */
  lemma RebuildKeepsTheFile(j: Job, dest: seq<File>, f: int, f2: int, fileSize: int)
    requires j.Valid() && IsCopy(j, dest) && 0 <= f < j.from.nserv && 0 <= f2 < j.to.nserv
    requires InStep(j.from.nserv, f, j.to.nserv, f2, Copies(j.from, fileSize))
    ensures ClientsAgree(j, dest, f, f2, fileSize)
  {
    forall s | InFile(j.from, fileSize, s) ensures NewByte(j, dest, f2, s) == OldByte(j, f, s) {
      CopyInFile(j.from, fileSize, s);
      InStepFinds(j.from.nserv, f, j.to.nserv, f2, Copies(j.from, fileSize), CopyNumber(j.from, s));
      ByteIsFound(j, dest, f, f2, s);
    }
  }

  /** Servers with room for every copy, all zero but for the byte at one place. */
  function OneByte(ps: Processes, size: nat, p: Place): (src: seq<Bytes>)
    ensures |src| == |ps.actualToOld|
    ensures forall a :: 0 <= a < |src| ==> |src[a]| == size
    ensures forall a, o :: 0 <= a < |src| && 0 <= o < size ==>
      src[a][o] == if ps.actualToOld[a] == p.serv && o == p.localOffset then 1 else 0
  {
    seq(|ps.actualToOld|, a requires 0 <= a < |ps.actualToOld| =>
      seq(size, o => if ps.actualToOld[a] == p.serv && o == p.localOffset then 1 else 0))
  }

  lemma OneByteAt(j: Job, size: nat, p: Place, q: Place)
    requires j.Valid() && j.src == OneByte(j.ps, size, p) && ValidPlace(j.from, p) && ValidPlace(j.from, q)
    requires p.localOffset < size
    ensures OldAt(j, p) == Byte(1)
    ensures q != p ==> OldAt(j, q) != Byte(1)
    ensures q.localOffset < size ==> OldAt(j, q).Byte?
  {
    assert j.ps.actualToOld[j.ps.oldToActual[p.serv]] == p.serv;
    assert j.ps.actualToOld[j.ps.oldToActual[q.serv]] == q.serv;
  }

  /** No server needs more room for a copy than all the copies together take. */
  lemma RoomEnough(l: Layout, f: int, fileSize: int, s: Source)
    requires l.Valid() && 0 <= f && InFile(l, fileSize, s)
    ensures 0 <= CalculateBlock(From(l, f), s).localOffset < Copies(l, fileSize) * l.blockSize
  {
    var br, x := CopyNumber(l, s), s.offset % l.blockSize;
    CopyInFile(l, fileSize, s);
    DivMod.Bounds(br, l.nserv);
    QuotientAtMost(br, l.nserv);
    LineFits(br / l.nserv, Copies(l, fileSize), l.blockSize, x);
  }

  lemma LineFits(q: int, lines: int, bs: int, x: int)
    requires 0 <= q < lines && 0 <= x < bs
    ensures Weighted(q, bs, x) < lines * bs
  {
    DivMod.MulAtLeast(lines - q, bs);
    assert (lines - q) * bs == lines * bs - q * bs;
  }

  lemma QuotientAtMost(a: int, n: int)
    requires 0 <= a && 0 < n
    ensures a / n <= a
  {
    DivMod.Bounds(a, n);
    DivMod.MulAtLeast(n, a / n);
  }

  /** Out of step, some file is wholly on the old servers and not found as it was by clients of the new ones. */
  lemma SomeFileIsLost(from: Layout, to: Layout, ps: Processes, f: int, f2: int, fileSize: int)
    returns (j: Job, dest: seq<File>)
    requires Compatible(from, to) && from.firstNode == to.firstNode == 0 && ps.Valid(from.nserv, to.nserv)
    requires 0 <= f < from.nserv && 0 <= f2 < to.nserv && 0 < fileSize
    requires !InStep(from.nserv, f, to.nserv, f2, Copies(from, fileSize))
    ensures j.from == from && j.to == to && j.ps == ps && j.Valid() && HoldsFile(j, f, fileSize) && IsCopy(j, dest)
    ensures !ClientsAgree(j, dest, f, f2, fileSize)
  {
    var copies := Copies(from, fileSize);
    SomeCopies(from, fileSize);
    AllFoundExactlyIf(from.nserv, f, to.nserv, f2, copies);
    var br :| 0 <= br < copies && !CopyFound(from.nserv, f, to.nserv, f2, br);
    var s := ByteOfCopy(from, fileSize, br);
    var p, q := CalculateBlock(From(from, f), s), CalculateBlock(From(to, f2), s);
    CopyFoundExactlyIf(from, to, f, f2, br, s.offset % from.blockSize);
    RoomEnough(from, f, fileSize, s);
    j := Job(from, to, ps, OneByte(ps, copies * from.blockSize, p));
    forall t | InFile(from, fileSize, t) ensures OldByte(j, f, t).Byte? {
      RoomEnough(from, f, fileSize, t);
      OneByteAt(j, copies * from.blockSize, p, CalculateBlock(From(from, f), t));
    }
    dest := CopyExists(j);
    MoveBack(to, from, q);
    PlaceHoldsOrigin(j, dest, q);
    OneByteAt(j, copies * from.blockSize, p, Move(to, from, q));
    assert NewByte(j, dest, f2, s) != OldByte(j, f, s);
  }

  lemma SomeCopies(l: Layout, fileSize: int)
    requires l.Valid() && 0 < fileSize
    ensures 0 < Copies(l, fileSize)
  {
    DivMod.Monotone(l.blockSize, fileSize + l.blockSize - 1, l.blockSize);
    DivMod.Unique(l.blockSize, l.blockSize, 1, 0);
    var blocks := (fileSize + l.blockSize - 1) / l.blockSize;
    DivMod.MulAtLeast(blocks, l.replicationLevel + 1);
  }

  /** Whatever a file of this size holds, clients of the new servers find it as it was. */
  ghost predicate EveryFileIsKept(from: Layout, to: Layout, ps: Processes, f: int, f2: int, fileSize: int)
    requires 0 <= f && 0 <= f2
  {
    forall j: Job, dest ::
      j.from == from && j.to == to && j.ps == ps && j.Valid() && HoldsFile(j, f, fileSize) && IsCopy(j, dest) ==>
        ClientsAgree(j, dest, f, f2, fileSize)
  }

  /**
   * A rebuild keeps every file of a size exactly if its first nodes agree, and it begins
   * on server 0, or the number of servers stays the same, or all its block copies fit
   * between its first node and the end of the shorter list of servers.
   */
  lemma RebuildKeepsTheFileExactlyIf(from: Layout, to: Layout, ps: Processes, f: int, f2: int, fileSize: int)
    requires Compatible(from, to) && from.firstNode == to.firstNode == 0 && ps.Valid(from.nserv, to.nserv)
    requires 0 <= f < from.nserv && 0 <= f2 < to.nserv && 0 < fileSize
    ensures EveryFileIsKept(from, to, ps, f, f2, fileSize)
       <==> InStep(from.nserv, f, to.nserv, f2, Copies(from, fileSize))
  {
    if InStep(from.nserv, f, to.nserv, f2, Copies(from, fileSize)) {
      forall j: Job, dest | j.from == from && j.to == to && j.ps == ps && j.Valid()
                            && HoldsFile(j, f, fileSize) && IsCopy(j, dest)
        ensures ClientsAgree(j, dest, f, f2, fileSize)
      {
        RebuildKeepsTheFile(j, dest, f, f2, fileSize);
      }
    } else {
      var j, dest := SomeFileIsLost(from, to, ps, f, f2, fileSize);
    }
  }

  // ----- with the first nodes that clients choose

  /** The first node of a file whose name has the given character sum. */
  function Hash(sum: nat, nserv: int): (first: int)
    requires 0 < nserv
    ensures 0 <= first < nserv
  {
    sum % nserv
  }

  /** The same for a file by its name: the character sum decides both first nodes. */
  lemma NamedFileIsKeptExactlyIf(from: Layout, to: Layout, ps: Processes, sum: nat, fileSize: int)
    requires Compatible(from, to) && from.firstNode == to.firstNode == 0 && ps.Valid(from.nserv, to.nserv) && 0 < fileSize
    ensures var n, n2 := from.nserv, to.nserv;
      var f := Hash(sum, n);
      EveryFileIsKept(from, to, ps, f, Hash(sum, n2), fileSize)
      <==> sum % n == sum % n2 && (sum % n == 0 || n == n2 || Copies(from, fileSize) <= (if n < n2 then n else n2) - f)
  {
    RebuildKeepsTheFileExactlyIf(from, to, ps, Hash(sum, from.nserv), Hash(sum, to.nserv), fileSize);
  }

  /** One block of a file named "b", without replicas, is lost when two servers become three. */
  lemma FileNamedB(bs: int, ps: Processes, fileSize: int)
    requires 0 < fileSize <= bs && ps.Valid(2, 3)
    ensures !EveryFileIsKept(Layout(bs, 0, 2, 0), Layout(bs, 0, 3, 0), ps, Hash('b' as int, 2), Hash('b' as int, 3), fileSize)
  {
    assert 'b' as int == 98;
    NamedFileIsKeptExactlyIf(Layout(bs, 0, 2, 0), Layout(bs, 0, 3, 0), ps, 98, fileSize);
  }

  // ----- through the file system

  /** A byte as the file system gives it: a hole in front of a byte written reads as zero. */
  function ReadThrough(f: File, x: int): Found {
    if x in f then Byte(f[x]) else if exists y :: y in f && x < y then Byte(0) else Missing
  }

  /**
   * In step, a client of the new servers that reads through the file system finds what it
   * found on the old ones, save that zeros can stand where the old server had nothing.
   */
  lemma ReadsAfterRebuild(j: Job, dest: seq<File>, f: int, f2: int, fileSize: int, s: Source)
    requires j.Valid() && IsCopy(j, dest) && 0 <= f < j.from.nserv && 0 <= f2 < j.to.nserv
    requires InStep(j.from.nserv, f, j.to.nserv, f2, Copies(j.from, fileSize)) && InFile(j.from, fileSize, s)
    ensures var q := CalculateBlock(From(j.to, f2), s);
      var found := ReadThrough(dest[j.ps.newToActual[q.serv]], q.localOffset);
      && (OldByte(j, f, s).Byte? ==> found == OldByte(j, f, s))
      && (OldByte(j, f, s).Missing? ==> found.Missing? || found == Byte(0))
  {
    RebuildKeepsTheFile(j, dest, f, f2, fileSize);
    assert NewByte(j, dest, f2, s) == OldByte(j, f, s);
  }
}
