/**
 * Where the RAID-5 layouts of src/base/math_misc.c put data and parity blocks:
 * with the parity between the data blocks, and with the parity in an area of its own.
 */
module Raid5Layout {
  import DivMod

  /** Result of a locate function: (SP, IP) and (SD, ID), or why there is none. */
  datatype Located = Located(sp: int, ip: int, sd: int, id: int) | Rejected | DivisionByZero

  function LocateInternal(i: int, m: int): Located {
    if i < 0 || m < 2 then Rejected
    else
      var aux1, aux2 := i / (m - 1), i % (m - 1);
      var sp := (m - 1) - aux1 % m;
      var reorder := if sp <= aux2 then 1 else 0;
      Located(sp, aux1, aux2 + reorder, aux1)
  }

  function LocateExternal(i: int, m: int): Located {
    if i < 0 || m < 0 || m == 0 then Rejected
    else if m == 1 then DivisionByZero
    else
      var aux1 := i / (m - 1);
      Located((m - 1) - aux1 % m, aux1 / m, i % m, i / m)
  }

  datatype Kind = Internal | External

  /** A block of a server: in the external layout parity has its own area. */
  datatype Cell = Cell(parityArea: bool, server: int, index: int)

  /** What a cell holds: a data block, or the parity of a stripe of m-1 data blocks. */
  datatype Owner = Block(i: int) | Parity(stripe: int)

  function Locate(kind: Kind, i: int, m: int): Located {
    match kind case Internal => LocateInternal(i, m) case External => LocateExternal(i, m)
  }

  function DataCell(kind: Kind, i: int, m: int): Cell
    requires 0 <= i && 2 <= m
  {
    var l := Locate(kind, i, m);
    Cell(false, l.sd, l.id)
  }

  /** The parity cell of the stripe of block i. */
  function ParityCell(kind: Kind, i: int, m: int): Cell
    requires 0 <= i && 2 <= m
  {
    var l := Locate(kind, i, m);
    Cell(kind.External?, l.sp, l.ip)
  }

  /** Block j of stripe k. */
  function BlockAt(k: int, j: int, m: int): (i: int)
    requires 2 <= m && 0 <= k && 0 <= j
    ensures 0 <= i
  {
    assert 0 <= k * (m - 1);
    k * (m - 1) + j
  }

  function CellOf(kind: Kind, o: Owner, m: int): Cell
    requires 2 <= m && 0 <= if o.Block? then o.i else o.stripe
  {
    match o
    case Block(i) => DataCell(kind, i, m)
    case Parity(k) => ParityCell(kind, BlockAt(k, 0, m), m)
  }

  function ParityServer(k: int, m: int): int
    requires 2 <= m
  {
    m - 1 - k % m
  }

  /** The position of server s among the data blocks of stripe k. */
  function Position(kind: Kind, k: int, s: int, m: int): int
    requires 2 <= m
  {
    match kind
    case Internal => if s > ParityServer(k, m) then s - 1 else s
    case External => (s + k) % m
  }

  /** The holder of a cell, computed from the cell alone. */
  function OwnerOf(kind: Kind, c: Cell, m: int): Owner
    requires 2 <= m
  {
    match kind
    case Internal =>
      if c.server == ParityServer(c.index, m) then Parity(c.index)
      else Block(c.index * (m - 1) + Position(Internal, c.index, c.server, m))
    case External =>
      if c.parityArea then Parity(c.index * m + (m - 1 - c.server))
      else Block(c.index * m + c.server)
  }

  predicate ValidCell(kind: Kind, c: Cell, m: int) {
    0 <= c.server < m && 0 <= c.index && (kind.Internal? ==> !c.parityArea)
  }

  /** Locating never fails on valid arguments, and refuses the others; one server faults in the external layout only. */
  lemma LocateOutcome(i: int, m: int)
    ensures LocateInternal(i, m).Located? <==> 0 <= i && 2 <= m
    ensures LocateInternal(i, m).Rejected? <==> i < 0 || m < 2
    ensures LocateExternal(i, m).Located? <==> 0 <= i && 2 <= m
    ensures LocateExternal(i, m).Rejected? <==> i < 0 || m <= 0
    ensures LocateExternal(i, m).DivisionByZero? <==> 0 <= i && m == 1
  {
  }

  /** Block 0 is on server 0 and its parity on the last one; then the parity moves left by one server a stripe. */
  lemma ParityMovesLeft(kind: Kind, i: int, m: int)
    requires 0 <= i && 2 <= m
    ensures Locate(kind, 0, m) == Located(m - 1, 0, 0, 0)
    ensures var l, n := Locate(kind, i, m), Locate(kind, i + 1, m);
      if (i + 1) % (m - 1) != 0 then n.sp == l.sp && n.ip == l.ip
      else
        && n.sp == (if l.sp == 0 then m - 1 else l.sp - 1)
        && n.ip == if kind.Internal? || n.sp == m - 1 then l.ip + 1 else l.ip
  {
    DivMod.Unique(0, m - 1, 0, 0);
    DivMod.Unique(0, m, 0, 0);
    DivMod.Successor(i, m - 1);
    DivMod.Bounds(i, m - 1);
    DivMod.Successor(i / (m - 1), m);
  }

  /**
   * With the parity inside, the blocks of a stripe take the servers in ascending order,
   * without that of the parity; outside, blocks take the servers round robin.
   */
  lemma DataInOrder(kind: Kind, i: int, m: int)
    requires 0 <= i && 2 <= m
    ensures var l, n := Locate(kind, i, m), Locate(kind, i + 1, m);
      match kind
      case Internal =>
        if (i + 1) % (m - 1) != 0 then n.id == l.id && n.sd == if l.sd + 1 == l.sp then l.sd + 2 else l.sd + 1
        else n.id == l.id + 1 && n.sd == if n.sp == 0 then 1 else 0
      case External =>
        if l.sd + 1 == m then n.id == l.id + 1 && n.sd == 0 else n.id == l.id && n.sd == l.sd + 1
  {
    DivMod.Successor(i, m - 1);
    DivMod.Successor(i, m);
  }

  /** The stripe of a block and its position there. */
  lemma StripeOfBlock(k: int, j: int, m: int)
    requires 2 <= m && 0 <= k && 0 <= j < m - 1
    ensures 0 <= k * (m - 1) + j
    ensures (k * (m - 1) + j) / (m - 1) == k && (k * (m - 1) + j) % (m - 1) == j
  {
    assert 0 <= k * (m - 1);
    DivMod.Unique(k * (m - 1) + j, m - 1, k, j);
  }

  /** Modulo m the first block of stripe k is -k: the data goes round against the stripes. */
  lemma ExternalServer(k: int, j: int, m: int)
    requires 2 <= m
    ensures (k * (m - 1) + j) % m == (j - k) % m
  {
    assert k * (m - 1) + j == (j - k) + k * m;
    DivMod.AddTurns(j - k, k, m);
  }

  lemma ExternalTurn(k: int, j: int, m: int)
    requires 2 <= m && 0 <= j < m
    ensures ((j - k) % m + k) % m == j
  {
    var q := (j - k) / m;
    assert (j - k) % m + k == j + (-q) * m;
    DivMod.AddTurns(j, -q, m);
    DivMod.Unique(j, m, 0, j);
  }

  lemma ExternalTurnBack(k: int, s: int, m: int)
    requires 2 <= m && 0 <= s < m
    ensures ((s + k) % m - k) % m == s
  {
    var q := (s + k) / m;
    assert (s + k) % m - k == s + (-q) * m;
    DivMod.AddTurns(s, -q, m);
    DivMod.Unique(s, m, 0, s);
  }

  lemma ParityTurn(k: int, m: int)
    requires 2 <= m && 0 <= k
    ensures (m - 1 - k) % m == ParityServer(k, m)
    ensures (ParityServer(k, m) + k) % m == m - 1
  {
    assert m - 1 - k == (-(k / m)) * m + ParityServer(k, m);
    DivMod.Unique(m - 1 - k, m, -(k / m), ParityServer(k, m));
    assert ParityServer(k, m) + k == (k / m) * m + (m - 1);
    DivMod.Unique(ParityServer(k, m) + k, m, k / m, m - 1);
  }

  /** A server other than the parity server has one of the m-1 data positions of the stripe. */
  lemma PositionInRange(kind: Kind, k: int, s: int, m: int)
    requires 2 <= m && 0 <= k && 0 <= s < m && s != ParityServer(k, m)
    ensures 0 <= Position(kind, k, s, m) < m - 1
  {
    if kind.External? && (s + k) % m == m - 1 {
      ExternalTurnBack(k, s, m);
      ParityTurn(k, m);
    }
  }

  lemma LocateStripe(kind: Kind, k: int, j: int, m: int)
    requires 2 <= m && 0 <= k && 0 <= j < m - 1
    ensures var l := Locate(kind, BlockAt(k, j, m), m);
      && l.sp == ParityServer(k, m)
      && l.ip == (if kind.Internal? then k else k / m)
      && l.sd == (match kind case Internal => if l.sp <= j then j + 1 else j case External => (j - k) % m)
      && l.id == (if kind.Internal? then k else BlockAt(k, j, m) / m)
  {
    StripeOfBlock(k, j, m);
    ExternalServer(k, j, m);
  }

  /** Every data block of a stripe is away from the parity server, at its own position. */
  lemma DataServer(kind: Kind, k: int, j: int, m: int)
    requires 2 <= m && 0 <= k && 0 <= j < m - 1
    ensures var s := Locate(kind, BlockAt(k, j, m), m).sd;
      0 <= s < m && s != ParityServer(k, m) && Position(kind, k, s, m) == j
  {
    LocateStripe(kind, k, j, m);
    if kind.External? {
      ExternalTurn(k, j, m);
      ParityTurn(k, m);
    }
  }

  /** The block at the position of s is located on s. */
  lemma ServerOfPosition(kind: Kind, k: int, s: int, m: int)
    requires 2 <= m && 0 <= k && 0 <= s < m && s != ParityServer(k, m)
    ensures 0 <= Position(kind, k, s, m) < m - 1
    ensures Locate(kind, BlockAt(k, Position(kind, k, s, m), m), m).sd == s
  {
    PositionInRange(kind, k, s, m);
    LocateStripe(kind, k, Position(kind, k, s, m), m);
    if kind.External? { ExternalTurnBack(k, s, m); }
  }

  /** The m-1 data blocks and the parity block of a stripe are on m distinct servers. */
  lemma StripeUsesEveryServer(kind: Kind, k: int, m: int)
    requires 2 <= m && 0 <= k
    ensures forall j1, j2 :: 0 <= j1 < j2 < m - 1 ==>
      Locate(kind, BlockAt(k, j1, m), m).sd != Locate(kind, BlockAt(k, j2, m), m).sd
    ensures forall j :: 0 <= j < m - 1 ==>
      Locate(kind, BlockAt(k, j, m), m).sp == ParityServer(k, m) != Locate(kind, BlockAt(k, j, m), m).sd
  {
    forall j1, j2 | 0 <= j1 < j2 < m - 1
      ensures Locate(kind, BlockAt(k, j1, m), m).sd != Locate(kind, BlockAt(k, j2, m), m).sd
    {
      DataServer(kind, k, j1, m);
      DataServer(kind, k, j2, m);
    }
    forall j | 0 <= j < m - 1
      ensures Locate(kind, BlockAt(k, j, m), m).sp == ParityServer(k, m) != Locate(kind, BlockAt(k, j, m), m).sd
    {
      LocateStripe(kind, k, j, m);
      DataServer(kind, k, j, m);
    }
  }

  /** From a block or stripe to its cell and back. */
  lemma OwnerOfCellOf(kind: Kind, o: Owner, m: int)
    requires 2 <= m && 0 <= if o.Block? then o.i else o.stripe
    ensures ValidCell(kind, CellOf(kind, o, m), m)
    ensures OwnerOf(kind, CellOf(kind, o, m), m) == o
  {
    match o
    case Block(i) =>
      var k, j := i / (m - 1), i % (m - 1);
      DivMod.Bounds(i, m - 1);
      assert i == k * (m - 1) + j;
      LocateStripe(kind, k, j, m);
      DataServer(kind, k, j, m);
      if kind.External? { DivMod.Bounds(i, m); }
    case Parity(k) =>
      LocateStripe(kind, k, 0, m);
      if kind.External? { DivMod.Bounds(k, m); }
  }

  /** From a cell to its holder and back: no cell is left unused and none is shared. */
  lemma CellOfOwnerOf(kind: Kind, c: Cell, m: int)
    requires 2 <= m && ValidCell(kind, c, m)
    ensures var o := OwnerOf(kind, c, m);
      && 0 <= (if o.Block? then o.i else o.stripe)
      && CellOf(kind, o, m) == c
  {
    match kind
    case Internal =>
      LocateStripe(kind, c.index, 0, m);
      if c.server != ParityServer(c.index, m) {
        PositionInRange(kind, c.index, c.server, m);
        LocateStripe(kind, c.index, Position(kind, c.index, c.server, m), m);
      }
    case External =>
      ExternalCell(c, m);
  }

  lemma ExternalCell(c: Cell, m: int)
    requires 2 <= m && ValidCell(External, c, m)
    ensures var o := OwnerOf(External, c, m);
      && 0 <= (if o.Block? then o.i else o.stripe)
      && CellOf(External, o, m) == c
  {
    assert 0 <= c.index * m;
    if c.parityArea {
      var k := c.index * m + (m - 1 - c.server);
      DivMod.Unique(k, m, c.index, m - 1 - c.server);
      LocateStripe(External, k, 0, m);
    } else {
      DivMod.Unique(c.index * m + c.server, m, c.index, c.server);
    }
  }

  /** Any m consecutive stripes put their parity on every server exactly once. */
  lemma ParityRotates(base: int, s: int, m: int)
    requires 2 <= m && 0 <= base && 0 <= s < m
    ensures exists k :: base <= k < base + m && ParityServer(k, m) == s
    ensures forall k1, k2 :: base <= k1 < k2 < base + m ==> ParityServer(k1, m) != ParityServer(k2, m)
  {
    var t := (m - 1 - s - base) % m;
    ExternalTurn(base, m - 1 - s, m);
    assert (base + t) % m == m - 1 - s;
    assert ParityServer(base + t, m) == s;
    forall k1, k2 | base <= k1 < k2 < base + m ensures ParityServer(k1, m) != ParityServer(k2, m) {
      ParityMoves(k1, k2, m);
    }
  }

  lemma ParityMoves(k1: int, k2: int, m: int)
    requires 2 <= m && k1 < k2 < k1 + m
    ensures ParityServer(k1, m) != ParityServer(k2, m)
  {
    if k1 % m == k2 % m {
      var d := k2 / m - k1 / m;
      assert d * m == k2 - k1;
      if d >= 1 { DivMod.MulAtLeast(d, m); } else { DivMod.MulAtMostZero(d, m); }
    }
  }
}
