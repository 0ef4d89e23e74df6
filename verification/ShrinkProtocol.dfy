/**
 * The data move of src/utils/xpn_shrink.c: leaving processes send their blocks in four
 * messages each, staying processes receive and write until one process tells them to
 * stop. A send completes only together with its receive (section 3.4 of MPI 3.1).
 */
module ShrinkProtocol {
  import opened ByteStrings

  /** A block on its way: the process to write it, the offset there, the bytes. */
  datatype Block = Block(dest: nat, offset: int, data: Bytes)

  /** Who reads, the blocks of each reader in order, and the table the stop loop looks at. */
  datatype Setup = Setup(isReader: seq<bool>, blocks: seq<seq<Block>>, trans: seq<int>) {
    ghost predicate Valid() {
      && |isReader| == |blocks| == |trans|
      && forall r, b :: 0 <= r < |blocks| && 0 <= b < |blocks[r]| ==> isReader[r] && blocks[r][b].dest < |isReader|
    }

    /** Every block goes to a process that stays. */
    ghost predicate SendsToWriters()
      requires Valid()
    {
      forall r, b :: 0 <= r < |blocks| && 0 <= b < |blocks[r]| ==> !isReader[blocks[r][b].dest]
    }

    /** The stop loop addresses the writers and nobody else. */
    predicate StopsRight() {
      |trans| == |isReader| && forall i :: 0 <= i < |trans| ==> (trans[i] == -1 <==> isReader[i])
    }
  }

  /**
   * A reader sends part 0..3 of a block (more follows, offset, size, bytes), waits at the
   * barrier, or sends stops; a writer waits for a part 0 from anybody, or for the next
   * part from one source; or the process has ended.
   */
  datatype Proc =
    | Sending(block: nat, part: nat)
    | AtBarrier
    | Stopping(next: nat)
    | Waiting
    | Taking(src: nat, part: nat, offset: int, size: nat)
    | Ended

  /** A write done: by which reader's which block, and what was written. */
  datatype Written = Written(src: nat, block: nat, offset: int, data: Bytes)

  datatype State = State(procs: seq<Proc>, logs: seq<seq<Written>>)

  datatype Step =
    | SendPart(r: nat, w: nat)
    | ReachBarrier(r: nat)
    | PassBarrier(r: nat)
    | SkipStop(r: nat)
    | SendStop(r: nat, w: nat)
    | EndStops(r: nat)

  /** The process that sends the stops: the first marked -1. */
  predicate IsMaster(u: Setup, r: nat) {
    r < |u.trans| && u.trans[r] == -1 && forall q :: 0 <= q < r ==> u.trans[q] != -1
  }

  ghost predicate Enabled(u: Setup, s: State, step: Step)
    requires u.Valid() && |s.procs| == |s.logs| == |u.isReader|
  {
    match step
    case SendPart(r, w) =>
      && r < |s.procs| && s.procs[r].Sending? && s.procs[r].block < |u.blocks[r]|
      && u.blocks[r][s.procs[r].block].dest == w
      && (if s.procs[r].part == 0 then s.procs[w].Waiting?
          else s.procs[w].Taking? && s.procs[w].src == r && s.procs[w].part == s.procs[r].part)
    case ReachBarrier(r) =>
      && r < |s.procs| && u.isReader[r] && s.procs[r].Sending? && s.procs[r].block == |u.blocks[r]|
    case PassBarrier(r) =>
      && r < |s.procs| && s.procs[r].AtBarrier?
      && forall q :: 0 <= q < |s.procs| ==> !s.procs[q].Sending?
    case SkipStop(r) =>
      && r < |s.procs| && s.procs[r].Stopping? && s.procs[r].next < |u.trans| && u.trans[s.procs[r].next] == -1
    case SendStop(r, w) =>
      && r < |s.procs| && s.procs[r].Stopping? && s.procs[r].next == w < |u.trans| && u.trans[w] != -1
      && s.procs[w].Waiting?
    case EndStops(r) => r < |s.procs| && s.procs[r].Stopping? && s.procs[r].next == |u.trans|
  }

  /** What the writer becomes on the next part from its source. */
  function Take(w: Proc, r: nat, blk: Block, part: nat): Proc {
    match part
    case 0 => Taking(r, 1, 0, 0)
    case 1 => Taking(r, 2, blk.offset, 0)
    case 2 => Taking(r, 3, if w.Taking? then w.offset else 0, |blk.data|)
    case _ => Waiting
  }

  ghost function Next(u: Setup, s: State, step: Step): State
    requires u.Valid() && |s.procs| == |s.logs| == |u.isReader| && Enabled(u, s, step)
  {
    match step
    case SendPart(r, w) =>
      var b, part := s.procs[r].block, s.procs[r].part;
      var blk := u.blocks[r][b];
      var procs := s.procs[r := if part < 3 then Sending(b, part + 1) else Sending(b + 1, 0)]
                          [w := Take(s.procs[w], r, blk, part)];
      if part < 3 then s.(procs := procs)
      else
        // the bytes are received and written at the offset received before
        State(procs, s.logs[w := s.logs[w] + [Written(r, b, s.procs[w].offset, blk.data)]])
    case ReachBarrier(r) => s.(procs := s.procs[r := AtBarrier])
    case PassBarrier(r) => s.(procs := s.procs[r := if IsMaster(u, r) then Stopping(0) else Ended])
    case SkipStop(r) => s.(procs := s.procs[r := Stopping(s.procs[r].next + 1)])
    case SendStop(r, w) => s.(procs := s.procs[r := Stopping(s.procs[r].next + 1)][w := Ended])
    case EndStops(r) => s.(procs := s.procs[r := Ended])
  }

  ghost predicate IsRun(u: Setup, s: State, steps: seq<Step>)
    requires u.Valid() && |s.procs| == |s.logs| == |u.isReader|
    decreases |steps|
  {
    steps == [] || (Enabled(u, s, steps[0]) && IsRun(u, Next(u, s, steps[0]), steps[1..]))
  }

  ghost function After(u: Setup, s: State, steps: seq<Step>): (e: State)
    requires u.Valid() && |s.procs| == |s.logs| == |u.isReader| && IsRun(u, s, steps)
    ensures |e.procs| == |e.logs| == |u.isReader|
    decreases |steps|
  {
    if steps == [] then s else After(u, Next(u, s, steps[0]), steps[1..])
  }

  function Start(u: Setup): State {
    State(seq(|u.isReader|, i requires 0 <= i < |u.isReader| => if u.isReader[i] then Sending(0, 0) else Waiting),
          seq(|u.isReader|, _ => []))
  }

  ghost predicate Finished(s: State) {
    forall i :: 0 <= i < |s.procs| ==> s.procs[i].Ended?
  }

  // ----- the invariant

  /** A writer in the middle of a block and its reader belong to each other. */
  ghost predicate Linked(u: Setup, s: State)
    requires u.Valid() && |s.procs| == |u.isReader|
  {
    && (forall w :: 0 <= w < |s.procs| && s.procs[w].Taking? ==> WriterLinked(u, s, w))
    && (forall r :: 0 <= r < |s.procs| && s.procs[r].Sending? ==> ReaderLinked(u, s, r))
  }

  ghost predicate WriterLinked(u: Setup, s: State, w: nat)
    requires u.Valid() && |s.procs| == |u.isReader| && w < |s.procs| && s.procs[w].Taking?
  {
    var r := s.procs[w].src;
    && r < |s.procs| && s.procs[r].Sending? && s.procs[r].block < |u.blocks[r]|
    && 1 <= s.procs[w].part <= 3 && s.procs[r].part == s.procs[w].part
    && u.blocks[r][s.procs[r].block].dest == w
    && (s.procs[w].part >= 2 ==> s.procs[w].offset == u.blocks[r][s.procs[r].block].offset)
    && (s.procs[w].part == 3 ==> s.procs[w].size == |u.blocks[r][s.procs[r].block].data|)
  }

  ghost predicate ReaderLinked(u: Setup, s: State, r: nat)
    requires u.Valid() && |s.procs| == |u.isReader| && r < |s.procs| && s.procs[r].Sending?
  {
    && s.procs[r].block <= |u.blocks[r]| && s.procs[r].part <= 3
    && (s.procs[r].part > 0 ==>
          && s.procs[r].block < |u.blocks[r]|
          && var w := u.blocks[r][s.procs[r].block].dest; s.procs[w].Taking? && s.procs[w].src == r)
  }

  ghost predicate Roles(u: Setup, s: State)
    requires u.Valid() && |s.procs| == |u.isReader|
  {
    && (forall i :: 0 <= i < |s.procs| ==>
          && (s.procs[i].Waiting? || s.procs[i].Taking? ==> !u.isReader[i])
          && (s.procs[i].Sending? || s.procs[i].AtBarrier? || s.procs[i].Stopping? ==> u.isReader[i])
          && (s.procs[i].Stopping? ==> IsMaster(u, i) && s.procs[i].next <= |u.trans|))
  }

  predicate OverBarrier(p: Proc) { p.Stopping? || p.Ended? }

  /** Nobody is over the barrier, and no writer stopped, while a block is still to be sent. */
  ghost predicate BarrierKept(u: Setup, s: State)
    requires u.Valid() && |s.procs| == |u.isReader|
  {
    forall i, q :: 0 <= i < |s.procs| && 0 <= q < |s.procs| && OverBarrier(s.procs[i]) ==> !s.procs[q].Sending?
  }

  /** How many blocks a reader has sent completely. */
  function Sent(u: Setup, s: State, r: nat): nat
    requires r < |s.procs| && r < |u.blocks|
  {
    if s.procs[r].Sending? then s.procs[r].block else |u.blocks[r]|
  }

  /** The logs hold exactly the blocks sent, each once, where they belong and unmixed. */
  ghost predicate LogsRight(u: Setup, s: State)
    requires u.Valid() && |s.procs| == |s.logs| == |u.isReader|
  {
    && (forall w, n :: 0 <= w < |s.logs| && 0 <= n < |s.logs[w]| ==> EntryRight(u, s, w, s.logs[w][n]))
    && (forall r: nat, b: nat :: r < |u.blocks| && b < Sent(u, s, r) && b < |u.blocks[r]| ==>
          var blk := u.blocks[r][b]; Written(r, b, blk.offset, blk.data) in s.logs[blk.dest])
    && (forall w, n, k :: 0 <= w < |s.logs| && 0 <= n < k < |s.logs[w]| ==> s.logs[w][n] != s.logs[w][k])
  }

  ghost predicate EntryRight(u: Setup, s: State, w: nat, e: Written)
    requires u.Valid() && |s.procs| == |u.isReader|
  {
    && e.src < |u.blocks| && e.block < |u.blocks[e.src]| && e.block < Sent(u, s, e.src)
    && u.blocks[e.src][e.block] == Block(w, e.offset, e.data)
  }

  ghost predicate Inv(u: Setup, s: State) {
    && u.Valid() && |s.procs| == |s.logs| == |u.isReader|
    && Linked(u, s) && Roles(u, s) && BarrierKept(u, s) && LogsRight(u, s)
  }

  lemma InitInv(u: Setup)
    requires u.Valid()
    ensures Inv(u, Start(u))
  {
  }

  lemma SendLinked(u: Setup, s: State, r: nat, w: nat)
    requires Inv(u, s) && Enabled(u, s, SendPart(r, w))
    ensures Linked(u, Next(u, s, SendPart(r, w)))
  {
    var n := Next(u, s, SendPart(r, w));
    assert ReaderLinked(u, s, r);
    if s.procs[r].part > 0 { assert WriterLinked(u, s, w); }
    forall v | 0 <= v < |n.procs| && n.procs[v].Taking? ensures WriterLinked(u, n, v) {
      if v != w { assert WriterLinked(u, s, v); }
    }
    forall q | 0 <= q < |n.procs| && n.procs[q].Sending? ensures ReaderLinked(u, n, q) {
      if q != r { assert ReaderLinked(u, s, q); }
    }
  }

  lemma SendOthers(u: Setup, s: State, r: nat, w: nat)
    requires Inv(u, s) && Enabled(u, s, SendPart(r, w))
    ensures Roles(u, Next(u, s, SendPart(r, w))) && BarrierKept(u, Next(u, s, SendPart(r, w)))
  {
    assert ReaderLinked(u, s, r);
  }

  /** The fourth part completes a block: exactly that block is added to the writer's log. */
  lemma SendLogs(u: Setup, s: State, r: nat, w: nat)
    requires Inv(u, s) && Enabled(u, s, SendPart(r, w))
    ensures LogsRight(u, Next(u, s, SendPart(r, w)))
  {
    assert ReaderLinked(u, s, r);
    var n := Next(u, s, SendPart(r, w));
    if s.procs[r].part == 3 {
      assert WriterLinked(u, s, w);
      LastPartLogs(u, s, r, w);
    } else {
      assert n.logs == s.logs;
      forall v, i | 0 <= v < |n.logs| && 0 <= i < |n.logs[v]| ensures EntryRight(u, n, v, n.logs[v][i]) {
        assert EntryRight(u, s, v, s.logs[v][i]);
      }
    }
  }

  lemma LastPartLogs(u: Setup, s: State, r: nat, w: nat)
    requires Inv(u, s) && Enabled(u, s, SendPart(r, w)) && s.procs[r].part == 3
    requires ReaderLinked(u, s, r) && WriterLinked(u, s, w)
    ensures LogsRight(u, Next(u, s, SendPart(r, w)))
  {
    var n := Next(u, s, SendPart(r, w));
    var b := s.procs[r].block;
    var blk := u.blocks[r][b];
    var e := Written(r, b, blk.offset, blk.data);
    assert n.logs == s.logs[w := s.logs[w] + [e]];
    forall v, i | 0 <= v < |n.logs| && 0 <= i < |n.logs[v]| ensures EntryRight(u, n, v, n.logs[v][i]) {
      if v != w || i < |s.logs[w]| { assert EntryRight(u, s, v, s.logs[v][i]); }
    }
    forall q: nat, c: nat | q < |u.blocks| && c < Sent(u, n, q) && c < |u.blocks[q]|
      ensures var k := u.blocks[q][c]; Written(q, c, k.offset, k.data) in n.logs[k.dest]
    {
      if q == r && c == b {
        assert n.logs[w][|s.logs[w]|] == e;
      } else {
        var k := u.blocks[q][c];
        assert c < Sent(u, s, q);
        assert Written(q, c, k.offset, k.data) in s.logs[k.dest];
        assert s.logs[k.dest] <= n.logs[k.dest];
      }
    }
    forall v, i, k | 0 <= v < |n.logs| && 0 <= i < k < |n.logs[v]| ensures n.logs[v][i] != n.logs[v][k] {
      if v == w && k == |s.logs[w]| { assert EntryRight(u, s, w, s.logs[w][i]); }
    }
  }

  /** A step of one process that sends nothing keeps links and logs. */
  lemma QuietKeepsLogs(u: Setup, s: State, n: State)
    requires Inv(u, s) && |n.procs| == |s.procs| && n.logs == s.logs
    requires forall r :: 0 <= r < |s.procs| ==> Sent(u, n, r) == Sent(u, s, r)
    ensures LogsRight(u, n)
  {
    forall v, i | 0 <= v < |n.logs| && 0 <= i < |n.logs[v]| ensures EntryRight(u, n, v, n.logs[v][i]) {
      assert EntryRight(u, s, v, s.logs[v][i]);
    }
  }

  lemma QuietKeepsLinks(u: Setup, s: State, n: State)
    requires Inv(u, s) && |n.procs| == |s.procs|
    requires forall i :: 0 <= i < |s.procs| && (n.procs[i].Sending? || n.procs[i].Taking?) ==> n.procs[i] == s.procs[i]
    requires forall i :: 0 <= i < |s.procs| && s.procs[i].Taking? ==> n.procs[i] == s.procs[i]
    requires forall i :: 0 <= i < |s.procs| && s.procs[i].Sending? ==>
      n.procs[i] == s.procs[i] || s.procs[i].block == |u.blocks[i]|
    ensures Linked(u, n)
  {
    forall w | 0 <= w < |n.procs| && n.procs[w].Taking? ensures WriterLinked(u, n, w) {
      assert WriterLinked(u, s, w);
    }
    forall r | 0 <= r < |n.procs| && n.procs[r].Sending? ensures ReaderLinked(u, n, r) {
      assert ReaderLinked(u, s, r);
    }
  }

  lemma ReachBarrierInv(u: Setup, s: State, r: nat)
    requires Inv(u, s) && Enabled(u, s, ReachBarrier(r))
    ensures Inv(u, Next(u, s, ReachBarrier(r)))
  {
    assert ReaderLinked(u, s, r);
    QuietKeepsLinks(u, s, Next(u, s, ReachBarrier(r)));
    QuietKeepsLogs(u, s, Next(u, s, ReachBarrier(r)));
  }

  lemma BeyondInv(u: Setup, s: State, step: Step)
    requires Inv(u, s) && Enabled(u, s, step) && !step.SendPart? && !step.ReachBarrier?
    ensures Inv(u, Next(u, s, step))
  {
    QuietKeepsLinks(u, s, Next(u, s, step));
    QuietKeepsLogs(u, s, Next(u, s, step));
  }

  /** Every step keeps the invariant. */
  lemma StepInv(u: Setup, s: State, step: Step)
    requires Inv(u, s) && Enabled(u, s, step)
    ensures Inv(u, Next(u, s, step))
  {
    match step
    case SendPart(r, w) =>
      SendLinked(u, s, r, w);
      SendOthers(u, s, r, w);
      SendLogs(u, s, r, w);
    case ReachBarrier(r) => ReachBarrierInv(u, s, r);
    case _ => BeyondInv(u, s, step);
  }
}
