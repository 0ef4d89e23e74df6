/**
 * The exchange of one round of src/utils/xpn_rebuild.c: every process walks the gathered
 * messages in index order and sends, receives and writes. A send completes only
 * together with its receive (synchronous mode, section 3.4 of MPI 3.1).
 */
module Exchange {
  import opened ByteStrings
  import opened Counting

  /** A destination file behind its header; offsets never written are absent. */
  type File = map<int, bv8>

  /** What a process tells all others about its block (rank_send, rank_recv, read_size, offset). */
  datatype Msg = Msg(rankSend: int, rankRecv: int, readSize: int, offset: int)

  /** A process that reads nothing announces -1 in every field. */
  const NoMsg := Msg(-1, -1, -1, -1)

  /** Message i comes from process i. */
  ghost predicate Gathered(msgs: seq<Msg>, bufs: seq<Bytes>) {
    && |bufs| == |msgs|
    && forall i :: 0 <= i < |msgs| && msgs[i] != NoMsg ==>
      && msgs[i].rankSend == i && 0 <= msgs[i].rankRecv < |msgs|
      && 0 <= msgs[i].readSize <= |bufs[i]|
  }

  function WriteAt(f: File, offset: int, data: Bytes): File {
    f + map x | offset <= x < offset + |data| :: ByteFor(offset, data, x)
  }

  function ByteFor(offset: int, data: Bytes, x: int): bv8
    requires offset <= x < offset + |data|
  {
    data[x - offset]
  }

  /** The file of process r after the first k messages. */
  function FileAfter(msgs: seq<Msg>, bufs: seq<Bytes>, r: int, k: nat, f: File): File
    requires Gathered(msgs, bufs) && k <= |msgs|
  {
    if k == 0 then f
    else
      var m := msgs[k - 1];
      var before := FileAfter(msgs, bufs, r, k - 1, f);
      if m != NoMsg && m.rankRecv == r then WriteAt(before, m.offset, bufs[k - 1][..m.readSize]) else before
  }

  /** Where a process is: before message i, or having received it and about to write. */
  datatype Pc = At(i: nat) | Received(i: nat, data: Bytes)

  datatype State = State(pcs: seq<Pc>, files: seq<File>)

  datatype Step =
    | Skip(r: nat)
    | WriteOwn(r: nat)
    | Transfer(sender: nat, receiver: nat)
    | WriteReceived(r: nat)

  predicate IsSender(m: Msg, r: nat) { m != NoMsg && m.rankSend == r && m.rankRecv != r }
  predicate IsReceiver(m: Msg, r: nat) { m != NoMsg && m.rankRecv == r && m.rankSend != r }
  predicate IsOwn(m: Msg, r: nat) { m != NoMsg && m.rankSend == r && m.rankRecv == r }

  predicate Before(s: State, r: nat, n: nat) {
    r < |s.pcs| && s.pcs[r].At? && s.pcs[r].i < n
  }

  ghost predicate Enabled(msgs: seq<Msg>, bufs: seq<Bytes>, s: State, step: Step)
    requires Gathered(msgs, bufs) && |s.pcs| == |s.files| == |msgs|
  {
    match step
    case Skip(r) =>
      && Before(s, r, |msgs|)
      && var m := msgs[s.pcs[r].i]; !IsSender(m, r) && !IsReceiver(m, r) && !IsOwn(m, r)
    case WriteOwn(r) => Before(s, r, |msgs|) && IsOwn(msgs[s.pcs[r].i], r)
    // the receive names its source and the send its destination, neither names the message
    case Transfer(a, b) =>
      && Before(s, a, |msgs|) && IsSender(msgs[s.pcs[a].i], a) && msgs[s.pcs[a].i].rankRecv == b
      && Before(s, b, |msgs|) && IsReceiver(msgs[s.pcs[b].i], b) && msgs[s.pcs[b].i].rankSend == a
    case WriteReceived(r) =>
      r < |s.pcs| && s.pcs[r].Received? && s.pcs[r].i < |msgs|
  }

  ghost function Next(msgs: seq<Msg>, bufs: seq<Bytes>, s: State, step: Step): State
    requires Gathered(msgs, bufs) && |s.pcs| == |s.files| == |msgs| && Enabled(msgs, bufs, s, step)
  {
    match step
    case Skip(r) => s.(pcs := s.pcs[r := At(s.pcs[r].i + 1)])
    case WriteOwn(r) =>
      var m := msgs[s.pcs[r].i];
      State(s.pcs[r := At(s.pcs[r].i + 1)],
            s.files[r := WriteAt(s.files[r], m.offset, bufs[r][..m.readSize])])
    case Transfer(a, b) =>
      s.(pcs := s.pcs[a := At(s.pcs[a].i + 1)]
                     [b := Received(s.pcs[b].i, bufs[a][..msgs[s.pcs[a].i].readSize])])
    case WriteReceived(r) =>
      State(s.pcs[r := At(s.pcs[r].i + 1)],
            s.files[r := WriteAt(s.files[r], msgs[s.pcs[r].i].offset, s.pcs[r].data)])
  }

  /**
   * No order is ruled out: a process before a message that is its own or none of its
   * business may go on, one that has received may write, and a message goes over whenever
   * both its sides are at it.
   */
  lemma AnyOrderIsARun(msgs: seq<Msg>, bufs: seq<Bytes>, s: State, r: nat)
    requires Gathered(msgs, bufs) && |s.pcs| == |s.files| == |msgs| && r < |s.pcs| && s.pcs[r].i < |msgs|
    ensures var m := msgs[s.pcs[r].i];
      if s.pcs[r].Received? then Enabled(msgs, bufs, s, WriteReceived(r))
      else if m == NoMsg || (m.rankSend != r && m.rankRecv != r) then Enabled(msgs, bufs, s, Skip(r))
      else if m.rankSend == m.rankRecv then Enabled(msgs, bufs, s, WriteOwn(r))
      else m.rankSend == r && s.pcs[m.rankRecv] == s.pcs[r] ==> Enabled(msgs, bufs, s, Transfer(r, m.rankRecv))
  {
  }

  ghost predicate IsRun(msgs: seq<Msg>, bufs: seq<Bytes>, s: State, steps: seq<Step>)
    requires Gathered(msgs, bufs) && |s.pcs| == |s.files| == |msgs|
    decreases |steps|
  {
    steps == [] ||
    (Enabled(msgs, bufs, s, steps[0]) && IsRun(msgs, bufs, Next(msgs, bufs, s, steps[0]), steps[1..]))
  }

  ghost function After(msgs: seq<Msg>, bufs: seq<Bytes>, s: State, steps: seq<Step>): (e: State)
    requires Gathered(msgs, bufs) && |s.pcs| == |s.files| == |msgs| && IsRun(msgs, bufs, s, steps)
    ensures |e.pcs| == |e.files| == |msgs|
    decreases |steps|
  {
    if steps == [] then s else After(msgs, bufs, Next(msgs, bufs, s, steps[0]), steps[1..])
  }

  function Start(files: seq<File>): State {
    State(seq(|files|, _ => At(0)), files)
  }

  predicate Finished(s: State, n: nat) {
    forall r :: 0 <= r < |s.pcs| ==> s.pcs[r] == At(n)
  }

  /** Process r has done its part of message i: sent it, or received it. */
  predicate Passed(pc: Pc, i: nat) {
    match pc case At(j) => i < j case Received(j, _) => i <= j
  }

  ghost predicate FilesRight(msgs: seq<Msg>, bufs: seq<Bytes>, files: seq<File>, s: State)
    requires Gathered(msgs, bufs) && |s.pcs| == |s.files| == |msgs| == |files|
  {
    forall r :: 0 <= r < |msgs| ==>
      s.pcs[r].i <= |msgs| && s.files[r] == FileAfter(msgs, bufs, r, s.pcs[r].i, files[r])
  }

  /** A process about to write has what the message's sender read in this round. */
  ghost predicate ReceivedRight(msgs: seq<Msg>, bufs: seq<Bytes>, s: State)
    requires Gathered(msgs, bufs) && |s.pcs| == |msgs|
  {
    forall r :: 0 <= r < |msgs| && s.pcs[r].Received? ==>
      && s.pcs[r].i < |msgs| && IsReceiver(msgs[s.pcs[r].i], r)
      && s.pcs[r].data == bufs[s.pcs[r].i][..msgs[s.pcs[r].i].readSize]
  }

  /** The message of process a goes to another process b. */
  predicate Pair(msgs: seq<Msg>, a: nat, b: nat) {
    a < |msgs| && b < |msgs| && IsSender(msgs[a], a) && msgs[a].rankRecv == b
  }

  /** Sends and receives went in pairs. */
  ghost predicate Paired(msgs: seq<Msg>, bufs: seq<Bytes>, pcs: seq<Pc>)
    requires Gathered(msgs, bufs) && |pcs| == |msgs|
  {
    forall a: nat, b: nat {:trigger Pair(msgs, a, b)} :: Pair(msgs, a, b) ==>
      (Passed(pcs[a], a) <==> Passed(pcs[b], a))
  }

  ghost predicate Inv(msgs: seq<Msg>, bufs: seq<Bytes>, files: seq<File>, s: State) {
    && Gathered(msgs, bufs) && |s.pcs| == |s.files| == |msgs| == |files|
    && FilesRight(msgs, bufs, files, s)
    && ReceivedRight(msgs, bufs, s)
    && Paired(msgs, bufs, s.pcs)
  }

  lemma InitInv(msgs: seq<Msg>, bufs: seq<Bytes>, files: seq<File>)
    requires Gathered(msgs, bufs) && |files| == |msgs|
    ensures Inv(msgs, bufs, files, Start(files))
  {
  }

  /** A process goes on to its next message, changing its own file only. */
  lemma MoveOnInv(msgs: seq<Msg>, bufs: seq<Bytes>, files: seq<File>, s: State, r: nat, f: File)
    requires Inv(msgs, bufs, files, s) && r < |msgs| && s.pcs[r].i < |msgs|
    requires f == FileAfter(msgs, bufs, r, s.pcs[r].i + 1, files[r])
    requires s.pcs[r].At? ==> !IsSender(msgs[s.pcs[r].i], r) && !IsReceiver(msgs[s.pcs[r].i], r)
    ensures Inv(msgs, bufs, files, MovedOn(s, r, f))
  {
    MoveOnPaired(msgs, bufs, s.pcs, r);
  }

  lemma MoveOnPaired(msgs: seq<Msg>, bufs: seq<Bytes>, pcs: seq<Pc>, r: nat)
    requires Gathered(msgs, bufs) && |pcs| == |msgs| && r < |msgs| && pcs[r].i < |msgs| && Paired(msgs, bufs, pcs)
    requires pcs[r].At? ==> !IsSender(msgs[pcs[r].i], r) && !IsReceiver(msgs[pcs[r].i], r)
    requires pcs[r].Received? ==> IsReceiver(msgs[pcs[r].i], r)
    ensures Paired(msgs, bufs, pcs[r := At(pcs[r].i + 1)])
  {
    var pcs' := pcs[r := At(pcs[r].i + 1)];
    forall a: nat, b: nat | Pair(msgs, a, b) ensures Passed(pcs'[a], a) <==> Passed(pcs'[b], a) {
      assert Passed(pcs[a], a) <==> Passed(pcs[b], a);
      assert Passed(pcs'[a], a) == Passed(pcs[a], a);
      assert Passed(pcs'[b], a) == Passed(pcs[b], a);
    }
  }

  lemma TransferInv(msgs: seq<Msg>, bufs: seq<Bytes>, files: seq<File>, s: State, a: nat, b: nat)
    requires Inv(msgs, bufs, files, s) && Enabled(msgs, bufs, s, Transfer(a, b))
    ensures s.pcs[a] == s.pcs[b] == At(a)
    ensures Inv(msgs, bufs, files, Next(msgs, bufs, s, Transfer(a, b)))
  {
    var pcs := Next(msgs, bufs, s, Transfer(a, b)).pcs;
    assert pcs == s.pcs[a := At(a + 1)][b := Received(a, bufs[a][..msgs[a].readSize])];
    forall c: nat, d: nat | Pair(msgs, c, d) ensures Passed(pcs[c], c) <==> Passed(pcs[d], c) {
      assert Passed(s.pcs[c], c) <==> Passed(s.pcs[d], c);
      if c != a {
        assert Passed(pcs[c], c) == Passed(s.pcs[c], c);
        assert Passed(pcs[d], c) == Passed(s.pcs[d], c);
      }
    }
    TransferFiles(msgs, bufs, files, s, a, b);
  }

  lemma TransferFiles(msgs: seq<Msg>, bufs: seq<Bytes>, files: seq<File>, s: State, a: nat, b: nat)
    requires Inv(msgs, bufs, files, s) && Enabled(msgs, bufs, s, Transfer(a, b))
    ensures FilesRight(msgs, bufs, files, Next(msgs, bufs, s, Transfer(a, b)))
  {
    assert FileAfter(msgs, bufs, a, a + 1, files[a]) == FileAfter(msgs, bufs, a, a, files[a]);
  }

  /** What message i does to the file of process r. */
  lemma FileAfterNext(msgs: seq<Msg>, bufs: seq<Bytes>, r: int, i: nat, f: File)
    requires Gathered(msgs, bufs) && i < |msgs|
    ensures var m := msgs[i];
      FileAfter(msgs, bufs, r, i + 1, f)
      == if m != NoMsg && m.rankRecv == r
         then WriteAt(FileAfter(msgs, bufs, r, i, f), m.offset, bufs[i][..m.readSize]) else FileAfter(msgs, bufs, r, i, f)
  {
  }

  /** A process that has passed message i, with its file as it is then. */
  function MovedOn(s: State, r: nat, f: File): State
    requires r < |s.pcs| == |s.files|
  {
    State(s.pcs[r := At(s.pcs[r].i + 1)], s.files[r := f])
  }

  lemma SkipMovesOn(msgs: seq<Msg>, bufs: seq<Bytes>, files: seq<File>, s: State, r: nat)
    requires Gathered(msgs, bufs) && |s.pcs| == |s.files| == |msgs| == |files| && FilesRight(msgs, bufs, files, s)
    requires Enabled(msgs, bufs, s, Skip(r))
    ensures Next(msgs, bufs, s, Skip(r)) == MovedOn(s, r, s.files[r])
    ensures s.files[r] == FileAfter(msgs, bufs, r, s.pcs[r].i + 1, files[r])
  {
    FileAfterNext(msgs, bufs, r, s.pcs[r].i, files[r]);
    assert s.files[r := s.files[r]] == s.files;
  }

  lemma SkipInv(msgs: seq<Msg>, bufs: seq<Bytes>, files: seq<File>, s: State, r: nat)
    requires Inv(msgs, bufs, files, s) && Enabled(msgs, bufs, s, Skip(r))
    ensures Inv(msgs, bufs, files, Next(msgs, bufs, s, Skip(r)))
  {
    SkipMovesOn(msgs, bufs, files, s, r);
    MoveOnInv(msgs, bufs, files, s, r, s.files[r]);
  }

  lemma WriteOwnMovesOn(msgs: seq<Msg>, bufs: seq<Bytes>, files: seq<File>, s: State, r: nat)
    requires Gathered(msgs, bufs) && |s.pcs| == |s.files| == |msgs| == |files| && FilesRight(msgs, bufs, files, s)
    requires Enabled(msgs, bufs, s, WriteOwn(r))
    ensures var n := Next(msgs, bufs, s, WriteOwn(r));
      && |n.files| == |msgs| && n == MovedOn(s, r, n.files[r])
      && n.files[r] == FileAfter(msgs, bufs, r, s.pcs[r].i + 1, files[r])
  {
    FileAfterNext(msgs, bufs, r, s.pcs[r].i, files[r]);
  }

  lemma WriteOwnInv(msgs: seq<Msg>, bufs: seq<Bytes>, files: seq<File>, s: State, r: nat)
    requires Inv(msgs, bufs, files, s) && Enabled(msgs, bufs, s, WriteOwn(r))
    ensures Inv(msgs, bufs, files, Next(msgs, bufs, s, WriteOwn(r)))
  {
    WriteOwnMovesOn(msgs, bufs, files, s, r);
    MoveOnInv(msgs, bufs, files, s, r, Next(msgs, bufs, s, WriteOwn(r)).files[r]);
  }

  lemma WriteReceivedMovesOn(msgs: seq<Msg>, bufs: seq<Bytes>, files: seq<File>, s: State, r: nat)
    requires Gathered(msgs, bufs) && |s.pcs| == |s.files| == |msgs| == |files| && FilesRight(msgs, bufs, files, s)
    requires ReceivedRight(msgs, bufs, s) && Enabled(msgs, bufs, s, WriteReceived(r))
    ensures var n := Next(msgs, bufs, s, WriteReceived(r));
      && |n.files| == |msgs| && n == MovedOn(s, r, n.files[r])
      && n.files[r] == FileAfter(msgs, bufs, r, s.pcs[r].i + 1, files[r])
  {
    FileAfterNext(msgs, bufs, r, s.pcs[r].i, files[r]);
  }

  lemma WriteReceivedInv(msgs: seq<Msg>, bufs: seq<Bytes>, files: seq<File>, s: State, r: nat)
    requires Inv(msgs, bufs, files, s) && Enabled(msgs, bufs, s, WriteReceived(r))
    ensures Inv(msgs, bufs, files, Next(msgs, bufs, s, WriteReceived(r)))
  {
    WriteReceivedMovesOn(msgs, bufs, files, s, r);
    MoveOnInv(msgs, bufs, files, s, r, Next(msgs, bufs, s, WriteReceived(r)).files[r]);
  }

  lemma StepInv(msgs: seq<Msg>, bufs: seq<Bytes>, files: seq<File>, s: State, step: Step)
    requires Inv(msgs, bufs, files, s) && Enabled(msgs, bufs, s, step)
    ensures Inv(msgs, bufs, files, Next(msgs, bufs, s, step))
  {
    match step
    case Skip(r) => SkipInv(msgs, bufs, files, s, r);
    case Transfer(a, b) => TransferInv(msgs, bufs, files, s, a, b);
    case WriteOwn(r) => WriteOwnInv(msgs, bufs, files, s, r);
    case WriteReceived(r) => WriteReceivedInv(msgs, bufs, files, s, r);
  }

  /** Twice the messages a process has still to pass, less one if it only has to write. */
  function Todo(n: nat): Pc -> nat {
    (pc: Pc) => match pc
      case At(i) => if i < n then 2 * (n - i) else 0
      case Received(i, _) => if i < n then 2 * (n - i) - 1 else 0
  }

  /** A process that goes on to its next message has less to do. */
  lemma MoveOnProgress(pcs: seq<Pc>, r: nat, n: nat)
    requires r < |pcs| && pcs[r].i < n
    ensures Sum(pcs[r := At(pcs[r].i + 1)], Todo(n)) < Sum(pcs, Todo(n))
  {
    SumUpdate(pcs, r, At(pcs[r].i + 1), Todo(n));
  }

  /** So has one that has received and is about to write. */
  lemma ReceiveProgress(pcs: seq<Pc>, r: nat, data: Bytes, n: nat)
    requires r < |pcs| && pcs[r].At? && pcs[r].i < n
    ensures Sum(pcs[r := Received(pcs[r].i, data)], Todo(n)) < Sum(pcs, Todo(n))
  {
    SumUpdate(pcs, r, Received(pcs[r].i, data), Todo(n));
  }

  lemma PairProgress(pcs: seq<Pc>, a: nat, b: nat, data: Bytes, n: nat)
    requires a < |pcs| && b < |pcs| && a != b && pcs[a].i < n && pcs[b].At? && pcs[b].i < n
    ensures Sum(pcs[a := At(pcs[a].i + 1)][b := Received(pcs[b].i, data)], Todo(n)) < Sum(pcs, Todo(n))
  {
    MoveOnProgress(pcs, a, n);
    ReceiveProgress(pcs[a := At(pcs[a].i + 1)], b, data, n);
  }

  lemma TransferProgress(msgs: seq<Msg>, bufs: seq<Bytes>, s: State, a: nat, b: nat)
    requires Gathered(msgs, bufs) && |s.pcs| == |s.files| == |msgs| && Enabled(msgs, bufs, s, Transfer(a, b))
    ensures Sum(Next(msgs, bufs, s, Transfer(a, b)).pcs, Todo(|msgs|)) < Sum(s.pcs, Todo(|msgs|))
  {
    PairProgress(s.pcs, a, b, bufs[a][..msgs[s.pcs[a].i].readSize], |msgs|);
  }

  /** Every step brings the end of the round nearer. */
  lemma StepProgress(msgs: seq<Msg>, bufs: seq<Bytes>, s: State, step: Step)
    requires Gathered(msgs, bufs) && |s.pcs| == |s.files| == |msgs| && Enabled(msgs, bufs, s, step)
    ensures Sum(Next(msgs, bufs, s, step).pcs, Todo(|msgs|)) < Sum(s.pcs, Todo(|msgs|))
  {
    match step
    case Transfer(a, b) => TransferProgress(msgs, bufs, s, a, b);
    case Skip(r) => MoveOnProgress(s.pcs, r, |msgs|);
    case WriteOwn(r) => MoveOnProgress(s.pcs, r, |msgs|);
    case WriteReceived(r) => MoveOnProgress(s.pcs, r, |msgs|);
  }

  /** The process that is furthest behind. */
  lemma {:induction false} FurthestBehind(pcs: seq<Pc>) returns (r: nat)
    requires pcs != []
    ensures r < |pcs| && forall q :: 0 <= q < |pcs| ==> pcs[r].i <= pcs[q].i
  {
    r := 0;
    var q := 1;
    while q < |pcs|
      invariant r < q <= |pcs| && forall p :: 0 <= p < q ==> pcs[r].i <= pcs[p].i
    {
      if pcs[q].i < pcs[r].i { r := q; }
      q := q + 1;
    }
  }

  /** No deadlock: until every process has passed every message, some step can be made. */
  lemma NeverStuck(msgs: seq<Msg>, bufs: seq<Bytes>, files: seq<File>, s: State) returns (step: Step)
    requires Inv(msgs, bufs, files, s) && !Finished(s, |msgs|)
    ensures Enabled(msgs, bufs, s, step)
  {
    var r := FurthestBehind(s.pcs);
    var i := s.pcs[r].i;
    if s.pcs[r].Received? {
      step := WriteReceived(r);
    } else if i == |msgs| {
      assert false;
    } else if IsOwn(msgs[i], r) {
      step := WriteOwn(r);
    } else if IsSender(msgs[i], r) {
      step := PairOf(msgs, bufs, files, s, i, msgs[i].rankRecv);
    } else if IsReceiver(msgs[i], r) {
      step := PairOf(msgs, bufs, files, s, i, r);
    } else {
      step := Skip(r);
    }
  }

  /** When everybody has reached message i and one side of it waits there, so does the other. */
  lemma PairOf(msgs: seq<Msg>, bufs: seq<Bytes>, files: seq<File>, s: State, i: nat, b: nat) returns (step: Step)
    requires Inv(msgs, bufs, files, s) && i < |msgs| && msgs[i] != NoMsg && msgs[i].rankRecv == b != i
    requires forall q :: 0 <= q < |s.pcs| ==> i <= s.pcs[q].i
    requires s.pcs[i] == At(i) || s.pcs[b] == At(i)
    ensures Enabled(msgs, bufs, s, step)
  {
    assert Pair(msgs, i, b);
    assert !Passed(s.pcs[i], i) && !Passed(s.pcs[b], i);
    step := Transfer(i, b);
  }

  /**
   * Every interleaving of a round is finite, gets every process through, and leaves in
   * every file what the messages put there one after the other.
   */
  lemma {:induction false} RunsAgree(msgs: seq<Msg>, bufs: seq<Bytes>, files: seq<File>, s: State, steps: seq<Step>)
    requires Inv(msgs, bufs, files, s) && IsRun(msgs, bufs, s, steps)
    ensures |steps| <= Sum(s.pcs, Todo(|msgs|))
    ensures Inv(msgs, bufs, files, After(msgs, bufs, s, steps))
    decreases |steps|
  {
    if steps != [] {
      StepInv(msgs, bufs, files, s, steps[0]);
      StepProgress(msgs, bufs, s, steps[0]);
      RunsAgree(msgs, bufs, files, Next(msgs, bufs, s, steps[0]), steps[1..]);
    }
  }

  ghost predicate CannotGoOn(msgs: seq<Msg>, bufs: seq<Bytes>, s: State)
    requires Gathered(msgs, bufs) && |s.pcs| == |s.files| == |msgs|
  {
    forall step :: !Enabled(msgs, bufs, s, step)
  }

  lemma EveryInterleaving(msgs: seq<Msg>, bufs: seq<Bytes>, files: seq<File>, steps: seq<Step>)
    requires Gathered(msgs, bufs) && |files| == |msgs| && IsRun(msgs, bufs, Start(files), steps)
    ensures |steps| <= 2 * |msgs| * |msgs|
    ensures var e := After(msgs, bufs, Start(files), steps);
      CannotGoOn(msgs, bufs, e) ==>
        && Finished(e, |msgs|)
        && forall r :: 0 <= r < |msgs| ==> e.files[r] == FileAfter(msgs, bufs, r, |msgs|, files[r])
  {
    InitInv(msgs, bufs, files);
    RunsAgree(msgs, bufs, files, Start(files), steps);
    SumBound(Start(files).pcs, Todo(|msgs|), 2 * |msgs|);
    var e := After(msgs, bufs, Start(files), steps);
    if CannotGoOn(msgs, bufs, e) && !Finished(e, |msgs|) {
      var step := NeverStuck(msgs, bufs, files, e);
    }
  }
}
