/** The logical-address cursor of src/logical_ino.rs: one LOGICAL_INO query
    fills a data container, and `next` drains it three `u64` values at a
    time. The ioctl becomes an oracle `query` from the request the cursor
    sends to the kernel's reply. */
module Logical {
  import opened Core
  import Search

  /** `struct Container`: the counters the kernel fills in, followed by the
      `u64` values it wrote. */
  datatype Container = Container(bytesLeft: u32, bytesMissing: u32, elemCnt: u32, elemMissed: u32, buff: seq<u64>)

  /** `Container::default()`: every counter zero and a zeroed buffer of
      `IOCTL_BUFF_SIZE` values. The crate-level `IOCTL_BUFF_SIZE` this file
      imports is not defined in the files modelled here; the model assumes
      it is the 2^16 of src/tree_search.rs:20 (`Search.IOCTL_BUFF_SIZE`),
      here and in the request's `size`. */
  function DefaultContainer(): (c: Container)
    ensures c.bytesLeft == 0 && c.bytesMissing == 0 && c.elemCnt == 0 && c.elemMissed == 0
    ensures |c.buff| == Search.IOCTL_BUFF_SIZE
    ensures forall i :: 0 <= i < |c.buff| ==> c.buff[i] == 0
  {
    Container(0, 0, 0, 0, seq(Search.IOCTL_BUFF_SIZE, _ => 0))
  }

  /** `btrfs_ioctl_logical_ino_args` as the cursor fills it in. */
  datatype LogicalInoArgs = LogicalInoArgs(logical: u64, size: u64, flags: u64)

  /** What the ioctl does to the container: fail with an errno, or set the
      four counters and write `written` from the start of the buffer. */
  datatype InoReply =
    | InoFailed(errno: int)
    | InoDone(bytesLeft: u32, bytesMissing: u32, elemCnt: u32, elemMissed: u32, written: seq<u64>)

  /** The request for the references to `bytenr`. */
  function Request(bytenr: u64): (a: LogicalInoArgs)
    ensures a.logical == bytenr && a.size == Search.IOCTL_BUFF_SIZE && a.flags == 0
  {
    LogicalInoArgs(bytenr, Search.IOCTL_BUFF_SIZE, 0)
  }

  /** The default container after a successful query: the counters the
      kernel reported and, past what it wrote, the zeros of the default. */
  function Filled(reply: InoReply): (c: Container)
    requires reply.InoDone?
    ensures c.bytesLeft == reply.bytesLeft && c.bytesMissing == reply.bytesMissing
    ensures c.elemCnt == reply.elemCnt && c.elemMissed == reply.elemMissed
    ensures |c.buff| == Search.IOCTL_BUFF_SIZE
    ensures forall i :: 0 <= i < |c.buff| ==> c.buff[i] == if i < |reply.written| then reply.written[i] else 0
  {
    Container(reply.bytesLeft, reply.bytesMissing, reply.elemCnt, reply.elemMissed,
              Overlay(DefaultContainer().buff, reply.written))
  }

  /** One reference: inode number, offset within the inode, owning tree. */
  datatype Triple = Triple(inum: u64, offset: u64, root: u64)

  datatype InoError =
    | Ioctl(errno: int)
    | IndexOutOfBounds(index: nat, len: nat)   // indexing `buff` past its end

  /** What `next` returns: `Some(Ok(triple))`, `None` or `Some(Err(_))`. */
  datatype Step = Yielded(refs: Triple) | Done | Failed(error: InoError)

  /** `struct LogicalIno` without the file handle. */
  datatype LogicalIno = LogicalIno(bytenr: u64, container: Option<Container>, bp: nat)

  type Transition = Core.Transition<LogicalIno, Step>

  /** `LogicalIno::new`. */
  function New(bytenr: u64): (s: LogicalIno)
    ensures s.bytenr == bytenr && s.container.None? && s.bp == 0
  {
    LogicalIno(bytenr, None, 0)
  }

  /** The three values at `i`. */
  function TripleAt(buff: seq<u64>, i: nat): (t: Triple)
    requires i + 3 <= |buff|
  {
    Triple(buff[i], buff[i + 1], buff[i + 2])
  }

  /** The part of `next` after the container is present: a triple while
      `elem_cnt` is positive, `None` once it is zero. Indexing past the
      buffer panics in the source and is an error here. */
  function Take(s: LogicalIno): (t: Transition)
    requires s.container.Some?
    ensures t.state.bytenr == s.bytenr && t.state.container.Some?
    ensures t.step.Done? <==> s.container.value.elemCnt == 0
    ensures t.step.Yielded? <==> s.container.value.elemCnt > 0 && s.bp + 3 <= |s.container.value.buff|
    ensures t.step.Yielded? ==>
      var c := s.container.value;
      && t.step.refs == TripleAt(c.buff, s.bp)
      && t.state.bp == s.bp + 3
      && t.state.container == Some(c.(elemCnt := c.elemCnt - 1))
    ensures !t.step.Yielded? ==> t.state == s
  {
    var c := s.container.value;
    if c.elemCnt > 0 then
      if s.bp + 3 <= |c.buff| then
        Transition(s.(container := Some(c.(elemCnt := c.elemCnt - 1)), bp := s.bp + 3), Yielded(TripleAt(c.buff, s.bp)))
      else
        Transition(s, Failed(IndexOutOfBounds(if s.bp < |c.buff| then |c.buff| else s.bp, |c.buff|)))
    else Transition(s, Done)
  }

  /** `impl Iterator for LogicalIno`: `next`. */
  function Next(s: LogicalIno, query: LogicalInoArgs -> InoReply): (t: Transition)
    ensures t.state.bytenr == s.bytenr
    ensures s.container.Some? ==> t == Take(s)
    ensures s.container.None? ==>
      match query(Request(s.bytenr))
      case InoFailed(e) => t == Transition(s, Failed(Ioctl(e)))
      case InoDone(_, _, _, _, _) => t == Take(s.(container := Some(Filled(query(Request(s.bytenr))))))
  {
    if s.container.None? then
      var reply := query(Request(s.bytenr));
      match reply
      case InoFailed(e) => Transition(s, Failed(Ioctl(e)))
      case InoDone(_, _, _, _, _) => Take(s.(container := Some(Filled(reply))))
    else Take(s)
  }

  // ---------------------------------------------------------------------
  // Properties of the cursor over several calls.

  type Trace = Core.Trace<LogicalIno, Step>

  /** `k` successive calls of `next`. */
  function Run(s: LogicalIno, query: LogicalInoArgs -> InoReply, k: nat): (r: Trace)
  {
    Iterate(x => Next(x, query), s, k)
  }

  /** The steps that yield the `n` consecutive triples starting at `bp`. */
  function Drained(buff: seq<u64>, bp: nat, n: nat): (r: seq<Step>)
    requires bp + 3 * n <= |buff|
    ensures |r| == n
    decreases n
  {
    if n == 0 then [] else [Yielded(TripleAt(buff, bp))] + Drained(buff, bp + 3, n - 1)
  }

  /** The `i`-th drained triple is the one at `bp + 3i`: the triples come
      from consecutive, non-overlapping positions, in order. */
  lemma {:induction false} DrainedAt(buff: seq<u64>, bp: nat, n: nat, i: nat)
    requires bp + 3 * n <= |buff| && i < n
    ensures Drained(buff, bp, n)[i] == Yielded(TripleAt(buff, bp + 3 * i))
    decreases n
  {
    if i > 0 {
      DrainedAt(buff, bp + 3, n - 1, i - 1);
    }
  }

  /** Once the container is present no query is issued: what `next` does
      does not depend on the oracle. */
  lemma NoQueryOnceFilled(s: LogicalIno, q1: LogicalInoArgs -> InoReply, q2: LogicalInoArgs -> InoReply)
    requires s.container.Some?
    ensures Next(s, q1) == Next(s, q2)
  {
  }

  /** A failed query leaves the container absent, so the next call behaves
      exactly like the first one and queries again. */
  lemma FailedQueryIsRetried(s: LogicalIno, q1: LogicalInoArgs -> InoReply, q2: LogicalInoArgs -> InoReply)
    requires s.container.None? && q1(Request(s.bytenr)).InoFailed?
    ensures Next(s, q1).state.container.None?
    ensures Next(Next(s, q1).state, q2) == Next(s, q2)
  {
  }

  /** With `elem_cnt` at zero the cursor returns `None` and stays put. */
  lemma ExhaustedIsDone(s: LogicalIno, q: LogicalInoArgs -> InoReply)
    requires s.container.Some? && s.container.value.elemCnt == 0
    ensures Next(s, q) == Transition(s, Done)
  {
  }

  /** ... and so it returns `None` forever. */
  lemma {:induction false} DoneForever(s: LogicalIno, q: LogicalInoArgs -> InoReply, k: nat)
    requires s.container.Some? && s.container.value.elemCnt == 0
    ensures Run(s, q, k).state == s
    ensures forall i :: 0 <= i < k ==> Run(s, q, k).steps[i] == Done
    decreases k
  {
    if k > 0 {
      ExhaustedIsDone(s, q);
      DoneForever(s, q, k - 1);
      assert Run(s, q, k).steps == [Done] + Run(s, q, k - 1).steps;
    }
  }

  /** From a present container, `n` calls yield the `n` triples from `bp`
      on, counting `elem_cnt` down by `n` and moving `bp` by `3n`. */
  lemma {:induction false} DrainTriples(s: LogicalIno, q: LogicalInoArgs -> InoReply, n: nat)
    requires s.container.Some? && n <= s.container.value.elemCnt
    requires s.bp + 3 * n <= |s.container.value.buff|
    ensures var c := s.container.value;
      && Run(s, q, n).steps == Drained(c.buff, s.bp, n)
      && Run(s, q, n).state == LogicalIno(s.bytenr, Some(c.(elemCnt := c.elemCnt - n)), s.bp + 3 * n)
    decreases n
  {
    if n > 0 {
      var c := s.container.value;
      var t := Next(s, q);
      assert t.state == LogicalIno(s.bytenr, Some(c.(elemCnt := c.elemCnt - 1)), s.bp + 3);
      DrainTriples(t.state, q, n - 1);
    }
  }

  /** A fresh cursor whose one query succeeds yields exactly the reported
      `elem_cnt` triples from the start of the buffer, then `None`. It ends
      holding the container with `elem_cnt` at zero, `bp` past the last
      triple and its `bytenr` unchanged. */
  lemma FullRun(bytenr: u64, q: LogicalInoArgs -> InoReply)
    requires q(Request(bytenr)).InoDone?
    requires 3 * q(Request(bytenr)).elemCnt <= Search.IOCTL_BUFF_SIZE
    ensures var n := q(Request(bytenr)).elemCnt;
      && Run(New(bytenr), q, n + 1).steps == Drained(Filled(q(Request(bytenr))).buff, 0, n) + [Done]
      && Run(New(bytenr), q, n + 1).state
         == LogicalIno(bytenr, Some(Filled(q(Request(bytenr))).(elemCnt := 0)), 3 * n)
  {
    var c := Filled(q(Request(bytenr)));
    var n := c.elemCnt;
    var s0 := LogicalIno(bytenr, Some(c), 0);
    assert Next(New(bytenr), q) == Next(s0, q);
    DrainRunsOut(s0, q, n);
  }

  /** However many more times it is called after that, a fresh cursor
      whose one query succeeded returns `None`. */
  lemma NoneAfterFullRun(bytenr: u64, q: LogicalInoArgs -> InoReply, k: nat)
    requires q(Request(bytenr)).InoDone?
    requires 3 * q(Request(bytenr)).elemCnt <= Search.IOCTL_BUFF_SIZE
    ensures var n := q(Request(bytenr)).elemCnt;
      var steps := Run(New(bytenr), q, n + 1 + k).steps;
      && steps[..n + 1] == Drained(Filled(q(Request(bytenr))).buff, 0, n) + [Done]
      && forall i :: n + 1 <= i < n + 1 + k ==> steps[i] == Done
  {
    var n := q(Request(bytenr)).elemCnt;
    FullRun(bytenr, q);
    var f := x => Next(x, q);
    IterateSplit(f, New(bytenr), n + 1, k);
    var mid := Run(New(bytenr), q, n + 1).state;
    DoneForever(mid, q, k);
    var steps := Run(New(bytenr), q, n + 1 + k).steps;
    assert steps == Run(New(bytenr), q, n + 1).steps + Run(mid, q, k).steps;
    assert steps[..n + 1] == Run(New(bytenr), q, n + 1).steps;
  }

  /** Draining all `n` remaining triples and then calling once more. */
  lemma {:induction false} DrainRunsOut(s: LogicalIno, q: LogicalInoArgs -> InoReply, n: nat)
    requires s.container.Some? && n == s.container.value.elemCnt
    requires s.bp + 3 * n <= |s.container.value.buff|
    ensures Run(s, q, n + 1).steps == Drained(s.container.value.buff, s.bp, n) + [Done]
    ensures var c := s.container.value;
      Run(s, q, n + 1).state == s.(container := Some(c.(elemCnt := 0)), bp := s.bp + 3 * n)
    decreases n
  {
    if n == 0 {
      ExhaustedIsDone(s, q);
      assert Iterate(x => Next(x, q), s, 0) == Trace(s, []);
    } else {
      var c := s.container.value;
      var t := Next(s, q);
      assert t.step == Yielded(TripleAt(c.buff, s.bp));
      assert t.state == LogicalIno(s.bytenr, Some(c.(elemCnt := c.elemCnt - 1)), s.bp + 3);
      DrainRunsOut(t.state, q, n - 1);
      var rest := Drained(c.buff, s.bp + 3, n - 1);
      assert Run(s, q, n + 1).steps == [t.step] + (rest + [Done]);
      assert [t.step] + (rest + [Done]) == ([t.step] + rest) + [Done];
    }
  }

  // ---------------------------------------------------------------------
  // `elem_cnt` counts values, not triples.
  //
  // The kernel's data container reports in `elem_cnt` the number of `u64`
  // values it wrote, three per reference. `next` counts it down by one per
  // triple, so after the real references it goes on yielding triples from
  // the zeroed rest of the buffer. The corrected cursor counts down by
  // three.

  /** A reply as the kernel produces it: `elem_cnt` is the number of values
      written, a whole number of triples that fits the buffer. */
  predicate KernelReply(reply: InoReply)
  {
    && reply.InoDone?
    && reply.elemCnt == |reply.written|
    && reply.elemCnt % 3 == 0
    && |reply.written| <= Search.IOCTL_BUFF_SIZE
  }

  /** `Take` with `elem_cnt` counted down by three values per triple. */
  function TakeCorrected(s: LogicalIno): (t: Transition)
    requires s.container.Some?
    ensures t.state.bytenr == s.bytenr && t.state.container.Some?
    ensures t.step.Done? <==> s.container.value.elemCnt < 3
    ensures t.step.Yielded? <==> s.container.value.elemCnt >= 3 && s.bp + 3 <= |s.container.value.buff|
    ensures t.step.Yielded? ==>
      var c := s.container.value;
      && t.step.refs == TripleAt(c.buff, s.bp)
      && t.state == s.(container := Some(c.(elemCnt := c.elemCnt - 3)), bp := s.bp + 3)
    ensures !t.step.Yielded? ==> t.state == s
  {
    var c := s.container.value;
    if c.elemCnt >= 3 then
      if s.bp + 3 <= |c.buff| then
        Transition(s.(container := Some(c.(elemCnt := c.elemCnt - 3)), bp := s.bp + 3), Yielded(TripleAt(c.buff, s.bp)))
      else
        Transition(s, Failed(IndexOutOfBounds(if s.bp < |c.buff| then |c.buff| else s.bp, |c.buff|)))
    else Transition(s, Done)
  }

  /** `next` over the corrected countdown; the query is issued as before. */
  function NextCorrected(s: LogicalIno, query: LogicalInoArgs -> InoReply): (t: Transition)
    ensures t.state.bytenr == s.bytenr
    ensures s.container.Some? ==> t == TakeCorrected(s)
    ensures s.container.None? ==>
      match query(Request(s.bytenr))
      case InoFailed(e) => t == Transition(s, Failed(Ioctl(e)))
      case InoDone(_, _, _, _, _) => t == TakeCorrected(s.(container := Some(Filled(query(Request(s.bytenr))))))
  {
    if s.container.None? then
      var reply := query(Request(s.bytenr));
      match reply
      case InoFailed(e) => Transition(s, Failed(Ioctl(e)))
      case InoDone(_, _, _, _, _) => TakeCorrected(s.(container := Some(Filled(reply))))
    else TakeCorrected(s)
  }

  function RunCorrected(s: LogicalIno, query: LogicalInoArgs -> InoReply, k: nat): (r: Trace)
  {
    Iterate(x => NextCorrected(x, query), s, k)
  }

  /** Draining depends only on the values it reads. */
  lemma {:induction false} DrainedAgree(a: seq<u64>, b: seq<u64>, bp: nat, n: nat)
    requires bp + 3 * n <= |a| && bp + 3 * n <= |b|
    requires forall i :: bp <= i < bp + 3 * n ==> a[i] == b[i]
    ensures Drained(a, bp, n) == Drained(b, bp, n)
    decreases n
  {
    if n > 0 {
      assert a[bp] == b[bp] && a[bp + 1] == b[bp + 1] && a[bp + 2] == b[bp + 2];
      DrainedAgree(a, b, bp + 3, n - 1);
    }
  }

  /** From a present container holding `3m` values to go, the corrected
      cursor yields `m` triples and then `None`. */
  lemma {:induction false} CorrectedDrainRunsOut(s: LogicalIno, q: LogicalInoArgs -> InoReply, m: nat)
    requires s.container.Some? && s.container.value.elemCnt == 3 * m
    requires s.bp + 3 * m <= |s.container.value.buff|
    ensures RunCorrected(s, q, m + 1).steps == Drained(s.container.value.buff, s.bp, m) + [Done]
    ensures RunCorrected(s, q, m + 1).state.bytenr == s.bytenr
    decreases m
  {
    if m == 0 {
      assert Iterate(x => NextCorrected(x, q), s, 0) == Trace(s, []);
    } else {
      var c := s.container.value;
      var t := NextCorrected(s, q);
      assert t.step == Yielded(TripleAt(c.buff, s.bp));
      assert t.state == LogicalIno(s.bytenr, Some(c.(elemCnt := c.elemCnt - 3)), s.bp + 3);
      CorrectedDrainRunsOut(t.state, q, m - 1);
      var rest := Drained(c.buff, s.bp + 3, m - 1);
      assert RunCorrected(s, q, m + 1).steps == [t.step] + (rest + [Done]);
      assert [t.step] + (rest + [Done]) == ([t.step] + rest) + [Done];
    }
  }

  /** After a query answered as the kernel answers, the corrected cursor
      yields exactly the triples the kernel wrote, in order, then `None`. */
  lemma CorrectedYieldsWritten(bytenr: u64, q: LogicalInoArgs -> InoReply)
    requires KernelReply(q(Request(bytenr)))
    ensures var reply := q(Request(bytenr));
      var m := reply.elemCnt / 3;
      && RunCorrected(New(bytenr), q, m + 1).steps == Drained(reply.written, 0, m) + [Done]
      && RunCorrected(New(bytenr), q, m + 1).state.bytenr == bytenr
  {
    var reply := q(Request(bytenr));
    var c := Filled(reply);
    var m := reply.elemCnt / 3;
    var s0 := LogicalIno(bytenr, Some(c), 0);
    assert NextCorrected(New(bytenr), q) == NextCorrected(s0, q);
    CorrectedDrainRunsOut(s0, q, m);
    DrainedAgree(c.buff, reply.written, 0, m);
  }

  /** One reference `(7, 0, 5)`, reported by the kernel as three values. */
  const ONE_REF: InoReply := InoDone(0, 0, 3, 0, [7, 0, 5])

  /** As written, the cursor yields the reference and then two triples of
      zeros that the kernel never wrote; the corrected cursor yields the
      reference alone. */
  lemma AsWrittenYieldsPhantoms(bytenr: u64)
    ensures KernelReply(ONE_REF)
    ensures Run(New(bytenr), _ => ONE_REF, 4).steps
         == [Yielded(Triple(7, 0, 5)), Yielded(Triple(0, 0, 0)), Yielded(Triple(0, 0, 0)), Done]
    ensures RunCorrected(New(bytenr), _ => ONE_REF, 2).steps == [Yielded(Triple(7, 0, 5)), Done]
  {
    var q: LogicalInoArgs -> InoReply := _ => ONE_REF;
    var buff := Filled(ONE_REF).buff;
    FullRun(bytenr, q);
    assert buff[0] == 7 && buff[1] == 0 && buff[2] == 5;
    assert buff[3] == 0 && buff[4] == 0 && buff[5] == 0 && buff[6] == 0 && buff[7] == 0 && buff[8] == 0;
    assert Drained(buff, 6, 1) == [Yielded(Triple(0, 0, 0))];
    assert Drained(buff, 3, 2) == [Yielded(Triple(0, 0, 0)), Yielded(Triple(0, 0, 0))];
    CorrectedYieldsWritten(bytenr, q);
    assert Drained([7, 0, 5], 0, 1) == [Yielded(Triple(7, 0, 5))];
  }
}
