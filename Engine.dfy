/** What each read transaction of the HID driver does to the handle, as a
    closed form in terms of the scripted replies: how many iterations its poll
    loop runs, what it writes, what it reads, and what it returns. */
module Engine {
  import opened Frames
  import opened Transport

  /** Iterations of every read loop (`for k in range(10)`). */
  const POLL_BUDGET: nat := 10
  /** read(n) sizes used by the driver. */
  const STATUS_REPLY_SIZE: nat := 7
  const BYTE_REPLY_SIZE: nat := 4
  const WORD_REPLY_SIZE: nat := 10
  /** Bytes of header before the payload of a block read reply. */
  const BLOCK_HEADER: nat := 3

  /** The ways a driver call fails. */
  datatype Failure =
    | PayloadTooLong   // write_i2c_block given more than 61 bytes (IndexError)
    | IndexOutOfRange  // a reply shorter than the byte the driver indexes (IndexError)
    | DeviceFault      // no ready reply within the budget: the bridge was reset (IOError)
    | NotImplemented   // the block-data operations (NotImplementedError)

  datatype Result<T> = Ok(value: T) | Err(failure: Failure)

  /** What a transaction returns, with the state of the handle it leaves behind. */
  datatype Run<T> = Run(result: T, after: Hid)

  /** n copies of block, one after the other. */
  function Repeat<T>(block: seq<T>, n: nat): seq<T> {
    if n == 0 then [] else Repeat(block, n - 1) + block
  }

  /** Copies of a one-element block: the log grows by one entry per copy. */
  lemma RepeatLength<T>(e: T, n: nat)
    ensures |Repeat([e], n)| == n
  {
    if n > 0 {
      RepeatLength(e, n - 1);
    }
  }

  /** One more copy at the end of a log. */
  lemma RepeatSnoc<T>(w: seq<T>, block: seq<T>, n: nat)
    ensures w + Repeat(block, n) + block == w + Repeat(block, n + 1)
  {
    assert Repeat(block, n + 1) == Repeat(block, n) + block;
  }

  /** I2CError: send the reset report, then close the handle. */
  function Recover(s: Hid): (t: Hid)
    ensures t.features == s.features + [RESET_REPORT] && t.closed
    ensures t.written == s.written && t.readSizes == s.readSizes && t.script == s.script
    ensures t.events == s.events + [Reported(RESET_REPORT), Closed]
  {
    AfterClose(AfterFeature(s, RESET_REPORT))
  }

  /** The reply the j-th read(n) from state s on gets back. */
  function Upcoming(s: Hid, j: nat, n: nat): (r: seq<Byte>)
    ensures |r| <= n
  {
    ReplyAt(s.script, |s.readSizes| + j, n)
  }

  // ---------------------------------------------------------------------------
  // How many replies a loop reads, from the verdicts on its replies alone

  /** Reply j is the first reply a loop with verdicts st does not pass over:
      every reply before it is Busy, and it is Ready or Unreadable. */
  predicate SettlesAt(st: seq<Status>, j: nat) {
    j < |st|
    && (forall i :: 0 <= i < j ==> st[i] == Busy)
    && st[j] != Busy
  }

  /** Every reply of a loop with verdicts st is Busy. */
  predicate NeverSettles(st: seq<Status>) {
    forall i :: 0 <= i < |st| ==> st[i] == Busy
  }

  /** Iterations from iteration k on of a loop with verdicts st: up to and
      including the first reply that is not Busy, or to the end of the budget. */
  function Iterations(st: seq<Status>, k: nat): (n: nat)
    requires |st| == POLL_BUDGET && k < POLL_BUDGET
    ensures k < n <= POLL_BUDGET
    decreases POLL_BUDGET - k
  {
    if st[k] != Busy || k == POLL_BUDGET - 1 then k + 1 else Iterations(st, k + 1)
  }

  /** Every reply the loop reads before its last one is Busy, and the last one
      is not, unless the budget ran out. */
  lemma {:induction false} IterationsStop(st: seq<Status>, k: nat)
    requires |st| == POLL_BUDGET && k < POLL_BUDGET
    ensures forall i :: k <= i < Iterations(st, k) - 1 ==> st[i] == Busy
    ensures st[Iterations(st, k) - 1] != Busy || Iterations(st, k) == POLL_BUDGET
    decreases POLL_BUDGET - k
  {
    if st[k] == Busy && k < POLL_BUDGET - 1 {
      IterationsStop(st, k + 1);
    }
  }

  /** The iterations of a whole loop with verdicts st. */
  function LoopCount(st: seq<Status>): (n: nat)
    requires |st| == POLL_BUDGET
    ensures 1 <= n <= POLL_BUDGET
  {
    Iterations(st, 0)
  }

  /** The loop stops right after the first reply it does not pass over. */
  lemma LoopCountSettles(st: seq<Status>, j: nat)
    requires |st| == POLL_BUDGET && SettlesAt(st, j)
    ensures LoopCount(st) == j + 1
  {
    IterationsStop(st, 0);
  }

  /** A loop that never settles uses its whole budget, and its last reply is Busy. */
  lemma LoopCountExhausts(st: seq<Status>)
    requires |st| == POLL_BUDGET && NeverSettles(st)
    ensures LoopCount(st) == POLL_BUDGET && st[POLL_BUDGET - 1] == Busy
  {
    IterationsStop(st, 0);
    assert st[LoopCount(st) - 1] == Busy;
  }

  /** Every loop either settles at the last reply it reads or never settles,
      and the verdict on that last reply tells which. */
  lemma LoopEnds(st: seq<Status>)
    requires |st| == POLL_BUDGET
    ensures NeverSettles(st) <==> st[LoopCount(st) - 1] == Busy
    ensures !NeverSettles(st) ==> SettlesAt(st, LoopCount(st) - 1)
  {
    IterationsStop(st, 0);
    var n := LoopCount(st);
    if NeverSettles(st) {
      LoopCountExhausts(st);
    } else if st[n - 1] == Busy {
      assert n == POLL_BUDGET;
      assert forall i :: 0 <= i < POLL_BUDGET ==> st[i] == Busy;
    }
  }

  // ---------------------------------------------------------------------------
  // Status polling, shared by read_byte, read_byte_data and read_i2c_block

  /** The status poll's verdict on each of the POLL_BUDGET replies it may read from s. */
  function PollVerdicts(s: Hid): (st: seq<Status>)
    ensures |st| == POLL_BUDGET
  {
    StatusVerdicts(s.script, |s.readSizes|)
  }

  /** The status verdicts on the replies of script q from position b on. */
  function StatusVerdicts(q: seq<seq<Byte>>, b: nat): (st: seq<Status>)
    ensures |st| == POLL_BUDGET
  {
    seq(POLL_BUDGET, i requires 0 <= i < POLL_BUDGET => StatusOf(ReplyAt(q, b + i, STATUS_REPLY_SIZE)))
  }

  /** Verdict i is the status of the i-th reply from s on. */
  lemma PollVerdictAt(s: Hid, i: nat)
    requires i < POLL_BUDGET
    ensures PollVerdicts(s)[i] == StatusOf(Upcoming(s, i, STATUS_REPLY_SIZE))
  {
  }

  /** The number of status polls a read sends from state s. */
  function PollCount(s: Hid): (n: nat)
    ensures 1 <= n <= POLL_BUDGET
  {
    LoopCount(PollVerdicts(s))
  }

  /** The last status reply a read looks at. */
  function LastStatusReply(s: Hid): seq<Byte> {
    Upcoming(s, PollCount(s) - 1, STATUS_REPLY_SIZE)
  }

  /** The status of the last status reply a read looks at. */
  function LastStatus(s: Hid): Status {
    StatusOf(LastStatusReply(s))
  }

  /** The status poll from state s ends in state t, with `last` the verdict
      on the last reply `reply` it read. */
  predicate PollEnds(s: Hid, t: Hid, last: Status, reply: seq<Byte>) {
    t == Polled(s, PollCount(s)) && last == LastStatus(s) && reply == LastStatusReply(s)
  }

  /** A status poll that passed over replies 0 .. k-1 and stops at reply k
      has sent k + 1 polls and ends on that reply. */
  lemma PollStopsAt(s: Hid, k: nat)
    requires k < POLL_BUDGET
    requires forall i :: 0 <= i < k ==> PollVerdicts(s)[i] == Busy
    requires PollVerdicts(s)[k] != Busy || k == POLL_BUDGET - 1
    ensures PollEnds(s, Polled(s, k + 1), PollVerdicts(s)[k], Upcoming(s, k, STATUS_REPLY_SIZE))
  {
    var st := PollVerdicts(s);
    PollVerdictAt(s, k);
    if st[k] != Busy {
      LoopCountSettles(st, k);
    } else {
      LoopCountExhausts(st);
    }
  }

  /** The status poll ends on a Busy reply exactly when it never settles. */
  lemma PollGivesUp(s: Hid)
    ensures LastStatus(s) == Busy <==> NeverSettles(PollVerdicts(s))
  {
    LoopEnds(PollVerdicts(s));
    PollVerdictAt(s, PollCount(s) - 1);
  }

  /** A write leaves the script and the reads alone, so it does not change how
      a following status poll ends. */
  lemma PollAfterWrite(s: Hid, frame: seq<Byte>)
    ensures PollVerdicts(AfterWrite(s, frame)) == PollVerdicts(s)
    ensures PollCount(AfterWrite(s, frame)) == PollCount(s)
    ensures LastStatus(AfterWrite(s, frame)) == LastStatus(s)
    ensures LastStatusReply(AfterWrite(s, frame)) == LastStatusReply(s)
  {
    var s1 := AfterWrite(s, frame);
    assert s1.script == s.script && s1.readSizes == s.readSizes;
    assert PollVerdicts(s1) == StatusVerdicts(s.script, |s.readSizes|);
    assert PollCount(s1) == PollCount(s);
    assert Upcoming(s1, PollCount(s) - 1, STATUS_REPLY_SIZE) == Upcoming(s, PollCount(s) - 1, STATUS_REPLY_SIZE);
  }

  /** The effects of one status poll: a Transfer Status Request, then a read of 7 bytes. */
  const POLL_EVENTS: seq<Event> := [Wrote(STATUS_REQUEST), ReadOf(STATUS_REPLY_SIZE)]

  /** The handle after n status polls: n Transfer Status Requests written and
      n reads of 7 bytes, each request before the read of its reply. */
  function Polled(s: Hid, n: nat): (t: Hid)
    ensures t.features == s.features && t.closed == s.closed && t.script == s.script
  {
    s.(written := s.written + Repeat([STATUS_REQUEST], n),
       readSizes := s.readSizes + Repeat([STATUS_REPLY_SIZE], n),
       events := s.events + Repeat(POLL_EVENTS, n))
  }

  // ---------------------------------------------------------------------------
  // read_byte and read_byte_data

  /** Write `request`, poll, and on a ready status force a one-byte read and
      return byte 3 of the 4-byte reply; a poll budget used up resets the
      bridge. */
  function ByteRead(s: Hid, request: seq<Byte>): (run: Run<Result<Byte>>)
    ensures |run.after.written| > |s.written| && run.after.written[..|s.written| + 1] == s.written + [request]
    ensures run.after.closed == (s.closed || run.result == Err(DeviceFault))
    ensures run.after.features == if run.result == Err(DeviceFault) then s.features + [RESET_REPORT] else s.features
  {
    var s1 := AfterWrite(s, request);
    var p := Polled(s1, PollCount(s1));
    match LastStatus(s1)
    case Ready =>
      var s2 := AfterWrite(p, ForceReadFrame(0x00, 0x01));
      var data := NextReply(s2, BYTE_REPLY_SIZE);
      var s3 := AfterRead(s2, BYTE_REPLY_SIZE);
      if |data| < BYTE_REPLY_SIZE then Run(Err(IndexOutOfRange), s3) else Run(Ok(data[3]), s3)
    case Unreadable => Run(Err(IndexOutOfRange), p)
    case Busy => Run(Err(DeviceFault), Recover(p))
  }

  /** A byte read whose status poll settles on a ready reply j: the request,
      j + 1 status polls and the force frame [0x12, 0x00, 0x01] are written;
      j + 1 reads of 7 bytes and one of 4; the result is byte 3 of the reply
      after the ready one, or an IndexOutOfRange when that reply is shorter. */
  lemma ByteReadWhenReady(s: Hid, request: seq<Byte>, j: nat)
    requires SettlesAt(PollVerdicts(s), j)
    requires StatusOf(Upcoming(s, j, STATUS_REPLY_SIZE)) == Status.Ready
    ensures ByteRead(s, request).after.written
         == s.written + [request] + Repeat([STATUS_REQUEST], j + 1) + [ForceReadFrame(0x00, 0x01)]
    ensures ByteRead(s, request).after.readSizes
         == s.readSizes + Repeat([STATUS_REPLY_SIZE], j + 1) + [BYTE_REPLY_SIZE]
    ensures ByteRead(s, request).after.features == s.features
    ensures ByteRead(s, request).after.closed == s.closed
    ensures ByteRead(s, request).result
         == if |Upcoming(s, j + 1, BYTE_REPLY_SIZE)| < BYTE_REPLY_SIZE then Err(IndexOutOfRange)
            else Ok(Upcoming(s, j + 1, BYTE_REPLY_SIZE)[3])
    ensures ByteRead(s, request).after.events
         == s.events + [Wrote(request)] + Repeat(POLL_EVENTS, j + 1)
            + [Wrote(ForceReadFrame(0x00, 0x01))] + [ReadOf(BYTE_REPLY_SIZE)]
  {
    var s1 := AfterWrite(s, request);
    LoopCountSettles(PollVerdicts(s), j);
    PollAfterWrite(s, request);
    assert PollCount(s1) == j + 1;
    assert LastStatus(s1) == Status.Ready;
    var p := Polled(s1, j + 1);
    RepeatLength(STATUS_REPLY_SIZE, j + 1);
    assert |p.readSizes| == |s.readSizes| + j + 1;
    var s2 := AfterWrite(p, ForceReadFrame(0x00, 0x01));
    assert NextReply(s2, BYTE_REPLY_SIZE) == Upcoming(s, j + 1, BYTE_REPLY_SIZE);
    assert ByteRead(s, request).after == AfterRead(s2, BYTE_REPLY_SIZE);
  }

  /** A byte read whose status poll settles on an unindexable reply j fails
      right there: no force frame, no further read, no reset. */
  lemma ByteReadWhenUnreadable(s: Hid, request: seq<Byte>, j: nat)
    requires SettlesAt(PollVerdicts(s), j)
    requires StatusOf(Upcoming(s, j, STATUS_REPLY_SIZE)) == Unreadable
    ensures ByteRead(s, request).result == Err(IndexOutOfRange)
    ensures ByteRead(s, request).after.written == s.written + [request] + Repeat([STATUS_REQUEST], j + 1)
    ensures ByteRead(s, request).after.readSizes == s.readSizes + Repeat([STATUS_REPLY_SIZE], j + 1)
    ensures ByteRead(s, request).after.features == s.features
    ensures ByteRead(s, request).after.closed == s.closed
    ensures ByteRead(s, request).after.events == s.events + [Wrote(request)] + Repeat(POLL_EVENTS, j + 1)
  {
    var s1 := AfterWrite(s, request);
    LoopCountSettles(PollVerdicts(s), j);
    PollAfterWrite(s, request);
    assert PollCount(s1) == j + 1;
    assert LastStatus(s1) == Unreadable;
    assert ByteRead(s, request) == Run(Err(IndexOutOfRange), Polled(s1, j + 1));
  }

  /** A byte read that sees no ready or unindexable reply in ten polls: the
      request and ten status polls, ten reads, then one reset report and the
      handle closed, and a DeviceFault. */
  lemma ByteReadWhenExhausted(s: Hid, request: seq<Byte>)
    requires NeverSettles(PollVerdicts(s))
    ensures ByteRead(s, request).result == Err(DeviceFault)
    ensures ByteRead(s, request).after.written == s.written + [request] + Repeat([STATUS_REQUEST], POLL_BUDGET)
    ensures ByteRead(s, request).after.readSizes == s.readSizes + Repeat([STATUS_REPLY_SIZE], POLL_BUDGET)
    ensures ByteRead(s, request).after.features == s.features + [RESET_REPORT]
    ensures ByteRead(s, request).after.closed
    ensures ByteRead(s, request).after.events
         == s.events + [Wrote(request)] + Repeat(POLL_EVENTS, POLL_BUDGET) + [Reported(RESET_REPORT), Closed]
  {
    var s1 := AfterWrite(s, request);
    LoopCountExhausts(PollVerdicts(s));
    PollAfterWrite(s, request);
    assert PollCount(s1) == POLL_BUDGET;
    assert LastStatus(s1) == Busy;
    assert ByteRead(s, request) == Run(Err(DeviceFault), Recover(Polled(s1, POLL_BUDGET)));
  }

  /** A byte read fails with a DeviceFault, and so resets the bridge, exactly
      when none of the ten status replies it may read settles the poll. */
  lemma ByteReadFaultsIffNeverSettles(s: Hid, request: seq<Byte>)
    ensures ByteRead(s, request).result == Err(DeviceFault) <==> NeverSettles(PollVerdicts(s))
  {
    var s1 := AfterWrite(s, request);
    PollGivesUp(s);
    PollAfterWrite(s, request);
    assert ByteRead(s, request).result == Err(DeviceFault) <==> LastStatus(s1) == Busy;
  }

  // ---------------------------------------------------------------------------
  // read_i2c_block

  /** The size of the read that fetches a block of `length` bytes: the bytes and their header. */
  function BlockReadSize(length: Byte): nat {
    length + BLOCK_HEADER
  }

  /** Write a Data Read Request for `length` bytes, poll, and on a ready status
      force a read of the count in bytes 5 and 6 of the status reply, read
      length + 3 bytes and return what follows the 3-byte header. */
  function BlockRead(s: Hid, address: int, length: Byte): (run: Run<Result<seq<Byte>>>)
    requires ValidAddress(address)
    ensures run.result.Ok? ==> |run.result.value| <= length
  {
    var s1 := AfterWrite(s, ReadRequestFrame(address, length));
    var p := Polled(s1, PollCount(s1));
    match LastStatus(s1)
    case Ready =>
      var status := LastStatusReply(s1);
      if |status| < STATUS_REPLY_SIZE then Run(Err(IndexOutOfRange), p)
      else
        var s2 := AfterWrite(p, ForceReadFrame(status[5], status[6]));
        var data := NextReply(s2, BlockReadSize(length));
        Run(Ok(BlockPayload(data)), AfterRead(s2, BlockReadSize(length)))
    case Unreadable => Run(Err(IndexOutOfRange), p)
    case Busy => Run(Err(DeviceFault), Recover(p))
  }

  /** A block read whose status poll settles on a ready 7-byte reply j: the
      request, j + 1 status polls, then a force frame carrying bytes 5 and 6
      of that reply; length + 3 bytes are read and the result is what follows
      their 3-byte header. */
  lemma BlockReadWhenReady(s: Hid, address: int, length: Byte, j: nat)
    requires ValidAddress(address)
    requires SettlesAt(PollVerdicts(s), j)
    requires StatusOf(Upcoming(s, j, STATUS_REPLY_SIZE)) == Status.Ready
    requires |Upcoming(s, j, STATUS_REPLY_SIZE)| == STATUS_REPLY_SIZE
    ensures BlockRead(s, address, length).after.written
         == s.written + [ReadRequestFrame(address, length)] + Repeat([STATUS_REQUEST], j + 1)
            + [ForceReadFrame(Upcoming(s, j, STATUS_REPLY_SIZE)[5], Upcoming(s, j, STATUS_REPLY_SIZE)[6])]
    ensures BlockRead(s, address, length).after.readSizes
         == s.readSizes + Repeat([STATUS_REPLY_SIZE], j + 1) + [BlockReadSize(length)]
    ensures BlockRead(s, address, length).after.features == s.features
    ensures BlockRead(s, address, length).after.closed == s.closed
    ensures BlockRead(s, address, length).result
         == Ok(BlockPayload(Upcoming(s, j + 1, BlockReadSize(length))))
    ensures BlockRead(s, address, length).after.events
         == s.events + [Wrote(ReadRequestFrame(address, length))] + Repeat(POLL_EVENTS, j + 1)
            + [Wrote(ForceReadFrame(Upcoming(s, j, STATUS_REPLY_SIZE)[5], Upcoming(s, j, STATUS_REPLY_SIZE)[6]))]
            + [ReadOf(BlockReadSize(length))]
  {
    var s1 := AfterWrite(s, ReadRequestFrame(address, length));
    var status := Upcoming(s, j, STATUS_REPLY_SIZE);
    LoopCountSettles(PollVerdicts(s), j);
    PollAfterWrite(s, ReadRequestFrame(address, length));
    assert PollCount(s1) == j + 1;
    assert LastStatus(s1) == Status.Ready;
    assert LastStatusReply(s1) == status;
    var p := Polled(s1, j + 1);
    RepeatLength(STATUS_REPLY_SIZE, j + 1);
    assert |p.readSizes| == |s.readSizes| + j + 1;
    var s2 := AfterWrite(p, ForceReadFrame(status[5], status[6]));
    var data := Upcoming(s, j + 1, BlockReadSize(length));
    assert NextReply(s2, BlockReadSize(length)) == data;
    assert BlockRead(s, address, length) == Run(Ok(BlockPayload(data)), AfterRead(s2, BlockReadSize(length)));
  }

  /** A ready status reply shorter than 7 bytes has no bytes 5 and 6: the block
      read fails before any force frame, and without a reset. */
  lemma BlockReadWhenStatusShort(s: Hid, address: int, length: Byte, j: nat)
    requires ValidAddress(address)
    requires SettlesAt(PollVerdicts(s), j)
    requires StatusOf(Upcoming(s, j, STATUS_REPLY_SIZE)) == Status.Ready
    requires |Upcoming(s, j, STATUS_REPLY_SIZE)| < STATUS_REPLY_SIZE
    ensures BlockRead(s, address, length).result == Err(IndexOutOfRange)
    ensures BlockRead(s, address, length).after.written
         == s.written + [ReadRequestFrame(address, length)] + Repeat([STATUS_REQUEST], j + 1)
    ensures BlockRead(s, address, length).after.readSizes == s.readSizes + Repeat([STATUS_REPLY_SIZE], j + 1)
    ensures BlockRead(s, address, length).after.features == s.features
    ensures BlockRead(s, address, length).after.closed == s.closed
    ensures BlockRead(s, address, length).after.events
         == s.events + [Wrote(ReadRequestFrame(address, length))] + Repeat(POLL_EVENTS, j + 1)
  {
    var s1 := AfterWrite(s, ReadRequestFrame(address, length));
    LoopCountSettles(PollVerdicts(s), j);
    PollAfterWrite(s, ReadRequestFrame(address, length));
    assert PollCount(s1) == j + 1;
    assert LastStatus(s1) == Status.Ready;
    assert |LastStatusReply(s1)| < STATUS_REPLY_SIZE;
    assert BlockRead(s, address, length) == Run(Err(IndexOutOfRange), Polled(s1, j + 1));
  }

  /** A block read whose status poll settles on an unindexable reply j fails
      right there, without a reset. */
  lemma BlockReadWhenUnreadable(s: Hid, address: int, length: Byte, j: nat)
    requires ValidAddress(address)
    requires SettlesAt(PollVerdicts(s), j)
    requires StatusOf(Upcoming(s, j, STATUS_REPLY_SIZE)) == Unreadable
    ensures BlockRead(s, address, length).result == Err(IndexOutOfRange)
    ensures BlockRead(s, address, length).after.written
         == s.written + [ReadRequestFrame(address, length)] + Repeat([STATUS_REQUEST], j + 1)
    ensures BlockRead(s, address, length).after.readSizes == s.readSizes + Repeat([STATUS_REPLY_SIZE], j + 1)
    ensures BlockRead(s, address, length).after.features == s.features
    ensures BlockRead(s, address, length).after.closed == s.closed
    ensures BlockRead(s, address, length).after.events
         == s.events + [Wrote(ReadRequestFrame(address, length))] + Repeat(POLL_EVENTS, j + 1)
  {
    var s1 := AfterWrite(s, ReadRequestFrame(address, length));
    LoopCountSettles(PollVerdicts(s), j);
    PollAfterWrite(s, ReadRequestFrame(address, length));
    assert PollCount(s1) == j + 1;
    assert LastStatus(s1) == Unreadable;
    assert BlockRead(s, address, length) == Run(Err(IndexOutOfRange), Polled(s1, j + 1));
  }

  /** A block read that sees no ready or unindexable reply in ten polls resets
      the bridge, closes the handle and fails with a DeviceFault. */
  lemma BlockReadWhenExhausted(s: Hid, address: int, length: Byte)
    requires ValidAddress(address)
    requires NeverSettles(PollVerdicts(s))
    ensures BlockRead(s, address, length).result == Err(DeviceFault)
    ensures BlockRead(s, address, length).after.written
         == s.written + [ReadRequestFrame(address, length)] + Repeat([STATUS_REQUEST], POLL_BUDGET)
    ensures BlockRead(s, address, length).after.readSizes == s.readSizes + Repeat([STATUS_REPLY_SIZE], POLL_BUDGET)
    ensures BlockRead(s, address, length).after.features == s.features + [RESET_REPORT]
    ensures BlockRead(s, address, length).after.closed
    ensures BlockRead(s, address, length).after.events
         == s.events + [Wrote(ReadRequestFrame(address, length))] + Repeat(POLL_EVENTS, POLL_BUDGET)
            + [Reported(RESET_REPORT), Closed]
  {
    var s1 := AfterWrite(s, ReadRequestFrame(address, length));
    LoopCountExhausts(PollVerdicts(s));
    PollAfterWrite(s, ReadRequestFrame(address, length));
    assert PollCount(s1) == POLL_BUDGET;
    assert LastStatus(s1) == Busy;
    assert BlockRead(s, address, length) == Run(Err(DeviceFault), Recover(Polled(s1, POLL_BUDGET)));
  }

  /** A block read fails with a DeviceFault exactly when none of the ten
      status replies it may read settles the poll. */
  lemma BlockReadFaultsIffNeverSettles(s: Hid, address: int, length: Byte)
    requires ValidAddress(address)
    ensures BlockRead(s, address, length).result == Err(DeviceFault) <==> NeverSettles(PollVerdicts(s))
  {
    var s1 := AfterWrite(s, ReadRequestFrame(address, length));
    PollGivesUp(s);
    PollAfterWrite(s, ReadRequestFrame(address, length));
    assert BlockRead(s, address, length).result == Err(DeviceFault) <==> LastStatus(s1) == Busy;
  }

  // ---------------------------------------------------------------------------
  // read_word_data

  /** The word loop's verdict on each of the POLL_BUDGET replies it may read from s. */
  function WordVerdicts(s: Hid): (st: seq<Status>)
    ensures |st| == POLL_BUDGET
  {
    WordVerdictsFrom(s.script, |s.readSizes|)
  }

  /** The word verdicts on the replies of script q from position b on. */
  function WordVerdictsFrom(q: seq<seq<Byte>>, b: nat): (st: seq<Status>)
    ensures |st| == POLL_BUDGET
  {
    seq(POLL_BUDGET, i requires 0 <= i < POLL_BUDGET => WordStatusOf(ReplyAt(q, b + i, WORD_REPLY_SIZE)))
  }

  /** Verdict i is the word verdict on the i-th reply from s on. */
  lemma WordVerdictAt(s: Hid, i: nat)
    requires i < POLL_BUDGET
    ensures WordVerdicts(s)[i] == WordStatusOf(Upcoming(s, i, WORD_REPLY_SIZE))
  {
  }

  /** The number of 10-byte reads a word read makes from state s. */
  function WordCount(s: Hid): (n: nat)
    ensures 1 <= n <= POLL_BUDGET
  {
    LoopCount(WordVerdicts(s))
  }

  /** The last reply a word read looks at. */
  function LastWordReply(s: Hid): seq<Byte> {
    Upcoming(s, WordCount(s) - 1, WORD_REPLY_SIZE)
  }

  /** The verdict on the last reply a word read looks at. */
  function LastWordStatus(s: Hid): Status {
    WordStatusOf(LastWordReply(s))
  }

  /** Request pairs a word read writes: one up front and one after every reply
      it passes over. */
  function WordPairs(s: Hid): nat {
    if LastWordStatus(s) == Busy then WordCount(s) + 1 else WordCount(s)
  }

  /** The request pair of a word read of `register`: a Data Write-Read Request
      for two bytes, then the force frame [0x12, 0x00, 0x02]. */
  function WordRequestPair(address: int, register: Byte): (pair: seq<seq<Byte>>)
    requires ValidAddress(address)
    ensures |pair| == 2
  {
    [WriteReadRequestFrame(address, 0x02, register), ForceReadFrame(0x00, 0x02)]
  }

  /** The write events of the frames of `pair`, in order. */
  function Writes(pair: seq<seq<Byte>>): (e: seq<Event>)
    ensures |e| == |pair| && forall i :: 0 <= i < |pair| ==> e[i] == Wrote(pair[i])
  {
    seq(|pair|, i requires 0 <= i < |pair| => Wrote(pair[i]))
  }

  /** The effects of a word loop that wrote `pairs` request pairs and made
      `count` reads, `count` being `pairs - 1` or `pairs`: the first pair, then
      for every reply passed over its read and the pair again, then the read
      of the reply the loop stopped at, if it made one. */
  function WordEvents(pair: seq<seq<Byte>>, pairs: nat, count: nat): seq<Event> {
    if pairs == 0 then []
    else if count >= pairs then
      Writes(pair) + Repeat([ReadOf(WORD_REPLY_SIZE)] + Writes(pair), pairs - 1) + [ReadOf(WORD_REPLY_SIZE)]
    else Writes(pair) + Repeat([ReadOf(WORD_REPLY_SIZE)] + Writes(pair), pairs - 1)
  }

  /** Writing a pair after the loop's n-th read extends its effects to n + 1 pairs. */
  lemma PairEventsSnoc(e: seq<Event>, pair: seq<seq<Byte>>, n: nat)
    requires |pair| == 2
    ensures e + WordEvents(pair, n, n) + [Wrote(pair[0])] + [Wrote(pair[1])] == e + WordEvents(pair, n + 1, n)
  {
    var w := Writes(pair);
    assert w == [Wrote(pair[0]), Wrote(pair[1])];
    var r := [ReadOf(WORD_REPLY_SIZE)];
    if n == 0 {
      assert WordEvents(pair, 1, 0) == w + Repeat(r + w, 0);
    } else {
      assert WordEvents(pair, n, n) == w + Repeat(r + w, n - 1) + r;
      assert WordEvents(pair, n + 1, n) == w + Repeat(r + w, n);
      assert Repeat(r + w, n) == Repeat(r + w, n - 1) + (r + w);
    }
  }

  /** The loop's read after its n-th pair extends its effects to n + 1 reads. */
  lemma ReadEventsSnoc(e: seq<Event>, pair: seq<seq<Byte>>, n: nat)
    ensures e + WordEvents(pair, n + 1, n) + [ReadOf(WORD_REPLY_SIZE)] == e + WordEvents(pair, n + 1, n + 1)
  {
    assert WordEvents(pair, n + 1, n + 1) == WordEvents(pair, n + 1, n) + [ReadOf(WORD_REPLY_SIZE)];
  }

  /** The handle after `pairs` request pairs and `count` reads of 10 bytes. */
  function WordPolled(s: Hid, pair: seq<seq<Byte>>, pairs: nat, count: nat): (t: Hid)
    ensures t.features == s.features && t.closed == s.closed && t.script == s.script
  {
    s.(written := s.written + Repeat(pair, pairs),
       readSizes := s.readSizes + Repeat([WORD_REPLY_SIZE], count),
       events := s.events + WordEvents(pair, pairs, count))
  }

  /** Before its first pair the word loop has changed nothing. */
  lemma WordPolledStart(s: Hid, pair: seq<seq<Byte>>)
    ensures WordPolled(s, pair, 0, 0) == s
  {
  }

  /** The word loop from state s ends in state t, with `last` the verdict on
      the last reply `reply` it read. */
  predicate WordEnds(s: Hid, pair: seq<seq<Byte>>, t: Hid, last: Status, reply: seq<Byte>) {
    t == WordPolled(s, pair, WordPairs(s), WordCount(s)) && last == LastWordStatus(s) && reply == LastWordReply(s)
  }

  /** A word loop that passed over replies 0 .. k-1 and settles at reply k
      has written k + 1 request pairs, read k + 1 replies, and ends on reply k. */
  lemma WordSettlesAt(s: Hid, pair: seq<seq<Byte>>, k: nat)
    requires k < POLL_BUDGET
    requires forall i :: 0 <= i < k ==> WordVerdicts(s)[i] == Busy
    requires WordVerdicts(s)[k] != Busy
    ensures WordEnds(s, pair, WordPolled(s, pair, k + 1, k + 1), WordVerdicts(s)[k], Upcoming(s, k, WORD_REPLY_SIZE))
  {
    WordVerdictAt(s, k);
    LoopCountSettles(WordVerdicts(s), k);
  }

  /** A word loop that passes over all ten replies has written eleven request
      pairs, read ten replies, and ends on the last one. */
  lemma WordExhausts(s: Hid, pair: seq<seq<Byte>>)
    requires NeverSettles(WordVerdicts(s))
    ensures WordEnds(s, pair, WordPolled(s, pair, POLL_BUDGET + 1, POLL_BUDGET), Busy,
                     Upcoming(s, POLL_BUDGET - 1, WORD_REPLY_SIZE))
  {
    WordVerdictAt(s, POLL_BUDGET - 1);
    LoopCountExhausts(WordVerdicts(s));
  }

  /** Read k of the word loop answers with reply k and adds one read to the logs. */
  lemma WordReadStep(s: Hid, pair: seq<seq<Byte>>, k: nat)
    ensures NextReply(WordPolled(s, pair, k + 1, k), WORD_REPLY_SIZE) == Upcoming(s, k, WORD_REPLY_SIZE)
    ensures AfterRead(WordPolled(s, pair, k + 1, k), WORD_REPLY_SIZE) == WordPolled(s, pair, k + 1, k + 1)
  {
    var t := WordPolled(s, pair, k + 1, k);
    RepeatLength(WORD_REPLY_SIZE, k);
    assert |t.readSizes| == |s.readSizes| + k;
    RepeatSnoc(s.readSizes, [WORD_REPLY_SIZE], k);
    ReadEventsSnoc(s.events, pair, k);
    assert t.readSizes + [WORD_REPLY_SIZE] == s.readSizes + Repeat([WORD_REPLY_SIZE], k + 1);
  }

  /** Reply k of the word loop, after k passed-over replies, ends the loop
      when it settles it or when the budget is used up. */
  lemma WordPollStep(s: Hid, pair: seq<seq<Byte>>, k: nat)
    requires k < POLL_BUDGET
    requires forall i :: 0 <= i < k ==> WordVerdicts(s)[i] == Busy
    ensures WordVerdicts(s)[k] == WordStatusOf(Upcoming(s, k, WORD_REPLY_SIZE))
    ensures WordVerdicts(s)[k] != Busy ==>
      WordEnds(s, pair, WordPolled(s, pair, k + 1, k + 1), WordVerdicts(s)[k], Upcoming(s, k, WORD_REPLY_SIZE))
    ensures WordVerdicts(s)[k] == Busy && k == POLL_BUDGET - 1 ==>
      WordEnds(s, pair, WordPolled(s, pair, k + 2, k + 1), WordVerdicts(s)[k], Upcoming(s, k, WORD_REPLY_SIZE))
  {
    WordVerdictAt(s, k);
    if WordVerdicts(s)[k] != Busy {
      WordSettlesAt(s, pair, k);
    } else if k == POLL_BUDGET - 1 {
      WordExhausts(s, pair);
    }
  }

  /** The word loop ends on a Busy reply exactly when it never settles. */
  lemma WordGivesUp(s: Hid)
    ensures LastWordStatus(s) == Busy <==> NeverSettles(WordVerdicts(s))
  {
    LoopEnds(WordVerdicts(s));
    WordVerdictAt(s, WordCount(s) - 1);
  }

  /** Write the request pair, then up to ten times read 10 bytes, stopping at a
      reply that is ready or cannot be indexed and writing the pair again after
      any other; a ready reply gives (byte 4 << 8) + byte 3. */
  function WordRead(s: Hid, address: int, register: Byte): (run: Run<Result<int>>)
    requires ValidAddress(address)
    ensures run.result.Ok? ==> 0 <= run.result.value < 0x1_0000
  {
    var t := WordPolled(s, WordRequestPair(address, register), WordPairs(s), WordCount(s));
    match LastWordStatus(s)
    case Ready => Run(Ok(WordValue(LastWordReply(s))), t)
    case Unreadable => Run(Err(IndexOutOfRange), t)
    case Busy => Run(Err(DeviceFault), Recover(t))
  }

  /** How a word read ends follows from how its loop ends. */
  lemma WordReadFromEnds(s: Hid, address: int, register: Byte, t: Hid, last: Status, reply: seq<Byte>)
    requires ValidAddress(address)
    requires WordEnds(s, WordRequestPair(address, register), t, last, reply)
    ensures last == Status.Ready ==> |reply| >= 5 && WordRead(s, address, register) == Run(Ok(WordValue(reply)), t)
    ensures last == Unreadable ==> WordRead(s, address, register) == Run(Err(IndexOutOfRange), t)
    ensures last == Busy ==> WordRead(s, address, register) == Run(Err(DeviceFault), Recover(t))
  {
  }

  /** A word read whose loop settles on a ready reply j: j + 1 request pairs
      (one up front, one after each of the j replies before), j + 1 reads of
      10 bytes, and the little-endian word in bytes 3 and 4 of reply j. */
  lemma WordReadWhenReady(s: Hid, address: int, register: Byte, j: nat)
    requires ValidAddress(address)
    requires SettlesAt(WordVerdicts(s), j)
    requires WordStatusOf(Upcoming(s, j, WORD_REPLY_SIZE)) == Status.Ready
    ensures |Upcoming(s, j, WORD_REPLY_SIZE)| >= 5
    ensures WordRead(s, address, register).result
         == Ok(Upcoming(s, j, WORD_REPLY_SIZE)[4] as int * 256 + Upcoming(s, j, WORD_REPLY_SIZE)[3])
    ensures WordRead(s, address, register).after.written
         == s.written + Repeat(WordRequestPair(address, register), j + 1)
    ensures WordRead(s, address, register).after.readSizes
         == s.readSizes + Repeat([WORD_REPLY_SIZE], j + 1)
    ensures WordRead(s, address, register).after.features == s.features
    ensures WordRead(s, address, register).after.closed == s.closed
    ensures WordRead(s, address, register).after.events
         == s.events + (Writes(WordRequestPair(address, register)) + Repeat([ReadOf(WORD_REPLY_SIZE)] + Writes(WordRequestPair(address, register)), j)
                        + [ReadOf(WORD_REPLY_SIZE)])
  {
    var reply := Upcoming(s, j, WORD_REPLY_SIZE);
    LoopCountSettles(WordVerdicts(s), j);
    assert WordCount(s) == j + 1 && WordPairs(s) == j + 1;
    assert LastWordStatus(s) == Status.Ready;
    assert LastWordReply(s) == reply;
    var t := WordPolled(s, WordRequestPair(address, register), j + 1, j + 1);
    assert WordRead(s, address, register) == Run(Ok(WordValue(reply)), t);
  }

  /** A word read whose loop settles on an unindexable reply j fails right
      there, after j + 1 request pairs and j + 1 reads, without a reset. */
  lemma WordReadWhenUnreadable(s: Hid, address: int, register: Byte, j: nat)
    requires ValidAddress(address)
    requires SettlesAt(WordVerdicts(s), j)
    requires WordStatusOf(Upcoming(s, j, WORD_REPLY_SIZE)) == Unreadable
    ensures WordRead(s, address, register).result == Err(IndexOutOfRange)
    ensures WordRead(s, address, register).after.written
         == s.written + Repeat(WordRequestPair(address, register), j + 1)
    ensures WordRead(s, address, register).after.readSizes
         == s.readSizes + Repeat([WORD_REPLY_SIZE], j + 1)
    ensures WordRead(s, address, register).after.features == s.features
    ensures WordRead(s, address, register).after.closed == s.closed
    ensures WordRead(s, address, register).after.events
         == s.events + (Writes(WordRequestPair(address, register)) + Repeat([ReadOf(WORD_REPLY_SIZE)] + Writes(WordRequestPair(address, register)), j)
                        + [ReadOf(WORD_REPLY_SIZE)])
  {
    LoopCountSettles(WordVerdicts(s), j);
    assert WordCount(s) == j + 1 && WordPairs(s) == j + 1;
    assert LastWordStatus(s) == Unreadable;
    var t := WordPolled(s, WordRequestPair(address, register), j + 1, j + 1);
    assert WordRead(s, address, register) == Run(Err(IndexOutOfRange), t);
  }

  /** A word read that sees no ready or unindexable reply in ten reads: eleven
      request pairs (one up front, one after each reply), ten reads, one reset
      report, the handle closed, and a DeviceFault. */
  lemma WordReadWhenExhausted(s: Hid, address: int, register: Byte)
    requires ValidAddress(address)
    requires NeverSettles(WordVerdicts(s))
    ensures WordRead(s, address, register).result == Err(DeviceFault)
    ensures WordRead(s, address, register).after.written
         == s.written + Repeat(WordRequestPair(address, register), POLL_BUDGET + 1)
    ensures WordRead(s, address, register).after.readSizes
         == s.readSizes + Repeat([WORD_REPLY_SIZE], POLL_BUDGET)
    ensures WordRead(s, address, register).after.features == s.features + [RESET_REPORT]
    ensures WordRead(s, address, register).after.closed
    ensures WordRead(s, address, register).after.events
         == s.events + (Writes(WordRequestPair(address, register)) + Repeat([ReadOf(WORD_REPLY_SIZE)] + Writes(WordRequestPair(address, register)), POLL_BUDGET))
            + [Reported(RESET_REPORT), Closed]
  {
    LoopCountExhausts(WordVerdicts(s));
    assert WordCount(s) == POLL_BUDGET && WordPairs(s) == POLL_BUDGET + 1;
    assert LastWordStatus(s) == Busy;
    var t := WordPolled(s, WordRequestPair(address, register), POLL_BUDGET + 1, POLL_BUDGET);
    assert WordRead(s, address, register) == Run(Err(DeviceFault), Recover(t));
  }

  /** A word read fails with a DeviceFault exactly when none of the ten
      replies it may read settles its loop. */
  lemma WordReadFaultsIffNeverSettles(s: Hid, address: int, register: Byte)
    requires ValidAddress(address)
    ensures WordRead(s, address, register).result == Err(DeviceFault) <==> NeverSettles(WordVerdicts(s))
  {
    WordGivesUp(s);
    assert WordRead(s, address, register).result == Err(DeviceFault) <==> LastWordStatus(s) == Busy;
  }
}
