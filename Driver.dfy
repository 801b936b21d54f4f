/** The HIDDriver class: the command layer of a CP2112 USB-to-I2C bridge,
    talking to the bridge through a handle. Each method does what the driver
    method of the same name does, and its contract ties what it returns and
    the handle it leaves behind to the closed forms of module Engine. */
module Driver {
  import opened Frames
  import opened Transport
  import opened Engine

  class HIDDriver {
    /** The bridge's HID handle. */
    const h: FakeHid

    /** A driver on an already opened and configured handle. */
    constructor (h: FakeHid)
      ensures this.h == h
    {
      this.h := h;
    }

    /** Reset the bridge, cancelling every transfer, and release the handle;
        the driver then gives up with a DeviceFault. */
    method I2CError<T>() returns (r: Result<T>)
      modifies h
      ensures h.State() == Recover(old(h.State()))
      ensures r == Err(DeviceFault)
    {
      h.SendFeatureReport(RESET_REPORT);
      h.Close();
      r := Err(DeviceFault);
    }

    /** One iteration of the status poll: a Transfer Status Request, then a
        read of 7 bytes and the verdict on it. */
    method StatusPoll(ghost s0: Hid, k: nat) returns (last: Status, reply: seq<Byte>)
      requires h.State() == Polled(s0, k) && k < POLL_BUDGET
      requires forall i :: 0 <= i < k ==> PollVerdicts(s0)[i] == Busy
      modifies h
      ensures h.State() == Polled(s0, k + 1)
      ensures last == PollVerdicts(s0)[k] && last == StatusOf(reply)
      ensures last != Busy || k == POLL_BUDGET - 1 ==> PollEnds(s0, h.State(), last, reply)
      ensures forall i :: 0 <= i < k + 1 && last == Busy ==> PollVerdicts(s0)[i] == Busy
    {
      var _ := h.Write(STATUS_REQUEST);
      reply := h.Read(STATUS_REPLY_SIZE);
      last := StatusOf(reply);
      PollVerdictAt(s0, k);
      RepeatSnoc(s0.written, [STATUS_REQUEST], k);
      RepeatSnoc(s0.readSizes, [STATUS_REPLY_SIZE], k);
      RepeatLength(STATUS_REPLY_SIZE, k);
      if last != Busy || k == POLL_BUDGET - 1 {
        PollStopsAt(s0, k);
      }
    }

    /** The status poll loop of read_byte, read_byte_data and read_i2c_block:
        up to ten times, send a Transfer Status Request and read 7 bytes,
        stopping at the first reply that is ready or cannot be indexed. */
    method PollStatus() returns (last: Status, reply: seq<Byte>)
      modifies h
      ensures PollEnds(old(h.State()), h.State(), last, reply)
    {
      ghost var s0 := h.State();
      last, reply := Busy, [];
      assert Polled(s0, 0) == s0;
      for k := 0 to POLL_BUDGET
        invariant h.State() == Polled(s0, k)
        invariant forall i :: 0 <= i < k ==> PollVerdicts(s0)[i] == Busy
        invariant k == POLL_BUDGET ==> PollEnds(s0, h.State(), last, reply)
      {
        last, reply := StatusPoll(s0, k);
        if last != Busy {
          return;
        }
      }
    }

    /** The shared body of read_byte and read_byte_data, after their request. */
    method ByteTransaction(request: seq<Byte>) returns (r: Result<Byte>)
      modifies h
      ensures Run(r, h.State()) == ByteRead(old(h.State()), request)
    {
      var _ := h.Write(request);
      var last, status := PollStatus();
      match last
      case Ready =>
        var _ := h.Write(ForceReadFrame(0x00, 0x01));
        var data := h.Read(BYTE_REPLY_SIZE);
        if |data| < BYTE_REPLY_SIZE {
          r := Err(IndexOutOfRange);
        } else {
          r := Ok(data[3]);
        }
      case Unreadable =>
        r := Err(IndexOutOfRange);
      case Busy =>
        r := I2CError();
    }

    /** write_byte: one Data Write Request carrying `value`; returns what the
        handle's write returns. */
    method WriteByte(address: int, value: Byte) returns (n: int)
      requires ValidAddress(address)
      modifies h
      ensures h.State() == AfterWrite(old(h.State()), WriteByteFrame(address, value))
      ensures n == |WriteByteFrame(address, value)|
    {
      n := h.Write([DATA_WRITE_REQUEST, AddressByte(address), 0x01, value]);
    }

    /** read_byte: a Data Read Request for one byte, then the byte transaction. */
    method ReadByte(address: int) returns (r: Result<Byte>)
      requires ValidAddress(address)
      modifies h
      ensures Run(r, h.State()) == ByteRead(old(h.State()), ReadRequestFrame(address, 0x01))
    {
      r := ByteTransaction(ReadRequestFrame(address, 0x01));
    }

    /** write_byte_data: one Data Write Request carrying `register`, then `value`. */
    method WriteByteData(address: int, register: Byte, value: Byte) returns (n: int)
      requires ValidAddress(address)
      modifies h
      ensures h.State() == AfterWrite(old(h.State()), WriteByteDataFrame(address, register, value))
      ensures n == |WriteByteDataFrame(address, register, value)|
    {
      n := h.Write([DATA_WRITE_REQUEST, AddressByte(address), 0x02, register, value]);
    }

    /** read_byte_data: a Data Write-Read Request of one byte of `register`,
        then the byte transaction. */
    method ReadByteData(address: int, register: Byte) returns (r: Result<Byte>)
      requires ValidAddress(address)
      modifies h
      ensures Run(r, h.State()) == ByteRead(old(h.State()), WriteReadRequestFrame(address, 0x01, register))
    {
      r := ByteTransaction(WriteReadRequestFrame(address, 0x01, register));
    }

    /** write_word_data: one Data Write Request carrying `register`, then the
        16-bit `value` high byte first. */
    method WriteWordData(address: int, register: Byte, value: int) returns (n: int)
      requires ValidAddress(address) && 0 <= value < 0x1_0000
      modifies h
      ensures h.State() == AfterWrite(old(h.State()), WriteWordDataFrame(address, register, value))
      ensures n == |WriteWordDataFrame(address, register, value)|
    {
      n := h.Write([DATA_WRITE_REQUEST, AddressByte(address), 0x03, register, value / 256, value % 256]);
    }

    /** The request pair of read_word_data: a Data Write-Read Request for two
        bytes of `register`, then a Data Read Force of two bytes. */
    method WritePair(address: int, register: Byte, ghost s0: Hid, ghost n: nat)
      requires ValidAddress(address)
      requires h.State() == WordPolled(s0, WordRequestPair(address, register), n, n)
      modifies h
      ensures h.State() == WordPolled(s0, WordRequestPair(address, register), n + 1, n)
    {
      ghost var pair := WordRequestPair(address, register);
      var _ := h.Write(WriteReadRequestFrame(address, 0x02, register));
      var _ := h.Write(ForceReadFrame(0x00, 0x02));
      RepeatSnoc(s0.written, pair, n);
      assert s0.written + Repeat(pair, n) + [pair[0]] + [pair[1]] == s0.written + Repeat(pair, n) + pair;
      PairEventsSnoc(s0.events, pair, n);
    }

    /** One iteration of the word loop: a read of 10 bytes and the verdict on it. */
    method WordPoll(ghost s0: Hid, ghost pair: seq<seq<Byte>>, k: nat) returns (last: Status, reply: seq<Byte>)
      requires h.State() == WordPolled(s0, pair, k + 1, k) && k < POLL_BUDGET
      requires forall i :: 0 <= i < k ==> WordVerdicts(s0)[i] == Busy
      modifies h
      ensures h.State() == WordPolled(s0, pair, k + 1, k + 1)
      ensures last == WordVerdicts(s0)[k] && last == WordStatusOf(reply)
      ensures last != Busy ==> WordEnds(s0, pair, h.State(), last, reply)
      ensures last == Busy && k == POLL_BUDGET - 1 ==> WordEnds(s0, pair, WordPolled(s0, pair, k + 2, k + 1), last, reply)
      ensures forall i :: 0 <= i < k + 1 && last == Busy ==> WordVerdicts(s0)[i] == Busy
    {
      WordReadStep(s0, pair, k);
      WordPollStep(s0, pair, k);
      reply := h.Read(WORD_REPLY_SIZE);
      last := WordStatusOf(reply);
    }

    /** Iteration k of read_word_data's loop: read and judge reply k, then
        finish with its result, or write the request pair again. */
    method WordIteration(address: int, register: Byte, ghost s0: Hid, k: nat)
      returns (done: bool, r: Result<int>, last: Status, reply: seq<Byte>)
      requires ValidAddress(address) && k < POLL_BUDGET
      requires h.State() == WordPolled(s0, WordRequestPair(address, register), k + 1, k)
      requires forall i :: 0 <= i < k ==> WordVerdicts(s0)[i] == Busy
      modifies h
      ensures done ==> Run(r, h.State()) == WordRead(s0, address, register)
      ensures !done ==> last == Busy && h.State() == WordPolled(s0, WordRequestPair(address, register), k + 2, k + 1)
      ensures !done ==> forall i :: 0 <= i < k + 1 ==> WordVerdicts(s0)[i] == Busy
      ensures !done && k == POLL_BUDGET - 1 ==>
        WordEnds(s0, WordRequestPair(address, register), h.State(), last, reply)
    {
      last, reply := WordPoll(s0, WordRequestPair(address, register), k);
      if last != Busy {
        WordReadFromEnds(s0, address, register, h.State(), last, reply);
      }
      match last
      case Ready =>
        return true, Ok(WordValue(reply)), last, reply;
      case Unreadable =>
        return true, Err(IndexOutOfRange), last, reply;
      case Busy =>
        WritePair(address, register, s0, k + 1);
        return false, Err(DeviceFault), last, reply;
    }

    /** read_word_data: write the request pair, then up to ten times read 10
        bytes, returning (byte 4 << 8) + byte 3 of a ready reply and writing
        the pair again after any reply it passes over; a budget used up
        resets the bridge. */
    method ReadWordData(address: int, register: Byte) returns (r: Result<int>)
      requires ValidAddress(address)
      modifies h
      ensures Run(r, h.State()) == WordRead(old(h.State()), address, register)
    {
      ghost var s0 := h.State();
      ghost var pair := WordRequestPair(address, register);
      WordPolledStart(s0, pair);
      WritePair(address, register, s0, 0);
      var last, reply := Busy, [];
      for k := 0 to POLL_BUDGET
        invariant h.State() == WordPolled(s0, pair, k + 1, k)
        invariant forall i :: 0 <= i < k ==> WordVerdicts(s0)[i] == Busy
        invariant k == POLL_BUDGET ==> last == Busy && WordEnds(s0, pair, h.State(), last, reply)
      {
        var done;
        done, r, last, reply := WordIteration(address, register, s0, k);
        if done {
          return;
        }
      }
      WordReadFromEnds(s0, address, register, h.State(), last, reply);
      r := I2CError();
    }

    /** write_block_data is not implemented. */
    method WriteBlockData(address: int, register: Byte, value: seq<Byte>) returns (r: Result<int>)
      ensures r == Err(NotImplemented)
    {
      r := Err(NotImplemented);
    }

    /** read_block_data is not implemented. */
    method ReadBlockData(address: int, register: Byte) returns (r: Result<seq<Byte>>)
      ensures r == Err(NotImplemented)
    {
      r := Err(NotImplemented);
    }

    /** write_i2c_block: one Data Write Request carrying all of `value`, which
        may hold at most 61 bytes; a longer one is refused before anything is
        written. */
    method WriteI2CBlock(address: int, value: seq<Byte>) returns (r: Result<int>)
      requires ValidAddress(address)
      modifies h
      ensures |value| > MAX_WRITE_PAYLOAD ==> r == Err(PayloadTooLong) && h.State() == old(h.State())
      ensures |value| <= MAX_WRITE_PAYLOAD ==>
                r == Ok(|value| + 3) && h.State() == AfterWrite(old(h.State()), DataWriteFrame(address, value))
    {
      if |value| > MAX_WRITE_PAYLOAD {
        return Err(PayloadTooLong);
      }
      var data := [DATA_WRITE_REQUEST, AddressByte(address), |value|];
      data := data + value;
      var n := h.Write(data);
      r := Ok(n);
    }

    /** read_i2c_block: a Data Read Request for `length` bytes, the status
        poll, then a Data Read Force of the count the ready status reply
        carries in bytes 5 and 6, a read of length + 3 bytes, and the bytes
        after the 3-byte header. */
    method ReadI2CBlock(address: int, length: Byte) returns (r: Result<seq<Byte>>)
      requires ValidAddress(address)
      modifies h
      ensures Run(r, h.State()) == BlockRead(old(h.State()), address, length)
    {
      var _ := h.Write(ReadRequestFrame(address, length));
      var last, status := PollStatus();
      match last
      case Ready =>
        if |status| < STATUS_REPLY_SIZE {
          r := Err(IndexOutOfRange);
        } else {
          var _ := h.Write(ForceReadFrame(status[5], status[6]));
          var data := h.Read(BlockReadSize(length));
          r := Ok(BlockPayload(data));
        }
      case Unreadable =>
        r := Err(IndexOutOfRange);
      case Busy =>
        r := I2CError();
    }

    /** write_i2c_block_data is not implemented. */
    method WriteI2CBlockData(address: int, register: Byte, value: seq<Byte>) returns (r: Result<int>)
      ensures r == Err(NotImplemented)
    {
      r := Err(NotImplemented);
    }

    /** read_i2c_block_data is not implemented. */
    method ReadI2CBlockData(address: int, register: Byte, length: int := 1) returns (r: Result<seq<Byte>>)
      ensures r == Err(NotImplemented)
    {
      r := Err(NotImplemented);
    }
  }
}
