# HIDDriver command layer, modelled in Dafny

`HIDDriver` (main.py) drives a CP2112-class USB-to-I2C bridge through vendor
HID reports. This project models its command layer and proves what that layer
sends to the bridge and what it returns.

**The write side.** `write_byte`, `write_byte_data`, `write_word_data` and
`write_i2c_block` each send one Data Write Request frame:

- byte 0 is `0x14`;
- byte 1 is `address << 1`;
- byte 2 is the payload length;
- the payload follows.

**The read side.** `read_byte`, `read_byte_data` and `read_i2c_block` each:

- send a read request;
- then, up to ten times, send a Transfer Status Request `[0x15, 0x01]` and read 7 bytes;
- stop at the first reply with byte 0 `0x16` and byte 2 `5`;
- then send a Data Read Force and read the data.

`read_word_data` works differently:

- it sends a Data Write-Read Request together with a Data Read Force;
- it then reads 10 bytes up to ten times;
- it re-sends that pair after every reply it passes over. A reply too short
  for the bytes it indexes ends the call instead, without re-sending.

A read that never sees a ready reply calls `I2CError`. That sends the reset
feature report `[0x01, 0x01]`, closes the handle and fails.

The files:

- `Frames.dfy` holds the bytes and report ids, and every frame the driver
  builds. It also holds a decoder for Data Write Request frames, with its
  round trip, and the reply classifiers.
- `Transport.dfy` holds `FakeHid`, a scripted stand-in for the `hid` handle.
  - It logs every frame passed to `write`, every feature report, and the size
    of every `read(n)`.
  - It answers the i-th `read(n)` with the i-th scripted reply, cut to
    n bytes. Once the script is used up it answers with an empty reply.
  - It remembers whether the handle was closed.
  - One more log, `events`, records every write, read, feature report and
    close in the order they happened. The contracts use it to fix the order
    of the handle's effects: each status request comes before the read of its
    reply, word-read pairs are re-sent after the read they follow, and the
    reset report is sent before the handle is closed.
  - `Hid` is the same state as a value.
- `Engine.dfy` holds the closed form of every read transaction over `Hid`
  values, and the lemmas that pin each one down. For each outcome they state
  which frames are written, which reads are made, which feature reports are
  sent, whether the handle ends closed, and what is returned. The outcomes
  are:
  - the poll settles on a ready reply;
  - the poll settles on a reply the driver cannot index;
  - the poll never settles.
- `Driver.dfy` holds class `HIDDriver` with one method per driver method.
  Each read method ensures that its result and the handle it leaves behind
  are exactly the closed form of Engine.

What the driver does with replies, as the code has it:

- A reply "settles" a poll when it is ready, or when it is too short for the
  byte the driver indexes next. A too-short reply is Python's `IndexError`;
  here it is `Err(IndexOutOfRange)`, with no reset.
- Byte 2 is only read when byte 0 matched, because `and` short-circuits.
- Any other reply just uses up an iteration: nothing aborts early.
- Addresses are 1 to 127 (main.py:58). Address 0 is not rejected by the code.
  It is a precondition here.
- `read_word_data` reads byte 3 as the low byte and byte 4 as the high byte.
  `write_word_data` sends the high byte first. Lemma
  `Frames.WordByteOrderDisagrees` states the consequence: a word echoed back
  in the layout it was written in reads back byte-swapped, unless its two
  bytes are equal.

Python's exceptions are modelled as the `Failure` values of a `Result`:

| exception | `Failure` value |
|---|---|
| `IOError` from `I2CError` | `DeviceFault` |
| `IndexError` from a too-long `write_i2c_block` payload | `PayloadTooLong` |
| `IndexError` from a too-short reply | `IndexOutOfRange` |
| `NotImplementedError` | `NotImplemented` |

## Model

| member | source | states |
|---|---|---|
| Frames.AddressByte | main.py:60 | `address << 1` of a 7-bit address is even, lies in 2..254 and halves back to the address |
| Frames.DataWriteFrame | main.py:121-122 | the Data Write Request is 3 bytes longer than its payload, carries the payload unchanged after the header, and decodes back to its address and payload |
| Frames.DecodeWrite | main.py:121-122 | a frame decodes only if it is exactly `[0x14, address<<1, len] + payload` for a valid address and at most 61 payload bytes |
| Frames.WriteByteFrame | main.py:59-60 | write_byte's frame is the Data Write Request of the one byte `value` |
| Frames.WriteByteDataFrame | main.py:75-76 | write_byte_data's frame is the Data Write Request of `[register, value]` |
| Frames.WriteWordDataFrame | main.py:93-94 | write_word_data's frame is a 6-byte Data Write Request whose payload is the register, then the value's high byte, then its low byte |
| Frames.ReadRequestFrame | main.py:63 | the Data Read Request is `[0x10, address<<1, 0, length]`, its two length bytes giving `length` |
| Frames.WriteReadRequestFrame | main.py:79 | the Data Write-Read Request carries the address, the read length and the one register byte to write |
| Frames.ForceReadFrame | main.py:69 | the Data Read Force is `[0x12, hi, lo]`, asking for `hi * 256 + lo` bytes |
| Frames.StatusOf | main.py:67-68 | a status reply is ready exactly when it has at least 3 bytes, byte 0 is 0x16 and byte 2 is 5; it cannot be indexed exactly when it is empty, or starts with 0x16 but has fewer than 3 bytes |
| Frames.WordStatusOf | main.py:104-105 | a word reply is ready exactly when it has at least 5 bytes, byte 0 is 0x13 and byte 2 is 2; it cannot be indexed exactly when it is empty, or starts with 0x13 but has fewer than 3 bytes, or also has byte 2 equal to 2 but fewer than 5 bytes |
| Frames.WordValue | main.py:105 | `(r[4] << 8) + r[3]` lies in 0..65535, with byte 3 as the low byte and byte 4 as the high byte |
| Frames.BlockPayload | main.py:139 | `data[3:]`: empty for a reply of at most 3 bytes, else the reply with its 3-byte header removed |
| Frames.WordByteOrderDisagrees | main.py:93-105 | a word echoed back in write_word_data's byte order reads back byte-swapped, and equal to the value only when its two bytes are equal |
| Engine.Recover | main.py:42-47 | I2CError appends the reset report `[0x01, 0x01]` to the feature reports and closes the handle, the report before the close, changing nothing else |
| Engine.Iterations | main.py:65-68 | a loop with budget 10 runs at least one more iteration and never past the budget |
| Engine.IterationsStop | main.py:65-68 | every reply the loop reads before its last one is passed over, and the last one is not, unless the ten iterations are used up |
| Engine.LoopCountSettles | main.py:65-71 | a loop whose first reply not passed over is reply j runs exactly j + 1 iterations |
| Engine.LoopCountExhausts | main.py:65-73 | a loop that passes over every reply runs all ten iterations and ends on a passed-over reply |
| Engine.LoopEnds | main.py:65-73 | the loop ends on a passed-over reply exactly when it passes over all ten, and otherwise it settles on its last reply |
| Engine.PollStopsAt | main.py:65-68 | a status poll that passed over replies 0..k-1 and stops at reply k has sent k + 1 polls and made k + 1 reads, each poll written before the read of its reply, and ends on reply k |
| Engine.PollGivesUp | main.py:65-73 | the status poll ends on a non-ready, indexable reply exactly when none of its ten replies settles it |
| Engine.PollAfterWrite | main.py:63-66 | writing the request frame before the polls does not change how the poll ends |
| Engine.ByteRead | main.py:62-91 | a byte read writes its request first; it closes a handle that was open exactly when it fails with DeviceFault, leaves a closed handle closed, and adds the reset report exactly on DeviceFault and no feature report otherwise |
| Engine.ByteReadWhenReady | main.py:62-71 | on a ready reply j: request, j + 1 status polls and force frame `[0x12, 0, 1]` are written; j + 1 reads of 7 bytes and one of 4 are made; byte 3 of the 4-byte reply is returned (IndexOutOfRange if it is shorter); no reset, handle state unchanged; in the event log the request comes first, each poll precedes its read, and the force frame precedes the final read |
| Engine.ByteReadWhenUnreadable | main.py:65-68 | a status reply too short to index ends the read with IndexOutOfRange after j + 1 polls, without a force frame or a reset |
| Engine.ByteReadWhenExhausted | main.py:72-73 | ten non-ready replies: the request and ten polls are written, ten reads made, the reset report sent once, the handle closed, and the read fails with DeviceFault; the reset comes after the last read and before the close |
| Engine.ByteReadFaultsIffNeverSettles | main.py:65-73 | a byte read fails with DeviceFault exactly when none of its ten status replies settles the poll |
| Engine.BlockRead | main.py:126-141 | a successful block read returns at most `length` bytes |
| Engine.BlockReadWhenReady | main.py:126-139 | on a ready 7-byte reply j: the request, j + 1 polls and `[0x12, status[5], status[6]]` are written, `length + 3` bytes are read, and the bytes after the 3-byte header are returned; the event log has the request, then poll-read pairs, then the force frame and its read |
| Engine.BlockReadWhenStatusShort | main.py:133-135 | a ready status reply shorter than 7 bytes fails with IndexOutOfRange before any force frame is written |
| Engine.BlockReadWhenUnreadable | main.py:130-133 | a status reply too short to index ends the block read with IndexOutOfRange, without a reset |
| Engine.BlockReadWhenExhausted | main.py:140-141 | ten non-ready replies: ten polls, the reset report sent once, the handle closed, and DeviceFault; the reset comes after the last read and before the close |
| Engine.BlockReadFaultsIffNeverSettles | main.py:129-141 | a block read fails with DeviceFault exactly when none of its ten status replies settles the poll |
| Engine.WordSettlesAt | main.py:100-105 | a word loop that passed over replies 0..k-1 and settles at reply k wrote k + 1 request pairs, made k + 1 reads, and ends on reply k |
| Engine.WordExhausts | main.py:100-108 | a word loop that passes over all ten replies wrote eleven request pairs, made ten reads, and ends on the tenth reply |
| Engine.WordGivesUp | main.py:100-110 | the word loop ends on a non-ready, indexable reply exactly when none of its ten replies settles it |
| Engine.WordRead | main.py:96-110 | a successful word read returns a value in 0..65535 |
| Engine.WordReadWhenReady | main.py:96-105 | on a ready reply j: j + 1 request pairs are written and j + 1 reads of 10 bytes made, and `(r[4] << 8) + r[3]` of reply j is returned; no reset; in the event log the pair is written first and again after each passed-over read |
| Engine.WordReadWhenUnreadable | main.py:101-105 | a reply too short to index ends the word read with IndexOutOfRange after j + 1 pairs and j + 1 reads, the pair re-sent after each passed-over read and not after the last, without a reset |
| Engine.WordReadWhenExhausted | main.py:100-110 | ten non-ready replies: eleven request pairs and ten reads, the pair re-sent after each read, the reset report sent once, the handle closed, and DeviceFault; the reset comes before the close |
| Engine.WordReadFaultsIffNeverSettles | main.py:100-110 | a word read fails with DeviceFault exactly when none of its ten replies settles the loop |
| Driver.HIDDriver.I2CError | main.py:42-47 | sends the reset report, closes the handle, and fails with DeviceFault |
| Driver.HIDDriver.StatusPoll | main.py:66-67 | one poll writes `[0x15, 0x01]`, reads 7 bytes, and judges the reply as the closed form does |
| Driver.HIDDriver.PollStatus | main.py:65-68 | the status poll loop leaves the handle, the verdict and the last reply as the closed form of the poll says |
| Driver.HIDDriver.ByteTransaction | main.py:63-73 | after the request, the byte read returns and leaves exactly what `ByteRead` says |
| Driver.HIDDriver.WriteByte | main.py:59-60 | writes exactly the write_byte frame and returns the count the handle reports |
| Driver.HIDDriver.ReadByte | main.py:62-73 | returns and leaves exactly the closed form `ByteRead` of the Data Read Request for one byte |
| Driver.HIDDriver.WriteByteData | main.py:75-76 | writes exactly the write_byte_data frame |
| Driver.HIDDriver.ReadByteData | main.py:78-91 | returns and leaves exactly `ByteRead` of the Data Write-Read Request of one byte of `register` |
| Driver.HIDDriver.WriteWordData | main.py:93-94 | writes exactly the write_word_data frame |
| Driver.HIDDriver.WritePair | main.py:97-98 | writes the Data Write-Read Request for two bytes, then `[0x12, 0, 2]`: one more request pair in the log |
| Driver.HIDDriver.WordPoll | main.py:101-104 | one read of 10 bytes, judged as the closed form of the word loop does |
| Driver.HIDDriver.WordIteration | main.py:101-108 | one iteration of the word loop either finishes with exactly the closed form's result and handle, or passes over its reply and writes the request pair once more |
| Driver.HIDDriver.ReadWordData | main.py:96-110 | returns and leaves exactly the closed form `WordRead` |
| Driver.HIDDriver.WriteBlockData | main.py:112-113 | fails with NotImplemented and touches nothing |
| Driver.HIDDriver.ReadBlockData | main.py:115-116 | fails with NotImplemented and touches nothing |
| Driver.HIDDriver.WriteI2CBlock | main.py:118-123 | more than 61 bytes: fails before anything is written; otherwise writes the one Data Write Request of the payload and returns its length + 3 |
| Driver.HIDDriver.ReadI2CBlock | main.py:126-141 | returns and leaves exactly the closed form `BlockRead` |
| Driver.HIDDriver.WriteI2CBlockData | main.py:143-144 | fails with NotImplemented and touches nothing |
| Driver.HIDDriver.ReadI2CBlockData | main.py:146-147 | fails with NotImplemented and touches nothing |

## Left out

- The `hid` library is replaced by `FakeHid`. Left out with it:
  - opening the device by vendor, product and serial, and its strings;
  - real USB traffic;
  - timeouts of `read`;
  - any error the library raises.
- The fake's `write` reports every byte as written. The values the write
  methods return are therefore frame lengths.
- `__init__` (main.py:8-40) is left out: it opens the device, blinks the LED,
  and sends fixed GPIO and SMBus configuration reports. A driver is built on
  whatever handle it is given, open or not. Every contract speaks of what a
  call appends to the handle's logs. The bring-up reports are therefore not in
  the feature log, and a closed handle is not refused.
- `write_hid`, `read_hid` and `get_handler` (main.py:49-56) are left out. They
  hand their arguments straight to the library.
- All `print` calls are left out. So is `time.sleep(3)` in `I2CError`.
- The `__main__` smoke test is left out.
- The `self.I2CError()` after `return` in `write_i2c_block` (main.py:124) is
  left out, because it is never reached.
- Integers and bytes:
  - `value` and `register` are bytes (0..255);
  - write_word_data's `value` is 0..65535;
  - read_i2c_block's `length` is a byte.

  The code does not check these. A larger value would make the `hid` library
  fail, and that is not part of this model.
- The four read methods share their structure in the model:
  - `read_byte` and `read_byte_data` share `ByteTransaction` and the status
    poll `PollStatus` after their different request frames;
  - `read_i2c_block` uses the same status poll.

  The code repeats that loop in each method instead.

Two behaviours that a description of the bridge might expect are not
modelled, because the code does not have them:

- an early abort on an error status;
- a check that rejects address 0.
