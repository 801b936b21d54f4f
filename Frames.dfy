/** Command frames of the CP2112 USB-to-I2C bridge as the HID driver builds them,
    and the few decoders the driver applies to the bridge's replies.
    Every frame is a list of bytes whose first byte is the bridge's report id. */
module Frames {

  type Byte = b: int | 0 <= b < 256

  datatype Option<T> = None | Some(value: T)

  // Report ids of the bridge's command set
  const RESET_DEVICE: Byte := 0x01
  const DATA_READ_REQUEST: Byte := 0x10
  const DATA_WRITE_READ_REQUEST: Byte := 0x11
  const DATA_READ_FORCE: Byte := 0x12
  const DATA_READ_RESPONSE: Byte := 0x13
  const DATA_WRITE_REQUEST: Byte := 0x14
  const TRANSFER_STATUS_REQUEST: Byte := 0x15
  const TRANSFER_STATUS_RESPONSE: Byte := 0x16

  /** Byte 2 of a transfer status response that means "data ready". */
  const STATUS_DATA_READY: Byte := 5
  /** Byte 2 of a word-class data read response that means "two bytes present". */
  const WORD_RESPONSE_READY: Byte := 2
  /** The largest payload one Data Write Request carries. */
  const MAX_WRITE_PAYLOAD: nat := 61

  /** Transfer Status Request, sent on every poll. */
  const STATUS_REQUEST: seq<Byte> := [TRANSFER_STATUS_REQUEST, 0x01]
  /** Feature report that resets the bridge and cancels every transfer. */
  const RESET_REPORT: seq<Byte> := [RESET_DEVICE, 0x01]

  /** The bridge cannot address I2C address 0; a 7-bit address is 1..127. */
  predicate ValidAddress(address: int) {
    0 < address < 128
  }

  /** The address byte of every request: the 7-bit address shifted left by one. */
  function AddressByte(address: int): (b: Byte)
    requires ValidAddress(address)
    ensures b % 2 == 0 && 2 <= b <= 254
    ensures b / 2 == address
  {
    address * 2
  }

  // ---------------------------------------------------------------------------
  // Data Write Request: [0x14, address<<1, count, payload...]

  datatype WriteRequest = WriteRequest(address: int, payload: seq<Byte>)

  /** The general Data Write Request frame built by write_i2c_block. */
  function DataWriteFrame(address: int, payload: seq<Byte>): (f: seq<Byte>)
    requires ValidAddress(address) && |payload| <= MAX_WRITE_PAYLOAD
    ensures |f| == |payload| + 3 && f[3..] == payload
    ensures DecodeWrite(f) == Some(WriteRequest(address, payload))
  {
    [DATA_WRITE_REQUEST, AddressByte(address), |payload|] + payload
  }

  /** Reads a Data Write Request frame back: the address and the payload it carries,
      or None when the frame is not one the driver could have produced. */
  function DecodeWrite(f: seq<Byte>): (w: Option<WriteRequest>)
    ensures w.Some? ==> ValidAddress(w.value.address)
                        && |w.value.payload| <= MAX_WRITE_PAYLOAD
                        && f == [DATA_WRITE_REQUEST, AddressByte(w.value.address), |w.value.payload|]
                                + w.value.payload
  {
    if 3 <= |f| && f[0] == DATA_WRITE_REQUEST && f[1] % 2 == 0 && 0 < f[1]
       && f[2] == |f| - 3 && f[2] <= MAX_WRITE_PAYLOAD
    then
      assert [f[0], f[1], f[2]] + f[3..] == f;
      Some(WriteRequest(f[1] / 2, f[3..]))
    else None
  }

  /** write_byte's frame: one payload byte. */
  function WriteByteFrame(address: int, value: Byte): (f: seq<Byte>)
    requires ValidAddress(address)
    ensures f == DataWriteFrame(address, [value])
    ensures DecodeWrite(f) == Some(WriteRequest(address, [value]))
  {
    [DATA_WRITE_REQUEST, AddressByte(address), 0x01, value]
  }

  /** write_byte_data's frame: register, then value. */
  function WriteByteDataFrame(address: int, register: Byte, value: Byte): (f: seq<Byte>)
    requires ValidAddress(address)
    ensures f == DataWriteFrame(address, [register, value])
    ensures DecodeWrite(f) == Some(WriteRequest(address, [register, value]))
  {
    [DATA_WRITE_REQUEST, AddressByte(address), 0x02, register, value]
  }

  /** write_word_data's frame: register, then the 16-bit value high byte first. */
  function WriteWordDataFrame(address: int, register: Byte, value: int): (f: seq<Byte>)
    requires ValidAddress(address) && 0 <= value < 0x1_0000
    ensures |f| == 6 && f == DataWriteFrame(address, f[3..])
    ensures DecodeWrite(f).Some? && DecodeWrite(f).value.address == address
    ensures DecodeWrite(f).value.payload[0] == register
    ensures DecodeWrite(f).value.payload[1] as int * 256 + DecodeWrite(f).value.payload[2] == value
  {
    // value >> 8 and value & 0xFF on a non-negative value
    [DATA_WRITE_REQUEST, AddressByte(address), 0x03, register, value / 256, value % 256]
  }

  // ---------------------------------------------------------------------------
  // Read-side requests

  /** Data Read Request: [0x10, address<<1, length_hi, length_lo]; the driver
      only ever asks for at most 255 bytes, so length_hi is 0. */
  function ReadRequestFrame(address: int, length: Byte): (f: seq<Byte>)
    requires ValidAddress(address)
    ensures |f| == 4 && f[0] == DATA_READ_REQUEST
    ensures f[1] / 2 == address && f[1] % 2 == 0
    ensures f[2] as int * 256 + f[3] == length
  {
    [DATA_READ_REQUEST, AddressByte(address), 0x00, length]
  }

  /** Data Write-Read Request: write the one register byte, then read `length` bytes. */
  function WriteReadRequestFrame(address: int, length: Byte, register: Byte): (f: seq<Byte>)
    requires ValidAddress(address)
    ensures |f| == 6 && f[0] == DATA_WRITE_READ_REQUEST
    ensures f[1] / 2 == address && f[1] % 2 == 0
    ensures f[2] as int * 256 + f[3] == length
    ensures f[4] == |f[5..]| && f[5..] == [register]
  {
    [DATA_WRITE_READ_REQUEST, AddressByte(address), 0x00, length, 0x01, register]
  }

  /** Data Read Force: ask the bridge to hand over `hi * 256 + lo` buffered bytes. */
  function ForceReadFrame(hi: Byte, lo: Byte): (f: seq<Byte>)
    ensures |f| == 3 && f[0] == DATA_READ_FORCE && f[1] as int * 256 + f[2] == hi as int * 256 + lo
  {
    [DATA_READ_FORCE, hi, lo]
  }

  // ---------------------------------------------------------------------------
  // Replies

  /** What the driver makes of one reply: the pattern it waits for, anything else
      (which only costs a poll), or a reply too short for the bytes the driver
      indexes (an IndexError in the driver). */
  datatype Status = Ready | Busy | Unreadable

  /** A transfer status reply is ready when byte 0 is 0x16 and byte 2 is 5;
      byte 2 is only looked at once byte 0 matched. */
  function StatusOf(reply: seq<Byte>): (st: Status)
    ensures st == Ready <==> |reply| >= 3 && reply[0] == TRANSFER_STATUS_RESPONSE && reply[2] == STATUS_DATA_READY
    ensures st == Unreadable <==> |reply| == 0 || (reply[0] == TRANSFER_STATUS_RESPONSE && |reply| < 3)
  {
    if |reply| == 0 then Unreadable
    else if reply[0] != TRANSFER_STATUS_RESPONSE then Busy
    else if |reply| < 3 then Unreadable
    else if reply[2] == STATUS_DATA_READY then Ready
    else Busy
  }

  /** A word read reply is ready when byte 0 is 0x13 and byte 2 is 2; the value
      then needs bytes 3 and 4. */
  function WordStatusOf(reply: seq<Byte>): (st: Status)
    ensures st == Ready <==> |reply| >= 5 && reply[0] == DATA_READ_RESPONSE && reply[2] == WORD_RESPONSE_READY
    ensures st == Unreadable <==>
      |reply| == 0 || (reply[0] == DATA_READ_RESPONSE && (|reply| < 3 || (reply[2] == WORD_RESPONSE_READY && |reply| < 5)))
  {
    if |reply| == 0 then Unreadable
    else if reply[0] != DATA_READ_RESPONSE then Busy
    else if |reply| < 3 then Unreadable
    else if reply[2] != WORD_RESPONSE_READY then Busy
    else if |reply| < 5 then Unreadable
    else Ready
  }

  /** The 16-bit word of a data read response: byte 3 is the low byte, byte 4 the high byte. */
  function WordValue(reply: seq<Byte>): (v: int)
    requires |reply| >= 5
    ensures 0 <= v < 0x1_0000
    ensures v % 256 == reply[3] && v / 256 == reply[4]
  {
    // (reply[4] << 8) + reply[3]
    reply[4] as int * 256 + reply[3]
  }

  /** Everything after the 3-byte header of a block read reply (Python's data[3:]). */
  function BlockPayload(data: seq<Byte>): (p: seq<Byte>)
    ensures |data| <= 3 ==> p == []
    ensures |data| > 3 ==> data == data[..3] + p
  {
    if |data| <= 3 then [] else data[3..]
  }

  /** write_word_data sends the high byte first while read_word_data reads byte 3
      as the low byte: the two byte orders disagree, and a word written with
      write_word_data reads back byte-swapped unless both of its bytes are equal. */
  lemma WordByteOrderDisagrees(address: int, register: Byte, value: int)
    requires ValidAddress(address) && 0 <= value < 0x1_0000
    ensures var f := WriteWordDataFrame(address, register, value);
            var echoed := [DATA_READ_RESPONSE, 0x00, WORD_RESPONSE_READY, f[4], f[5]];
            && WordValue(echoed) == (value % 256) * 256 + value / 256
            && (WordValue(echoed) == value <==> value / 256 == value % 256)
  {
  }
}
