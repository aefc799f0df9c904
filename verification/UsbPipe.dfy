/** Reading messages off the bulk pipe, transfer by transfer. */
module UsbPipe {
  import opened Bytes
  import opened Adb
  import opened Framing

  /** The bulk-in endpoint: a script of the transfers that will complete. */
  class Endpoint {
    var transfers: seq<Transfer>

    constructor (transfers: seq<Transfer>)
      ensures this.transfers == transfers
    {
      this.transfers := transfers;
    }

    method BulkIn(capacity: nat) returns (t: Transfer)
      modifies this
      ensures t == Outcome(old(transfers), capacity) && transfers == Tail(old(transfers))
    {
      t := Outcome(transfers, capacity);
      transfers := Tail(transfers);
    }

    /** usb_read_message: the header, its checks, then the payload. */
    method ReadMessage() returns (r: ReadResult)
      modifies this
      ensures (r, transfers) == Framing.ReadMessage(old(transfers))
    {
      ghost var start := transfers;
      var header: seq<byte> := [];
      while |header| < ADB_HEADER_SIZE
        invariant GatherHeader(header, transfers) == GatherHeader([], start)
        decreases |transfers|, ADB_HEADER_SIZE - |header|
      {
        var t := BulkIn(Max(ADB_HEADER_SIZE - |header|, 64));
        if !t.Data? {
          return Err(Cause(t));
        }
        header := header + t.bytes;
      }
      if Field(header, 5) != Magic(Field(header, 0)) {
        return Err(BadMagic);
      }
      var dataLength := Field(header, 3);
      if dataLength > MAX_PAYLOAD {
        return Err(TooLarge);
      }
      var payload := header[ADB_HEADER_SIZE..];
      ghost var ts1, excess := transfers, payload;
      while |payload| < dataLength
        invariant GatherPayload(payload, dataLength, transfers) == GatherPayload(excess, dataLength, ts1)
        decreases |transfers|, dataLength - |payload|
      {
        var t := BulkIn(Min(dataLength - |payload|, USB_READ_BUF));
        if !t.Data? {
          return Err(Cause(t));
        }
        payload := payload + t.bytes;
      }
      var checksum := Field(header, 4);
      if checksum != 0 {
        var computed := AdbChecksum(payload);
        if computed != checksum {
          return Err(BadChecksum);
        }
      }
      r := Ok(Message(Field(header, 0), Field(header, 1), Field(header, 2), payload));
    }
  }

  /** adb_checksum's fold. */
  method AdbChecksum(data: seq<byte>) returns (sum: u32)
    ensures sum == Checksum(data)
  {
    sum := 0;
    for i := 0 to |data|
      invariant sum == Checksum(data[..i])
    {
      assert data[..i + 1][..i] == data[..i];
      sum := WrappingAdd(sum, data[i]);
    }
    assert data[..|data|] == data;
  }

  function SumBytes(data: seq<byte>): nat {
    if data == [] then 0 else SumBytes(data[..|data| - 1]) + data[|data| - 1]
  }

  /** The wrapping sum is the plain sum modulo 2^32. */
  lemma {:induction false} ChecksumIsSum(data: seq<byte>)
    ensures Checksum(data) == SumBytes(data) % 0x1_0000_0000
  {
    if data != [] {
      ChecksumIsSum(data[..|data| - 1]);
    }
  }
}
