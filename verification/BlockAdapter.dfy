/**
The block adapter of modrep_default/block_adapter/src/block_adapter.c: a
circular byte buffer between packets of one length and blocks of another.
*/
module BlockAdapter {
  import opened RingBytes

  const DEFAULT_BUFFER_SZ := 100 * 1024
  const OUTPUT_MAX_SAMPLES := 14 * 2048

  class Adapter {
    const buffer: array<int>
    var rpm: nat
    var wpm: nat
    /** All bytes taken in so far. */
    ghost var accepted: seq<int>
    /** All bytes given out so far. */
    ghost var delivered: seq<int>

    /** Given out, and still in the buffer, is everything that was taken in. */
    ghost predicate Valid()
      reads this, buffer
    {
      && rpm < buffer.Length && wpm < buffer.Length
      && delivered + Buffered() == accepted
    }

    /** How much data the buffer holds. */
    function BufferData(): (n: int)
      reads this
    {
      if wpm >= rpm then wpm - rpm else buffer.Length - (rpm - wpm)
    }

    function BufferSpace(): (n: int)
      reads this
    {
      buffer.Length - BufferData()
    }

    /** The data in the buffer. */
    ghost function Buffered(): seq<int>
      requires rpm < buffer.Length && wpm < buffer.Length
      reads this, buffer
    {
      Ring(buffer[..], rpm, BufferData())
    }

    /** `initialize`: a size of zero stands for the default. */
    constructor (bufferSize: nat)
      ensures Valid() && fresh(buffer) && accepted == delivered == [] && BufferData() == 0
      ensures buffer.Length == if bufferSize == 0 then DEFAULT_BUFFER_SZ else bufferSize
    {
      buffer := new int[if bufferSize == 0 then DEFAULT_BUFFER_SZ else bufferSize];
      rpm, wpm := 0, 0;
      accepted, delivered := [], [];
    }

    /** The copying of `put_data`. */
    method CopyIn(data: array<int>, len: nat)
      requires wpm < buffer.Length && data != buffer && len <= data.Length && len < buffer.Length
      modifies this`wpm, buffer
      ensures buffer[..] == Wrapped(old(buffer[..]), old(wpm), data[..len]) && wpm == Wrap(old(wpm) + len, buffer.Length)
    {
      if wpm + len < buffer.Length {
        Memcpy(buffer, wpm, data, 0, len);
        wpm := wpm + len;
      } else {
        var hlen := buffer.Length - wpm;
        Memcpy(buffer, wpm, data, 0, hlen);
        Memcpy(buffer, 0, data, hlen, len - hlen);
        wpm := len - hlen;
      }
    }

    /** `put_data`. */
    method PutData(data: array<int>, len: nat)
      requires Valid() && data != buffer && len <= data.Length && len < BufferSpace()
      modifies this`wpm, this`accepted, buffer
      ensures Valid() && accepted == old(accepted) + data[..len]
      ensures BufferData() == old(BufferData()) + len
    {
      RingAppend(buffer[..], rpm, BufferData(), data[..len], wpm);
      CopyIn(data, len);
      accepted := accepted + data[..len];
    }

    /** The copying of `get_data`. */
    method CopyOut(data: array<int>, len: nat)
      requires rpm < buffer.Length && data != buffer && len <= data.Length && len <= buffer.Length
      modifies this`rpm, data
      ensures data[..len] == Ring(buffer[..], old(rpm), len) && rpm == Wrap(old(rpm) + len, buffer.Length)
      ensures forall i :: len <= i < data.Length ==> data[i] == old(data[i])
    {
      ghost var b, start := buffer[..], rpm;
      if rpm + len < buffer.Length {
        Memcpy(data, 0, buffer, rpm, len);
        rpm := rpm + len;
      } else {
        var hlen := buffer.Length - rpm;
        Memcpy(data, 0, buffer, rpm, hlen);
        Memcpy(data, hlen, buffer, 0, len - hlen);
        rpm := len - hlen;
      }
      forall i: nat | i < len ensures data[i] == b[Wrap(start + i, |b|)] {
      }
      SameAsRing(data[..len], b, start, len);
    }

    /** `get_data`. */
    method GetData(data: array<int>, len: nat)
      requires Valid() && data != buffer && len <= data.Length && len <= BufferData()
      modifies this`rpm, this`delivered, data
      ensures Valid() && delivered == old(delivered) + data[..len]
      ensures BufferData() == old(BufferData()) - len
      ensures forall i :: len <= i < data.Length ==> data[i] == old(data[i])
    {
      RingSplit(buffer[..], rpm, BufferData(), len, Wrap(rpm + len, buffer.Length));
      CopyOut(data, len);
      delivered := delivered + data[..len];
    }

    /**
    `work`: takes the packet if it leaves room, and gives out a block if more than
    a block is buffered. A bad block length is an error, after the packet was taken.
    */
    method Work(input: array<int>, rcv: nat, blockLength: int, output: array<int>) returns (r: int)
      requires Valid() && input != buffer && output != buffer && rcv <= input.Length && output.Length >= OUTPUT_MAX_SAMPLES
      modifies this`rpm, this`wpm, this`accepted, this`delivered, buffer, output
      ensures Valid()
      ensures accepted == old(accepted) + if rcv + |old(accepted)| - |old(delivered)| < buffer.Length then old(input[..rcv]) else []
      ensures r <= output.Length && delivered == old(delivered) + if r > 0 then output[..r] else []
      ensures r == -1 <==> blockLength < 0 || blockLength > OUTPUT_MAX_SAMPLES
      ensures r != -1 ==> r == 0 || r == blockLength <= output.Length
      ensures forall i :: 0 <= i < output.Length && i >= r ==> output[i] == old(output[i])
      ensures r != -1 ==> (r == blockLength <==> blockLength == 0 || |accepted| - |old(delivered)| > blockLength)
    {
      if rcv != 0 {
        if rcv < BufferSpace() {
          PutData(input, rcv);
        }
      }
      if blockLength > OUTPUT_MAX_SAMPLES || blockLength < 0 {
        return -1;
      }
      if BufferData() > blockLength {
        GetData(output, blockLength);
        r := blockLength;
      } else {
        r := 0;
      }
    }
  }
}
