/**
 * Packet utilities: patching a packet's 16-bit length field after its body
 * is written, and pre-initialising the id byte of packet slots in a buffer.
 */
module Network {
  import opened Wrappers
  import opened Wire

  // ---------------------------------------------------------------------
  // Length patching

  /**
   * The buffer after the length patch: bytes 1 and 2 hold `length`
   * truncated to an unsigned 16-bit value, in the writer's byte order.
   */
  function PatchLength(bytes: seq<byte>, length: int, order: ByteOrder): (r: seq<byte>)
    requires |bytes| >= 3
    ensures |r| == |bytes|
    ensures Decode(order, r[1..3]) == length % 0x1_0000
    ensures forall i :: 0 <= i < |r| && i != 1 && i != 2 ==> r[i] == bytes[i]
  {
    var r := bytes[..1] + U16(order, length) + bytes[3..];
    assert r[1..3] == U16(order, length);
    RoundTrip(order, length, 2);
    r
  }

  /** Patching twice with the same length is patching once. */
  lemma PatchLengthIdempotent(bytes: seq<byte>, length: int, order: ByteOrder)
    requires |bytes| >= 3
    ensures PatchLength(PatchLength(bytes, length, order), length, order)
            == PatchLength(bytes, length, order)
  {
    var once := PatchLength(bytes, length, order);
    var twice := PatchLength(once, length, order);
    assert twice[1..3] == once[1..3];
    assert twice[1] == once[1] && twice[2] == once[2];
  }

  /** The patch is the id byte, the new length field and the untouched rest. */
  lemma PatchLengthParts(bytes: seq<byte>, length: int, order: ByteOrder)
    requires |bytes| >= 3
    ensures PatchLength(bytes, length, order) == bytes[..1] + U16(order, length) + bytes[3..]
  {
  }

  /** The patch keeps the id byte and every byte from `k >= 3` on. */
  lemma PatchKeepsEnds(bytes: seq<byte>, length: int, order: ByteOrder, k: nat)
    requires 3 <= k <= |bytes|
    ensures PatchLength(bytes, length, order)[..1] == bytes[..1]
    ensures PatchLength(bytes, length, order)[k..] == bytes[k..]
  {
  }

  /** A packet shorter than 64 KiB reads its own length back from bytes 1 and 2. */
  lemma PatchedLengthReadsBack(bytes: seq<byte>, order: ByteOrder)
    requires 3 <= |bytes| < 0x1_0000
    ensures Decode(order, PatchLength(bytes, |bytes|, order)[1..3]) == |bytes|
  {
  }

  /**
   * A writer with a cursor over a buffer. Both writer kinds that carry the
   * length patch (the circular writer and the span writer) are this shape
   * here: the patch only seeks and writes.
   */
  class PacketWriter {
    const buffer: array<byte>
    var position: nat

    constructor (buffer: array<byte>)
      ensures this.buffer == buffer && position == 0
    {
      this.buffer := buffer;
      position := 0;
    }

    /** Moves the cursor to an absolute position. */
    method Seek(offset: nat)
      modifies this`position
      ensures position == offset
    {
      position := offset;
    }

    /** Writes a 16-bit value at the cursor in the given order and advances by 2. */
    method WriteUShort(v: int, order: ByteOrder)
      requires 0 <= v < 0x1_0000
      requires position + 2 <= buffer.Length
      modifies this`position, buffer
      ensures buffer[..] == old(buffer[..position]) + U16(order, v) + old(buffer[position + 2..])
      ensures position == old(position) + 2
    {
      var bytes := U16(order, v);
      buffer[position] := bytes[0];
      buffer[position + 1] := bytes[1];
      position := position + 2;
    }

    /**
     * Writes the current position, as an unsigned 16-bit value, at offset 1
     * and returns the cursor to where it was.
     */
    method WritePacketLength(order: ByteOrder)
      requires buffer.Length >= 3
      modifies this`position, buffer
      ensures buffer[..] == PatchLength(old(buffer[..]), old(position), order)
      ensures position == old(position)
    {
      var length := position;
      Seek(1);
      WriteUShort(length % 0x1_0000, order);
      Seek(length);
      assert U16(order, length % 0x1_0000) == U16(order, length) by {
        assert Pow256(2) == 0x1_0000;
        EncodeOfDecodeValue(length, 2);
      }
    }
  }

  /** The encoding of `v` is the encoding of `v` mod the width. */
  lemma EncodeOfDecodeValue(v: int, n: nat)
    ensures LeBytes(v, n) == LeBytes(v % Pow256(n), n)
  {
    RoundTrip(LittleEndian, v, n);
    EncodeOfDecode(LittleEndian, LeBytes(v, n));
  }

  // ---------------------------------------------------------------------
  // Pre-initialisation of packet slots

  /** The buffer after the first byte of every `chunk`-sized slot is zeroed. */
  function ZeroedSlots(bytes: seq<byte>, chunk: nat): (r: seq<byte>)
    requires chunk > 0
    ensures |r| == |bytes|
  {
    seq(|bytes|, i requires 0 <= i < |bytes| => if i % chunk == 0 then 0 else bytes[i])
  }

  /** Within the slot starting at `chunk * n`, only its first byte is a slot start. */
  lemma StrideStep(chunk: nat, n: nat, i: nat)
    requires chunk > 0 && chunk * n <= i < chunk * n + chunk
    ensures i % chunk == 0 <==> i == chunk * n
  {
    ModUnique(i, chunk, n, i - chunk * n);
  }

  /** Every slot start below the length is zeroed. */
  lemma SlotStartsZeroed(bytes: seq<byte>, chunk: nat, j: nat)
    requires chunk > 0 && chunk * j < |bytes|
    ensures ZeroedSlots(bytes, chunk)[chunk * j] == 0
  {
    StrideStep(chunk, j, chunk * j);
  }

  /** A byte inside a slot, past its first, is left alone. */
  lemma InsideSlotUnchanged(bytes: seq<byte>, chunk: nat, j: nat, d: nat)
    requires 0 < d < chunk && chunk * j + d < |bytes|
    ensures ZeroedSlots(bytes, chunk)[chunk * j + d] == bytes[chunk * j + d]
  {
    StrideStep(chunk, j, chunk * j + d);
  }

  /** One slot spanning the whole buffer: only the first byte is zeroed. */
  lemma SingleSlot(bytes: seq<byte>, chunk: nat)
    requires 0 < |bytes| <= chunk
    ensures ZeroedSlots(bytes, chunk) == [0] + bytes[1..]
  {
    var r := ZeroedSlots(bytes, chunk);
    forall i | 1 <= i < |bytes|
      ensures r[i] == bytes[i]
    {
      StrideStep(chunk, 0, i);
    }
    assert r == [0] + bytes[1..];
  }

  /** The exception a write outside the span raises. */
  datatype InitError = IndexOutOfRange

  /**
   * Marks the packet id byte as unset. Only a build without local zero
   * initialisation (`noLocalInit`) writes it, and there an empty span has
   * no byte 0 to write.
   */
  method InitializePacket(buffer: array<byte>, noLocalInit: bool) returns (r: Result<(), InitError>)
    modifies buffer
    ensures noLocalInit && buffer.Length == 0 ==> r == Err(IndexOutOfRange) && buffer[..] == old(buffer[..])
    ensures noLocalInit && buffer.Length > 0 ==> r == Ok(()) && buffer[..] == [0] + old(buffer[1..])
    ensures !noLocalInit ==> r == Ok(()) && buffer[..] == old(buffer[..])
  {
    if noLocalInit {
      if buffer.Length == 0 {
        return Err(IndexOutOfRange);
      }
      buffer[0] := 0;
    }
    r := Ok(());
  }

  /**
   * Marks the id byte of every `chunkLength`-sized slot as unset, walking
   * the slots with a stride. Only a build without local zero
   * initialisation writes anything; there the stride must be positive.
   */
  method InitializePackets(buffer: array<byte>, chunkLength: int, noLocalInit: bool)
    requires noLocalInit ==> chunkLength > 0
    modifies buffer
    ensures noLocalInit ==> buffer[..] == ZeroedSlots(old(buffer[..]), chunkLength)
    ensures !noLocalInit ==> buffer[..] == old(buffer[..])
  {
    if noLocalInit {
      var index := 0;
      ghost var slots: nat := 0;
      while index < buffer.Length
        invariant index == chunkLength * slots
        invariant forall i :: 0 <= i < buffer.Length ==>
                    buffer[i] == if i < index && i % chunkLength == 0 then 0 else old(buffer[i])
        decreases buffer.Length - index
      {
        forall i | index <= i < index + chunkLength {
          StrideStep(chunkLength, slots, i);
        }
        buffer[index] := 0;
        index := index + chunkLength;
        slots := slots + 1;
      }
      assert buffer[..] == ZeroedSlots(old(buffer[..]), chunkLength);
    }
  }
}
