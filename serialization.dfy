/**
 * The persisted-state read cursor: a forward position over a byte array,
 * reading little-endian integers, 7-bit-group encoded ints, length-prefixed
 * strings, points and rectangles, and entity references resolved through an
 * injected registry lookup.
 */
module Serialization {

  import opened Wrappers
  import opened Wire
  import opened Geometry

  datatype SeekOrigin = Begin | Current | End

  /** The exceptions the reader raises on its explicit error paths. */
  datatype ReadError =
    | OutOfMemory     // Read(span): the span is longer than the bytes left
    | NegativeCount   // ReadEntityList/Set: a negative capacity for the collection

  // ---------------------------------------------------------------------
  // Little-endian fixed-width values at an offset

  /** The unsigned 32-bit value stored at `p`. */
  function UInt32At(s: seq<byte>, p: nat): nat
    requires p + 4 <= |s|
  {
    LeValue(s[p..p + 4])
  }

  /** The signed 32-bit value stored at `p`. */
  function Int32At(s: seq<byte>, p: nat): int
    requires p + 4 <= |s|
  {
    ToSigned(LeValue(s[p..p + 4]), 4)
  }

  lemma LeValue2(s: seq<byte>)
    requires |s| == 2
    ensures LeValue(s) == s[0] as nat + 256 * s[1] as nat
  {
    assert s[1..][1..] == [];
    assert LeValue(s[1..]) == s[1] as nat + 256 * LeValue(s[1..][1..]);
  }

  // ---------------------------------------------------------------------
  // Encoded ints: 7-bit groups, least significant first, high bit = more

  /** Some byte of `s` at or after `i` ends an encoded int. */
  predicate TerminatedFrom(s: seq<byte>, i: nat)
  {
    exists k :: i <= k < |s| && s[k] < 0x80
  }

  /**
   * The number of bytes an encoded int starting at `i` occupies: up to and
   * including the first byte below 0x80.
   */
  function EncodedLength(s: seq<byte>, i: nat): nat
    requires TerminatedFrom(s, i)
    decreases |s| - i
  {
    if s[i] < 0x80 then 1 else EncodedLength(s, i + 1) + 1
  }

  /** The contribution of one byte: its low seven bits, shifted as a C# int is (count mod 32). */
  function GroupBits(b: byte, shift: bv32): bv32
  {
    ((b % 0x80) as bv32) << (shift & 31)
  }

  /**
   * The 32-bit accumulator after ORing in the groups from `i` on, the first
   * one shifted by `shift`. Shift counts beyond 31 wrap as C# does: there is
   * no limit on the number of groups.
   */
  function EncodedValue(s: seq<byte>, i: nat, shift: bv32): bv32
    requires TerminatedFrom(s, i)
    decreases |s| - i
  {
    if s[i] < 0x80 then GroupBits(s[i], shift)
    else Accumulate(GroupBits(s[i], shift), EncodedValue(s, i + 1, NextShift(shift)))
  }

  /** One step of the accumulator: `v |= bits`. */
  function Accumulate(v: bv32, bits: bv32): bv32
  {
    v | bits
  }

  /** The shift of the next group: seven more, wrapping as a C# int. */
  function NextShift(shift: bv32): bv32
  {
    shift + 7
  }

  /** The C# int whose bits are `bits`. */
  function ToInt32(bits: bv32): int
  {
    if bits < 0x8000_0000 then bits as int else bits as int - 0x1_0000_0000
  }

  /**
   * The bytes an encoded int occupies lie in `s`: every one but the last has
   * the continuation bit set, and the last has it clear.
   */
  lemma {:induction false} EncodedLengthBounds(s: seq<byte>, i: nat)
    requires TerminatedFrom(s, i)
    ensures var n := EncodedLength(s, i);
            1 <= n <= |s| - i && s[i + n - 1] < 0x80 &&
            forall j :: i <= j < i + n - 1 ==> s[j] >= 0x80
    decreases |s| - i
  {
    if s[i] >= 0x80 {
      var k :| i <= k < |s| && s[k] < 0x80;
      assert TerminatedFrom(s, i + 1) by { assert i + 1 <= k; }
      EncodedLengthBounds(s, i + 1);
    }
  }

  /** The encoded int ends at the first byte below 0x80: no later terminator counts. */
  lemma {:induction false} EncodedLengthFirst(s: seq<byte>, i: nat, k: nat)
    requires i <= k < |s| && s[k] < 0x80
    ensures TerminatedFrom(s, i)
    ensures EncodedLength(s, i) <= k - i + 1
    ensures (forall j :: i <= j < k ==> s[j] >= 0x80) ==> EncodedLength(s, i) == k - i + 1
    decreases k - i
  {
    if s[i] >= 0x80 {
      EncodedLengthFirst(s, i + 1, k);
    }
  }

  lemma TerminatedInBounds(s: seq<byte>, i: nat)
    requires TerminatedFrom(s, i)
    ensures i < |s|
  {
  }

  /** A byte below 0x80 is a whole encoded int: it decodes to itself and is consumed alone. */
  lemma SingleByteEncodedInt(s: seq<byte>, i: nat)
    requires i < |s| && s[i] < 0x80
    ensures TerminatedFrom(s, i)
    ensures EncodedLength(s, i) == 1 && EncodedValue(s, i, 0) == s[i] as bv32
  {
  }

  /** Two bytes: the low seven bits from the first, the next seven from the second. */
  lemma TwoByteEncodedInt(s: seq<byte>, i: nat)
    requires i + 1 < |s| && s[i] >= 0x80 && s[i + 1] < 0x80
    ensures TerminatedFrom(s, i)
    ensures EncodedLength(s, i) == 2
    ensures EncodedValue(s, i, 0) == ((s[i] % 0x80) as bv32) | ((s[i + 1] as bv32) << 7)
  {
    assert TerminatedFrom(s, i + 1);
    assert NextShift(0) == 7;
    assert GroupBits(s[i], 0) == (s[i] % 0x80) as bv32 by {
      assert (0 as bv32) & 31 == 0;
    }
    assert GroupBits(s[i + 1], 7) == (s[i + 1] as bv32) << 7 by {
      assert (7 as bv32) & 31 == 7;
      assert s[i + 1] % 0x80 == s[i + 1];
    }
  }

  /** The progress of the decoding loop: `acc` holds the groups before `pos`. */
  predicate DecodedSoFar(s: seq<byte>, start: nat, pos: nat, shift: bv32, acc: bv32)
  {
    start <= pos && TerminatedFrom(s, start) && TerminatedFrom(s, pos) &&
    EncodedValue(s, start, 0) == Accumulate(acc, EncodedValue(s, pos, shift)) &&
    EncodedLength(s, start) == pos - start + EncodedLength(s, pos)
  }

  lemma AccumulateAssociative(a: bv32, b: bv32, c: bv32)
    ensures Accumulate(Accumulate(a, b), c) == Accumulate(a, Accumulate(b, c))
  {
  }

  lemma DecodeStart(s: seq<byte>, start: nat)
    requires TerminatedFrom(s, start)
    ensures DecodedSoFar(s, start, start, 0, 0)
  {
  }

  /** One byte of the loop: either decoding goes on, or the value is complete. */
  lemma DecodeStep(s: seq<byte>, start: nat, pos: nat, shift: bv32, acc: bv32)
    requires DecodedSoFar(s, start, pos, shift, acc)
    ensures pos < |s|
    ensures s[pos] >= 0x80 ==> DecodedSoFar(s, start, pos + 1, NextShift(shift), Accumulate(acc, GroupBits(s[pos], shift)))
    ensures s[pos] < 0x80 ==>
              EncodedValue(s, start, 0) == Accumulate(acc, GroupBits(s[pos], shift)) &&
              EncodedLength(s, start) == pos + 1 - start
  {
    TerminatedInBounds(s, pos);
    if s[pos] >= 0x80 {
      DecodeMore(s, start, pos, shift, acc);
    } else {
      DecodeLast(s, start, pos, shift, acc);
    }
  }

  /** A continuation byte: its group joins the accumulator and decoding moves on. */
  lemma DecodeMore(s: seq<byte>, start: nat, pos: nat, shift: bv32, acc: bv32)
    requires DecodedSoFar(s, start, pos, shift, acc) && pos < |s| && s[pos] >= 0x80
    ensures DecodedSoFar(s, start, pos + 1, NextShift(shift), Accumulate(acc, GroupBits(s[pos], shift)))
  {
    AccumulateAssociative(acc, GroupBits(s[pos], shift), EncodedValue(s, pos + 1, NextShift(shift)));
  }

  /** The last byte: its group completes the value. */
  lemma DecodeLast(s: seq<byte>, start: nat, pos: nat, shift: bv32, acc: bv32)
    requires DecodedSoFar(s, start, pos, shift, acc) && pos < |s| && s[pos] < 0x80
    ensures EncodedValue(s, start, 0) == Accumulate(acc, GroupBits(s[pos], shift))
    ensures EncodedLength(s, start) == pos + 1 - start
  {
  }

  // ---------------------------------------------------------------------
  // Entity references

  /** The `n` unsigned 32-bit serials stored from `p` on. */
  function SerialsAt(s: seq<byte>, p: nat, n: nat): (r: seq<nat>)
    requires p + 4 * n <= |s|
    ensures |r| == n
  {
    if n == 0 then [] else SerialsAt(s, p, n - 1) + [UInt32At(s, p + 4 * (n - 1))]
  }

  /** The lookups of `serials` that found an entity, in read order. */
  function Resolved<E>(serials: seq<nat>, find: nat -> Option<E>): (r: seq<E>)
    ensures |r| <= |serials|
  {
    if serials == [] then []
    else
      var prev := Resolved(serials[..|serials| - 1], find);
      match find(serials[|serials| - 1])
      case Some(e) => prev + [e]
      case None => prev
  }

  /** Resolution keeps the read order: it distributes over concatenation. */
  lemma {:induction false} ResolvedAppend<E>(a: seq<nat>, b: seq<nat>, find: nat -> Option<E>)
    ensures Resolved(a + b, find) == Resolved(a, find) + Resolved(b, find)
    decreases |b|
  {
    if b == [] {
      assert a + b == a;
    } else {
      var b' := b[..|b| - 1];
      assert (a + b)[..|a + b| - 1] == a + b';
      ResolvedAppend(a, b', find);
    }
  }

  /** An entity is in the list exactly when the lookup of some serial found it. */
  lemma {:induction false} ResolvedMembers<E>(serials: seq<nat>, find: nat -> Option<E>, e: E)
    ensures e in Resolved(serials, find) <==> exists i :: 0 <= i < |serials| && find(serials[i]) == Some(e)
    decreases |serials|
  {
    if serials != [] {
      var prev := serials[..|serials| - 1];
      ResolvedMembers(prev, find, e);
      if e in Resolved(serials, find) && e !in Resolved(prev, find) {
        assert find(serials[|serials| - 1]) == Some(e);
      }
      if exists i :: 0 <= i < |serials| && find(serials[i]) == Some(e) {
        var i :| 0 <= i < |serials| && find(serials[i]) == Some(e);
        if i < |prev| {
          assert prev[i] == serials[i];
        }
      }
    }
  }

  /** The members of a sequence, as the set a HashSet collects. */
  function Elements<E(==)>(s: seq<E>): set<E>
  {
    set e | e in s
  }

  /** One more serial read: its lookup result, if any, comes last. */
  lemma ResolvedStep<E>(s: seq<byte>, first: nat, i: nat, find: nat -> Option<E>)
    requires first + 4 * (i + 1) <= |s|
    ensures Resolved(SerialsAt(s, first, i + 1), find)
            == Resolved(SerialsAt(s, first, i), find)
               + (match find(UInt32At(s, first + 4 * i)) case Some(e) => [e] case None => [])
  {
    var serials := SerialsAt(s, first, i + 1);
    assert serials[..i] == SerialsAt(s, first, i);
  }

  /** Adding an element to the sequence adds it to the set. */
  lemma ElementsSnoc<E>(list: seq<E>, e: E)
    ensures Elements(list + [e]) == Elements(list) + {e}
  {
  }

  // ---------------------------------------------------------------------
  // Seek

  function SeekBase(position: nat, length: nat, origin: SeekOrigin): int
  {
    match origin
    case Begin => 0
    case Current => position
    case End => length
  }

  /** A C# int: a signed 32-bit value. */
  type Int32 = x: int | -0x8000_0000 <= x < 0x8000_0000

  /**
   * What a C# int addition leaves of the exact sum `v`: the one signed
   * 32-bit value congruent to `v` modulo 2^32.
   */
  function Wrap32(v: int): (r: Int32)
    ensures (r - v) % 0x1_0000_0000 == 0
    ensures -0x8000_0000 <= v < 0x8000_0000 ==> r == v
  {
    var u := v % 0x1_0000_0000;
    if u < 0x8000_0000 then u else u - 0x1_0000_0000
  }

  /**
   * The new position: the origin plus the offset, added as C# ints (so the
   * sum wraps), then clamped below at 0.
   */
  function SeekTarget(position: nat, length: nat, offset: Int32, origin: SeekOrigin): (r: nat)
    ensures r < 0x8000_0000
    ensures r >= Wrap32(SeekBase(position, length, origin) + offset)
    ensures r == 0 || r == Wrap32(SeekBase(position, length, origin) + offset)
  {
    var t := Wrap32(SeekBase(position, length, origin) + offset);
    if t < 0 then 0 else t
  }

  /** The bounds the reader's debug assertions state for each origin. */
  predicate SeekIntended(position: nat, length: nat, offset: Int32, origin: SeekOrigin)
  {
    match origin
    case End => offset <= 0 && offset + length > 0
    case Begin => offset >= 0 && offset < length
    case Current => position + offset >= 0 && position + offset < length
  }

  /**
   * Within the intended bounds a seek neither wraps nor clamps and stays
   * inside the buffer, whose length, being a C# array's, is below 2^31.
   */
  lemma SeekIntendedInBounds(position: nat, length: nat, offset: Int32, origin: SeekOrigin)
    requires length < 0x8000_0000
    requires SeekIntended(position, length, offset, origin)
    ensures SeekTarget(position, length, offset, origin) == SeekBase(position, length, origin) + offset
    ensures origin == End ==> 0 < SeekTarget(position, length, offset, origin) <= length
    ensures origin != End ==> SeekTarget(position, length, offset, origin) < length
  {
  }

  /**
   * A target past int.MaxValue wraps to a negative int and clamps to 0:
   * such a seek rewinds to the start.
   */
  lemma SeekOverflowRewinds(position: nat, length: nat, offset: Int32, origin: SeekOrigin)
    requires 0x8000_0000 <= SeekBase(position, length, origin) + offset < 0x1_0000_0000
    ensures SeekTarget(position, length, offset, origin) == 0
  {
  }

  // ---------------------------------------------------------------------
  // Strings

  /** The bytes a ReadString at `p` touches lie inside `s`. */
  predicate StringReadable(s: seq<byte>, p: nat)
  {
    p < |s| &&
    (s[p] != 0 ==>
      TerminatedFrom(s, p + 1) &&
      var length := ToInt32(EncodedValue(s, p + 1, 0));
      length <= 0 || p + 1 + EncodedLength(s, p + 1) + length <= |s|)
  }

  // ---------------------------------------------------------------------
  // The cursor

  class BufferReader {
    var buffer: array<byte>
    var position: nat

    constructor (buffer: array<byte>)
      ensures this.buffer == buffer && position == 0
    {
      this.buffer := buffer;
      position := 0;
    }

    /** Replaces the buffer, hands back the old one and rewinds to 0. */
    method SwapBuffers(newBuffer: array<byte>) returns (oldBuffer: array<byte>)
      modifies this
      ensures oldBuffer == old(buffer) && buffer == newBuffer && position == 0
    {
      oldBuffer := buffer;
      buffer := newBuffer;
      position := 0;
    }

    method ReadByte() returns (v: byte)
      requires position < buffer.Length
      modifies this`position
      ensures v == buffer[old(position)] && position == old(position) + 1
    {
      v := buffer[position];
      position := position + 1;
    }

    method ReadSByte() returns (v: int)
      requires position < buffer.Length
      modifies this`position
      ensures -128 <= v < 128 && v % 256 == buffer[old(position)] as int
      ensures position == old(position) + 1
    {
      var b := ReadByte();
      v := ToSigned(b as nat, 1);
    }

    method ReadBool() returns (v: bool)
      requires position < buffer.Length
      modifies this`position
      ensures v == (buffer[old(position)] != 0) && position == old(position) + 1
    {
      var b := ReadByte();
      v := b != 0;
    }

    method ReadUShort() returns (v: nat)
      requires position + 2 <= buffer.Length
      modifies this`position
      ensures v == buffer[old(position)] as nat + 256 * buffer[old(position) + 1] as nat
      ensures position == old(position) + 2
    {
      v := LeValue(buffer[position..position + 2]);
      LeValue2(buffer[position..position + 2]);
      position := position + 2;
    }

    method ReadShort() returns (v: int)
      requires position + 2 <= buffer.Length
      modifies this`position
      ensures v == ToSigned(LeValue(buffer[old(position)..old(position) + 2]), 2)
      ensures -0x8000 <= v < 0x8000
      ensures position == old(position) + 2
    {
      var u := LeValue(buffer[position..position + 2]);
      LeValueBound(buffer[position..position + 2]);
      SignedRange(u, 2);
      assert Pow256(2) == 0x1_0000;
      v := ToSigned(u, 2);
      position := position + 2;
    }

    method ReadUInt() returns (v: nat)
      requires position + 4 <= buffer.Length
      modifies this`position
      ensures v == UInt32At(buffer[..], old(position)) && v < 0x1_0000_0000
      ensures position == old(position) + 4
    {
      assert buffer[..][position..position + 4] == buffer[position..position + 4];
      v := LeValue(buffer[position..position + 4]);
      LeValueBound(buffer[position..position + 4]);
      assert Pow256(4) == 0x1_0000_0000;
      position := position + 4;
    }

    method ReadInt() returns (v: int)
      requires position + 4 <= buffer.Length
      modifies this`position
      ensures v == Int32At(buffer[..], old(position)) && -0x8000_0000 <= v < 0x8000_0000
      ensures position == old(position) + 4
    {
      assert buffer[..][position..position + 4] == buffer[position..position + 4];
      var u := LeValue(buffer[position..position + 4]);
      LeValueBound(buffer[position..position + 4]);
      SignedRange(u, 4);
      assert Pow256(4) == 0x1_0000_0000;
      v := ToSigned(u, 4);
      position := position + 4;
    }

    method ReadULong() returns (v: nat)
      requires position + 8 <= buffer.Length
      modifies this`position
      ensures v == LeValue(buffer[old(position)..old(position) + 8]) && v < Pow256(8)
      ensures position == old(position) + 8
    {
      v := LeValue(buffer[position..position + 8]);
      LeValueBound(buffer[position..position + 8]);
      position := position + 8;
    }

    method ReadLong() returns (v: int)
      requires position + 8 <= buffer.Length
      modifies this`position
      ensures v == ToSigned(LeValue(buffer[old(position)..old(position) + 8]), 8)
      ensures -(Pow256(8) / 2) <= v < Pow256(8) / 2
      ensures position == old(position) + 8
    {
      var u := LeValue(buffer[position..position + 8]);
      LeValueBound(buffer[position..position + 8]);
      SignedRange(u, 8);
      v := ToSigned(u, 8);
      position := position + 8;
    }

    /** Reads an encoded int: its 32 accumulated bits, taken as a C# int. */
    method ReadEncodedInt() returns (v: int)
      requires TerminatedFrom(buffer[..], position)
      modifies this`position
      ensures v == ToInt32(EncodedValue(buffer[..], old(position), 0))
      ensures position == old(position) + EncodedLength(buffer[..], old(position))
    {
      var bits := ReadEncodedBits();
      v := ToInt32(bits);
    }

    /**
     * The do-while loop of ReadEncodedInt: one group per byte, `more` being
     * the loop condition evaluated on the byte just read.
     */
    method ReadEncodedBits() returns (acc: bv32)
      requires TerminatedFrom(buffer[..], position)
      modifies this`position
      ensures acc == EncodedValue(buffer[..], old(position), 0)
      ensures position == old(position) + EncodedLength(buffer[..], old(position))
    {
      ghost var s := buffer[..];
      ghost var start := position;
      acc := 0;
      var shift: bv32 := 0;
      DecodeStart(s, start);
      var more := true;
      while more
        invariant s == buffer[..]
        invariant more ==> DecodedSoFar(s, start, position, shift, acc)
        invariant !more ==> acc == EncodedValue(s, start, 0) && position == start + EncodedLength(s, start)
        decreases buffer.Length - position, more
      {
        TerminatedInBounds(s, position);
        var b := buffer[position];
        DecodeStep(s, start, position, shift, acc);
        acc := Accumulate(acc, GroupBits(b, shift));
        position := position + 1;
        shift := NextShift(shift);
        more := b >= 0x80;
      }
    }

    /**
     * A presence byte, then an encoded length, then that many payload bytes
     * (kept raw: the text decoding is not modelled). None stands for null.
     */
    method ReadString() returns (r: Option<seq<byte>>)
      requires StringReadable(buffer[..], position)
      modifies this`position
      ensures old(buffer[position]) == 0 ==> r == None && position == old(position) + 1
      ensures old(buffer[position]) != 0 ==>
                var n := EncodedLength(buffer[..], old(position) + 1);
                var length := ToInt32(EncodedValue(buffer[..], old(position) + 1, 0));
                if length <= 0 then r == Some([]) && position == old(position) + 1 + n
                else r == Some(buffer[old(position) + 1 + n..old(position) + 1 + n + length])
                     && position == old(position) + 1 + n + length
    {
      var present := ReadBool();
      if !present {
        return None;
      }
      var length := ReadEncodedInt();
      if length <= 0 {
        return Some([]);
      }
      r := Some(buffer[position..position + length]);
      position := position + length;
    }

    /**
     * Copies as many bytes as `dest` holds; when fewer are left it fails and
     * nothing moves.
     */
    method Read(dest: array<byte>) returns (r: Result<nat, ReadError>)
      modifies this`position, dest
      ensures dest.Length > buffer.Length - old(position) ==>
                r == Err(OutOfMemory) && position == old(position) && dest[..] == old(dest[..])
      ensures dest.Length <= buffer.Length - old(position) ==>
                r == Ok(dest.Length) && position == old(position) + dest.Length
                && dest[..] == old(buffer[position..position + dest.Length])
    {
      var length := dest.Length;
      if length > buffer.Length - position {
        return Err(OutOfMemory);
      }
      var source := buffer[position..position + length];
      forall i | 0 <= i < length {
        dest[i] := source[i];
      }
      position := position + length;
      r := Ok(length);
    }

    method ReadPoint2D() returns (p: Point2D)
      requires position + 8 <= buffer.Length
      modifies this`position
      ensures p == Point2D(Int32At(buffer[..], old(position)), Int32At(buffer[..], old(position) + 4))
      ensures position == old(position) + 8
    {
      var x := ReadInt();
      var y := ReadInt();
      p := Point2D(x, y);
    }

    method ReadPoint3D() returns (p: Point3D)
      requires position + 12 <= buffer.Length
      modifies this`position
      ensures p == Point3D(Int32At(buffer[..], old(position)), Int32At(buffer[..], old(position) + 4),
                           Int32At(buffer[..], old(position) + 8))
      ensures position == old(position) + 12
    {
      var x := ReadInt();
      var y := ReadInt();
      var z := ReadInt();
      p := Point3D(x, y, z);
    }

    method ReadRect2D() returns (r: Rectangle2D)
      requires position + 16 <= buffer.Length
      modifies this`position
      ensures r.start == Point2D(Int32At(buffer[..], old(position)), Int32At(buffer[..], old(position) + 4))
      ensures r.end == Point2D(Int32At(buffer[..], old(position) + 8), Int32At(buffer[..], old(position) + 12))
      ensures position == old(position) + 16
    {
      var start := ReadPoint2D();
      var end := ReadPoint2D();
      r := Rectangle2D(start, end);
    }

    method ReadRect3D() returns (r: Rectangle3D)
      requires position + 24 <= buffer.Length
      modifies this`position
      ensures r.start == Point3D(Int32At(buffer[..], old(position)), Int32At(buffer[..], old(position) + 4),
                                 Int32At(buffer[..], old(position) + 8))
      ensures r.end == Point3D(Int32At(buffer[..], old(position) + 12), Int32At(buffer[..], old(position) + 16),
                               Int32At(buffer[..], old(position) + 20))
      ensures position == old(position) + 24
    {
      var start := ReadPoint3D();
      var end := ReadPoint3D();
      r := Rectangle3D(start, end);
    }

    /** A serial, resolved through the registry lookup `find`. */
    method ReadEntity<E>(find: nat -> Option<E>) returns (e: Option<E>)
      requires position + 4 <= buffer.Length
      modifies this`position
      ensures e == find(UInt32At(buffer[..], old(position))) && position == old(position) + 4
    {
      var serial := ReadUInt();
      e := find(serial);
    }

    /** A signed count, then that many serials; unresolved ones are dropped. */
    method ReadEntityList<E>(find: nat -> Option<E>) returns (r: Result<seq<E>, ReadError>)
      requires position + 4 <= buffer.Length
      requires Int32At(buffer[..], position) >= 0 ==>
                 position + 4 + 4 * Int32At(buffer[..], position) <= buffer.Length
      modifies this`position
      ensures var count := Int32At(buffer[..], old(position));
              if count < 0 then r == Err(NegativeCount) && position == old(position) + 4
              else r == Ok(Resolved(SerialsAt(buffer[..], old(position) + 4, count), find))
                   && position == old(position) + 4 + 4 * count
    {
      var count := ReadInt();
      if count < 0 {
        return Err(NegativeCount);
      }
      var list := ReadResolvedList(count, find);
      r := Ok(list);
    }

    /** The loop of ReadEntityList: `count` serials, resolved in read order. */
    method ReadResolvedList<E>(count: nat, find: nat -> Option<E>) returns (list: seq<E>)
      requires position + 4 * count <= buffer.Length
      modifies this`position
      ensures list == Resolved(SerialsAt(buffer[..], old(position), count), find)
      ensures position == old(position) + 4 * count
    {
      ghost var s := buffer[..];
      ghost var first := position;
      list := [];
      for i := 0 to count
        invariant buffer[..] == s
        invariant position == first + 4 * i
        invariant list == Resolved(SerialsAt(s, first, i), find)
      {
        var entity := ReadEntity(find);
        assert entity == find(UInt32At(s, first + 4 * i));
        ResolvedStep(s, first, i, find);
        if entity.Some? {
          list := list + [entity.value];
        }
      }
    }

    /** As ReadEntityList, collecting the resolved entities into a set. */
    method ReadEntitySet<E(==)>(find: nat -> Option<E>) returns (r: Result<set<E>, ReadError>)
      requires position + 4 <= buffer.Length
      requires Int32At(buffer[..], position) >= 0 ==>
                 position + 4 + 4 * Int32At(buffer[..], position) <= buffer.Length
      modifies this`position
      ensures var count := Int32At(buffer[..], old(position));
              if count < 0 then r == Err(NegativeCount) && position == old(position) + 4
              else r == Ok(Elements(Resolved(SerialsAt(buffer[..], old(position) + 4, count), find)))
                   && position == old(position) + 4 + 4 * count
    {
      var count := ReadInt();
      if count < 0 {
        return Err(NegativeCount);
      }
      var entities := ReadResolvedSet(count, find);
      r := Ok(entities);
    }

    /** The loop of ReadEntitySet: the set of the entities `count` serials resolve to. */
    method ReadResolvedSet<E(==)>(count: nat, find: nat -> Option<E>) returns (entities: set<E>)
      requires position + 4 * count <= buffer.Length
      modifies this`position
      ensures entities == Elements(Resolved(SerialsAt(buffer[..], old(position), count), find))
      ensures position == old(position) + 4 * count
    {
      ghost var s := buffer[..];
      ghost var first := position;
      ghost var list: seq<E> := [];
      entities := {};
      for i := 0 to count
        invariant buffer[..] == s
        invariant position == first + 4 * i
        invariant list == Resolved(SerialsAt(s, first, i), find)
        invariant entities == Elements(list)
      {
        var entity := ReadEntity(find);
        assert entity == find(UInt32At(s, first + 4 * i));
        ResolvedStep(s, first, i, find);
        if entity.Some? {
          ElementsSnoc(list, entity.value);
          list := list + [entity.value];
          entities := entities + {entity.value};
        }
      }
    }

    /** Moves to the target of the seek, clamped at 0, and returns it. */
    method Seek(offset: Int32, origin: SeekOrigin) returns (r: nat)
      modifies this`position
      ensures r == position == SeekTarget(old(position), buffer.Length, offset, origin)
    {
      position := SeekTarget(position, buffer.Length, offset, origin);
      r := position;
    }
  }
}
