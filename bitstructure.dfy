/** The bit structure of steel/bits/base.py: reads hand out the next `size`
    bits of the source, most significant first, through an accumulator that
    holds the bits of the last byte not yet handed out; get_raw_bytes packs
    the fields' raw bit values back into bytes. */
module BitStructures {
  import opened Results
  import opened PyInt
  import opened Streams
  import opened Numbers

  /** The accumulator: bits pulled and not yet handed out, and their value. */
  datatype Accumulator = Accumulator(bitsLeft: int, buffer: int)
  {
    /** Fewer than 8 bits are ever left over, and the buffer holds just them. */
    predicate Valid() {
      0 <= bitsLeft < 8 && 0 <= buffer < Pow2(bitsLeft)
    }
  }

  /** The number of bytes read pulls for a request of `size` bits:
      int(((size - bits_left) + 7) / 8), or none when the request fits. */
  function PullSize(size: nat, bitsLeft: int): (r: nat)
    ensures size > bitsLeft ==> 8 * r >= size - bitsLeft && 8 * (r - 1) < size - bitsLeft
    ensures size <= bitsLeft ==> r == 0
  {
    if size > bitsLeft then ((size - bitsLeft) + 7) / 8 else 0
  }

  /** The outcome of a read: the bits, the accumulator and the file after it. */
  datatype BitRead = BitRead(result: Result<int>, acc: Accumulator, file: Option<Source>)

  /** Structure.read(size) (steel/bits/base.py:14-27).  A request beyond the
      buffered bits reads the missing bytes from the file (the structure
      has none in write mode: AttributeError) and appends their big-endian
      value below the buffered bits; the top `size` bits are handed out and
      the rest stay buffered. A short read decodes the bytes it got as the
      leading ones. */
  function BitReadF(acc: Accumulator, file: Option<Source>, size: nat): (r: BitRead)
    requires 0 <= acc.bitsLeft
    ensures r.result.Err? ==> r.acc == acc && r.file == file
    ensures size <= acc.bitsLeft ==> r.file == file && r.result.Ok?
  {
    var n := PullSize(size, acc.bitsLeft);
    if n == 0 then
      var left := acc.bitsLeft - size;
      BitRead(Ok(Shr(acc.buffer, left)), Accumulator(left, Mask(acc.buffer, left)), file)
    else if file.None? then BitRead(Err(AttributeError), acc, file)
    else
      var rd := Read(file.value, n);
      if rd.Err? then BitRead(Err(rd.error), acc, file)
      else
        var value := BigEndianDecode(n, rd.value.0);
        var buffer := acc.buffer * Pow2(8 * n) + value;
        var left := acc.bitsLeft + 8 * n - size;
        BitRead(Ok(Shr(buffer, left)), Accumulator(left, Mask(buffer, left)), Some(rd.value.1))
  }

  /** A read pulls exactly the bytes it needs, ceil((size - bits_left) / 8),
      and none when the request fits the buffered bits. */
  lemma PullsMinimal(acc: Accumulator, file: Source, size: nat)
    requires acc.Valid() && file.mode == Lenient
    ensures var r := BitReadF(acc, Some(file), size);
      && r.result.Ok?
      && (size <= acc.bitsLeft ==> r.file == Some(file))
      && (size > acc.bitsLeft ==>
            var n := ((size - acc.bitsLeft) + 7) / 8;
            && r.file.Some?
            && file.Rest() == Read(file, n).value.0 + r.file.value.Rest()
            && |Read(file, n).value.0| == Min(n, |file.Rest()|))
  {
  }

  /** A read keeps the accumulator valid, and splits the buffered and the
      pulled bits without losing any: the old buffer followed by the pulled
      bytes is the bits handed out followed by the new buffer, so the
      result is the next `size` bits and below 2^size. */
  lemma {:induction false} ReadLossless(acc: Accumulator, file: Option<Source>, size: nat)
    requires acc.Valid()
    ensures var r := BitReadF(acc, file, size);
      r.result.Ok? ==>
        var n := PullSize(size, acc.bitsLeft);
        var pulled := Pulled(acc, file, size);
        && r.acc.Valid()
        && r.acc.bitsLeft == acc.bitsLeft + 8 * n - size
        && acc.buffer * Pow2(8 * n) + pulled == r.result.value * Pow2(r.acc.bitsLeft) + r.acc.buffer
        && 0 <= r.result.value < Pow2(size)
  {
    var r := BitReadF(acc, file, size);
    if r.result.Ok? {
      ReadShape(acc, file, size);
      SplitsValid(acc.buffer, acc.bitsLeft, PullSize(size, acc.bitsLeft), size, Pulled(acc, file, size), r.result.value, r.acc);
    }
  }

  /** Splits, read off on the accumulator a read leaves. */
  lemma SplitsValid(held: int, bitsLeft: nat, n: nat, size: nat, pulled: int, res: int, next: Accumulator)
    requires 0 <= held < Pow2(bitsLeft) && bitsLeft < 8 && 0 <= pulled < Pow2(8 * n)
    requires n == PullSize(size, bitsLeft)
    requires var left := bitsLeft + 8 * n - size;
      var buffer := held * Pow2(8 * n) + pulled;
      res == Shr(buffer, left) && next == Accumulator(left, Mask(buffer, left))
    ensures next.Valid() && next.bitsLeft == bitsLeft + 8 * n - size
    ensures held * Pow2(8 * n) + pulled == res * Pow2(next.bitsLeft) + next.buffer
    ensures 0 <= res < Pow2(size)
  {
    Splits(held, bitsLeft, n, size, pulled);
  }

  /** The value of the bytes a successful read pulls: none when the request
      fits the buffered bits, else their big-endian decode. */
  function Pulled(acc: Accumulator, file: Option<Source>, size: nat): int
    requires 0 <= acc.bitsLeft
    requires BitReadF(acc, file, size).result.Ok?
  {
    var n := PullSize(size, acc.bitsLeft);
    if n == 0 then 0 else BigEndianDecode(n, Read(file.value, n).value.0)
  }

  /** A successful read, whether it pulled bytes or not, hands out the high
      bits of the buffer with the pulled bytes below it and keeps the rest. */
  lemma ReadShape(acc: Accumulator, file: Option<Source>, size: nat)
    requires 0 <= acc.bitsLeft
    ensures var r := BitReadF(acc, file, size);
      r.result.Ok? ==>
        var n := PullSize(size, acc.bitsLeft);
        var buffer := acc.buffer * Pow2(8 * n) + Pulled(acc, file, size);
        var left := acc.bitsLeft + 8 * n - size;
        && r.result.value == Shr(buffer, left) && r.acc == Accumulator(left, Mask(buffer, left))
        && 0 <= Pulled(acc, file, size) < Pow2(8 * n)
  {
    var n := PullSize(size, acc.bitsLeft);
    if n > 0 {
      Pow256IsPow2(n);
    }
    if n == 0 {
      assert Pow2(8 * 0) == 1;
      assert acc.buffer * Pow2(8 * 0) + 0 == acc.buffer;
    }
  }

  /** The arithmetic of one read: the buffer with the pulled bits below it
      splits at the new bit count into the result and the new buffer. */
  lemma Splits(held: int, bitsLeft: nat, n: nat, size: nat, pulled: int)
    requires 0 <= held < Pow2(bitsLeft) && 0 <= pulled < Pow2(8 * n)
    requires bitsLeft + 8 * n >= size
    ensures var buffer := held * Pow2(8 * n) + pulled;
      var left := bitsLeft + 8 * n - size;
      && buffer == Shr(buffer, left) * Pow2(left) + Mask(buffer, left)
      && 0 <= Shr(buffer, left) < Pow2(size)
      && 0 <= Mask(buffer, left) < Pow2(left)
  {
    var buffer := held * Pow2(8 * n) + pulled;
    var left := bitsLeft + 8 * n - size;
    Pow2Add(bitsLeft, 8 * n);
    assert buffer < Pow2(bitsLeft + 8 * n) by {
      MulMono(Pow2(8 * n), held, Pow2(bitsLeft) - 1);
    }
    Pow2Add(left, size);
    assert bitsLeft + 8 * n == left + size;
    SplitBelow(buffer, Pow2(left), Pow2(size));
  }

  /** x == (x / d) * d + x % d, with the quotient below c when x < d * c. */
  lemma SplitBelow(x: int, d: int, c: int)
    requires d > 0 && c > 0 && 0 <= x < d * c
    ensures x == (x / d) * d + x % d
    ensures 0 <= x / d < c
  {
    if x / d >= c {
      MulMono(d, c, x / d);
    }
  }

  /** The bit structure's reading state. */
  class BitStructure {
    var acc: Accumulator
    var file: Option<Source>

    /** Structure.__init__ (steel/bits/base.py:9-12): nothing buffered. */
    constructor (file: Option<Source>)
      ensures acc == Accumulator(0, 0) && this.file == file && acc.Valid()
    {
      acc := Accumulator(0, 0);
      this.file := file;
    }

    method Read(size: nat) returns (r: Result<int>)
      requires acc.Valid()
      modifies this
      ensures r == BitReadF(old(acc), old(file), size).result
      ensures acc == BitReadF(old(acc), old(file), size).acc && acc.Valid()
      ensures file == BitReadF(old(acc), old(file), size).file
    {
      ReadLossless(acc, file, size);
      var bitBuffer := acc.buffer;
      var bitsLeft := acc.bitsLeft;
      if size > bitsLeft {
        var n := ((size - bitsLeft) + 7) / 8;
        assert n == PullSize(size, acc.bitsLeft);
        if file.None? {
          return Err(AttributeError);
        }
        var rd := Streams.Read(file.value, n);
        if rd.Err? {
          return Err(rd.error);
        }
        var value := BigEndianDecode(n, rd.value.0);
        bitBuffer := bitBuffer * Pow2(8 * n) + value;
        bitsLeft := bitsLeft + 8 * n;
        file := Some(rd.value.1);
      } else {
        assert PullSize(size, acc.bitsLeft) == 0;
      }
      bitsLeft := bitsLeft - size;
      r := Ok(Shr(bitBuffer, bitsLeft));
      acc := Accumulator(bitsLeft, Mask(bitBuffer, bitsLeft));
    }
  }

  // ---------------------------------------------------------------------------
  // get_raw_bytes (steel/bits/base.py:29-43)

  /** The inner loop: while 8 or more bits are pending, shift the
      accumulator down a byte and then append its low byte. */
  function Drain(byte: int, bitsRead: int, out: Bytes): (r: (int, int, Bytes))
    decreases bitsRead
  {
    if bitsRead < 8 then (byte, bitsRead, out)
    else Drain(byte / 256, bitsRead - 8, out + [(byte / 256) % 256])
  }

  /** The outer loop over the fields, each given as its size in bits and
      its raw value. */
  function PackFrom(sizes: seq<nat>, raws: seq<int>, k: nat, byte: int, bitsRead: int, out: Bytes): Bytes
    requires |raws| == |sizes| && k <= |sizes|
    decreases |sizes| - k
  {
    if k == |sizes| then out
    else
      var d := Drain(byte * Pow2(sizes[k]) + raws[k], bitsRead + sizes[k], out);
      PackFrom(sizes, raws, k + 1, d.0, d.1, d.2)
  }

  function Pack(sizes: seq<nat>, raws: seq<int>): Bytes
    requires |raws| == |sizes|
  {
    PackFrom(sizes, raws, 0, 0, 0, [])
  }

  function TotalBits(sizes: seq<nat>): nat {
    if |sizes| == 0 then 0 else sizes[0] + TotalBits(sizes[1..])
  }

  lemma {:induction false} DrainLength(byte: int, bitsRead: int, out: Bytes)
    requires bitsRead >= 0
    ensures |Drain(byte, bitsRead, out).2| == |out| + bitsRead / 8
    ensures Drain(byte, bitsRead, out).1 == bitsRead % 8
    ensures Drain(byte, bitsRead, out).2[..|out|] == out
    decreases bitsRead
  {
    if bitsRead >= 8 {
      DrainLength(byte / 256, bitsRead - 8, out + [(byte / 256) % 256]);
      DivModUnique(bitsRead, 8, (bitsRead - 8) / 8 + 1, (bitsRead - 8) % 8);
    } else {
      DivModUnique(bitsRead, 8, 0, bitsRead);
    }
  }

  lemma CarryBits(a: int, b: int)
    requires a >= 0 && b >= 0
    ensures a / 8 + (a % 8 + b) / 8 == (a + b) / 8
  {
    var q := (a % 8 + b) / 8;
    var m := (a % 8 + b) % 8;
    assert a + b == 8 * (a / 8 + q) + m;
    DivModUnique(a + b, 8, a / 8 + q, m);
  }

  lemma {:induction false} PackFromLength(sizes: seq<nat>, raws: seq<int>, k: nat, byte: int, bitsRead: int, out: Bytes)
    requires |raws| == |sizes| && k <= |sizes| && 0 <= bitsRead < 8
    ensures |PackFrom(sizes, raws, k, byte, bitsRead, out)| == |out| + (bitsRead + TotalBits(sizes[k..])) / 8
    decreases |sizes| - k
  {
    if k == |sizes| {
      assert sizes[k..] == [];
    } else {
      var s := sizes[k];
      var d := Drain(byte * Pow2(s) + raws[k], bitsRead + s, out);
      DrainLength(byte * Pow2(s) + raws[k], bitsRead + s, out);
      PackFromLength(sizes, raws, k + 1, d.0, d.1, d.2);
      assert sizes[k..][1..] == sizes[k + 1..];
      CarryBits(bitsRead + s, TotalBits(sizes[k + 1..]));
    }
  }

  /** One byte per 8 declared bits, the bits left over dropped. */
  lemma PackLength(sizes: seq<nat>, raws: seq<int>)
    requires |raws| == |sizes|
    ensures |Pack(sizes, raws)| == TotalBits(sizes) / 8
  {
    PackFromLength(sizes, raws, 0, 0, 0, []);
    assert sizes[0..] == sizes;
  }

  /** The shift comes before the append, so the bits of a field are not
      what is emitted: an 8-bit field holding 0xAB, or two 4-bit fields
      holding 0xA and 0xB, save as a single zero byte. */
  lemma PackDropsBits()
    ensures Pack([8], [0xAB]) == [0]
    ensures Pack([4, 4], [0xA, 0xB]) == [0]
  {
    assert Pow2(4) == 16;
    assert Pow2(8) == 256;
  }

  /** Structure.get_raw_bytes once every field holds raw bits, as loops. */
  method GetRawBytes(sizes: seq<nat>, raws: seq<int>) returns (output: Bytes)
    requires |raws| == |sizes|
    ensures output == Pack(sizes, raws)
    ensures |output| == TotalBits(sizes) / 8
  {
    PackLength(sizes, raws);
    output := [];
    var bitsRead := 0;
    var byte := 0;
    var k := 0;
    while k < |sizes|
      invariant 0 <= k <= |sizes|
      invariant PackFrom(sizes, raws, k, byte, bitsRead, output) == Pack(sizes, raws)
    {
      bitsRead := bitsRead + sizes[k];
      byte := byte * Pow2(sizes[k]) + raws[k];
      ghost var start := (byte, bitsRead, output);
      while bitsRead >= 8
        invariant Drain(byte, bitsRead, output) == Drain(start.0, start.1, start.2)
        decreases bitsRead
      {
        byte := byte / 256;
        output := output + [byte % 256];
        bitsRead := bitsRead - 8;
      }
      k := k + 1;
    }
  }
}
