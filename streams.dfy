/** Bytes and byte sources.

    A byte source is a byte sequence with a cursor.  Three behaviours occur in the core:
    - Lenient: io.BytesIO, and a structure in read mode: a read near the end
      returns fewer bytes than asked for (steel/base.py:24-31);
    - Strict: EOFBytesIO, used by incremental writes: a short read raises
      EOFError (steel/base.py:118-127);
    - Unreadable: a structure in write mode: every read raises IOError
      (steel/base.py:25-26).
    A negative size reads everything that is left, as io.BytesIO.read(-1) does. */
module Streams {
  import opened Results

  type Byte = b: int | 0 <= b < 256
  type Bytes = seq<Byte>

  datatype Mode = Lenient | Strict | Unreadable

  datatype Source = Source(data: Bytes, pos: nat, mode: Mode) {
    /** The bytes not yet consumed. */
    function Rest(): Bytes {
      if pos <= |data| then data[pos..] else []
    }
  }

  function Min(a: int, b: int): int {
    if a <= b then a else b
  }

  /** file.read(n): at most n bytes from the cursor, all of them when n < 0. */
  function Read(s: Source, n: int): (r: Result<(Bytes, Source)>)
    ensures r.Ok? ==> r.value.0 + r.value.1.Rest() == s.Rest()
    ensures r.Ok? ==> r.value.1.data == s.data && r.value.1.mode == s.mode
    ensures r.Ok? && n >= 0 ==> |r.value.0| <= n
    ensures s.mode == Unreadable <==> r == Err(IOError)
    ensures s.mode == Strict && 0 <= n ==> (r.Ok? <==> n <= |s.Rest()|)
    ensures s.mode == Lenient ==> r.Ok? && |r.value.0| == (if n < 0 then |s.Rest()| else Min(n, |s.Rest()|))
  {
    if s.mode == Unreadable then Err(IOError)
    else
      var rest := s.Rest();
      var take := if n < 0 then |rest| else Min(n, |rest|);
      if s.mode == Strict && n >= 0 && take < n then Err(EOFError)
      else Ok((rest[..take], s.(data := s.data, pos := |s.data| - |rest| + take)))
  }

  /** What a successful read returns: the first bytes of what is left, and a
      source whose remaining bytes are the others. */
  lemma ReadTakes(s: Source, n: int)
    requires s.pos <= |s.data| && Read(s, n).Ok?
    ensures var take := if n < 0 then |s.Rest()| else Min(n, |s.Rest()|);
      && Read(s, n).value.0 == s.Rest()[..take]
      && Read(s, n).value.1.Rest() == s.Rest()[take..]
  {
    var take := if n < 0 then |s.Rest()| else Min(n, |s.Rest()|);
    assert s.data[s.pos..][take..] == s.data[s.pos + take..];
  }

  /** The outcome of a read together with the source after it: a read can
      consume bytes and still fail (a mismatching literal, say). */
  datatype ReadOut<+T> = ReadOut(result: Result<T>, after: Source)

  /** The number of bytes a successful read consumed. */
  function Consumed(before: Source, after: Source): int {
    |before.Rest()| - |after.Rest()|
  }
}
