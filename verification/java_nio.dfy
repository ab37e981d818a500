/** The Java platform values the isa-l coordinators manipulate: signed bytes,
    nullable arrays, the exceptions they raise, and java.nio.ByteBuffer
    cursors. Only the behaviour the coordinators rely on is modelled. */
module JavaNio {

  /** A Java `byte`: eight bits, signed. */
  newtype byte = b: int | -128 <= b < 128

  /** A possibly-null reference. */
  datatype Option<+T> = None | Some(value: T)

  /** The exceptions the modelled code can raise. */
  datatype Exception =
    | NullPointerException
    | ArrayIndexOutOfBoundsException
    | IllegalArgumentException
    | BufferOverflowException
    | IOException(message: string)
    | UnsupportedOperationException

  /** What a Java call produced: a value, or an exception it threw. */
  datatype Result<+T> = Ok(value: T) | Thrown(exception: Exception)

  /** One call on a stateful Java object: the object's state after the call
      and its result. Java does not roll back field writes made before an
      exception, so `state` is meaningful on both kinds of result. */
  datatype Step<+S, +T> = Step(state: S, result: Result<T>)

  /** What a successful compress/decompress hands back: the count `n` it
      returns and the caller's array after the bytes were copied into it. */
  datatype Delivery = Delivery(count: int, dest: seq<byte>)

  /** Math.min on ints. */
  function Min(a: int, b: int): (m: int)
    ensures m <= a && m <= b
    ensures m == a || m == b
  {
    if a <= b then a else b
  }

  /** The condition under which `b[off..off+len]` is a legal range of an array
      of length `n`; the coordinators throw ArrayIndexOutOfBoundsException
      exactly when it fails (`off < 0 || len < 0 || off > b.length - len`). */
  predicate InBounds(n: int, off: int, len: int)
  {
    0 <= off && 0 <= len && off <= n - len
  }

  /** A call taking `(byte[] b, int off, int len)` gets past its argument
      checks: no NullPointerException and no ArrayIndexOutOfBoundsException. */
  predicate ArgsOk(b: Option<seq<byte>>, off: int, len: int)
  {
    b.Some? && InBounds(|b.value|, off, len)
  }

  /** `bytes` written over `data` starting at index `at`. */
  function Overwrite(data: seq<byte>, at: int, bytes: seq<byte>): (r: seq<byte>)
    requires 0 <= at && at + |bytes| <= |data|
    ensures |r| == |data|
    ensures r[at..at + |bytes|] == bytes
    ensures r[..at] == data[..at] && r[at + |bytes|..] == data[at + |bytes|..]
  {
    data[..at] + bytes + data[at + |bytes|..]
  }

  /** Overwriting the start of a window cut out of `d` and putting the
      window back is overwriting `d` at the window's start. */
  lemma OverwriteInWindow(d: seq<byte>, p: int, l: int, bytes: seq<byte>)
    requires 0 <= p <= l <= |d| && |bytes| <= l - p
    ensures d[..p] + Overwrite(d[p..l], 0, bytes) + d[l..] == Overwrite(d, p, bytes)
  {
    var m := d[p + |bytes| .. l];
    assert Overwrite(d[p..l], 0, bytes) == bytes + m;
    assert d[p + |bytes|..] == m + d[l..];
  }

  /** Dropping the first k bytes of a window followed by more bytes leaves
      the rest of the window followed by the same bytes. */
  lemma DropFromWindow(d: seq<byte>, o: int, l: int, k: int, o': int, u: seq<byte>)
    requires 0 <= o && 0 <= k <= l && o + l <= |d|
    requires 0 <= o' <= |d| && (k < l ==> o' == o + k)
    ensures (d[o .. o + l] + u)[k..] == d[o' .. o' + (l - k)] + u
  {
    assert d[o .. o + l][k..] == d[o' .. o' + (l - k)];
  }

  /** A sequence is its first k elements followed by the rest. */
  lemma SplitAt(s: seq<byte>, k: int)
    requires 0 <= k <= |s|
    ensures s[..k] + s[k..] == s
  {
  }

  /** Chaining two conservation equations, one step's and then the rest's:
      taken-then-owed equals owed-then-fed across both. */
  lemma Regroup(t0: seq<byte>, t: seq<byte>, u1: seq<byte>, u: seq<byte>, u0: seq<byte>, f0: seq<byte>,
                f: seq<byte>)
    requires t0 + u1 == u0 + f0
    requires t + u == u1 + f
    ensures (t0 + t) + u == u0 + (f0 + f)
  {
    calc {
      (t0 + t) + u;
      t0 + (t + u);
      t0 + (u1 + f);
      (t0 + u1) + f;
      (u0 + f0) + f;
    }
  }

  /** A java.nio.ByteBuffer: its backing bytes (the capacity is their number),
      the cursor `position`, the `limit`, and whether it is a direct buffer
      (only direct buffers have a native address). */
  datatype ByteBuffer = ByteBuffer(data: seq<byte>, position: int, limit: int, direct: bool)
  {
    /** The java.nio invariant 0 <= position <= limit <= capacity. */
    predicate Valid()
    {
      0 <= position <= limit <= |data|
    }

    function Capacity(): nat
    {
      |data|
    }

    /** Buffer.remaining(). */
    function Remaining(): int
    {
      limit - position
    }

    /** Buffer.hasRemaining(). */
    predicate HasRemaining()
    {
      position < limit
    }

    /** ByteBuffer.allocateDirect(n): zero-filled, position 0, limit n. */
    static function AllocateDirect(n: nat): (b: Buffer)
      ensures b.direct
      ensures b.Capacity() == n && b.position == 0 && b.Remaining() == n
    {
      ByteBuffer(seq(n, _ => 0), 0, n, true)
    }

    /** Buffer.clear(): position 0, limit back to the capacity. */
    function Clear(): (b: Buffer)
      requires Valid()
      ensures b.position == 0 && b.limit == b.Capacity() == Capacity()
      ensures b.data == data && b.direct == direct
    {
      this.(position := 0, limit := |data|)
    }

    /** Buffer.rewind(): position 0, limit kept. */
    function Rewind(): (b: Buffer)
      requires Valid()
      ensures b.position == 0 && b.Remaining() == limit
      ensures b.data == data && b.direct == direct
    {
      this.(position := 0)
    }

    /** `limit(n); position(n)` for a legal n: the encoding of "nothing left
        to read" that the coordinators use for their output buffers. */
    function EmptyAt(n: int): (b: Buffer)
      requires 0 <= n <= |data|
      ensures b.position == b.limit == n && b.Remaining() == 0
      ensures b.data == data && b.direct == direct
    {
      this.(limit := n, position := n)
    }

    /** Buffer.limit(n) for a legal n: a position beyond the new limit is
        pulled back to it. */
    function WithLimit(n: int): (b: Buffer)
      requires Valid() && 0 <= n <= |data|
      ensures b.limit == n
      ensures b.position == Min(position, n)
      ensures b.data == data && b.direct == direct
    {
      this.(limit := n, position := if position > n then n else position)
    }

    /** Buffer.limit(n): IllegalArgumentException for a negative n or one
        beyond the capacity, otherwise as WithLimit. */
    function SetLimit(n: int): (r: Result<Buffer>)
      requires Valid()
      ensures r.Thrown? <==> n < 0 || n > |data|
      ensures r.Thrown? ==> r.exception == IllegalArgumentException
      ensures r.Ok? ==> r.value == WithLimit(n)
    {
      if n < 0 || n > |data| then Thrown(IllegalArgumentException) else Ok(WithLimit(n))
    }

    /** Buffer.position(n): IllegalArgumentException for a negative n or one
        beyond the limit, otherwise only the position changes. */
    function SetPosition(n: int): (r: Result<Buffer>)
      requires Valid()
      ensures r.Thrown? <==> n < 0 || n > limit
      ensures r.Thrown? ==> r.exception == IllegalArgumentException
      ensures r.Ok? ==> r.value == this.(position := n)
    {
      if n < 0 || n > limit then Thrown(IllegalArgumentException) else Ok(this.(position := n))
    }

    /** ByteBuffer.slice(): a buffer over the remaining bytes only, sharing
        their content, with position 0 and limit = capacity = remaining. */
    function Slice(): (s: Buffer)
      requires Valid()
      ensures s.position == 0
      ensures s.Capacity() == s.limit == Remaining()
      ensures s.data == data[position..limit] && s.direct == direct
    {
      ByteBuffer(data[position..limit], 0, limit - position, direct)
    }

    /** ByteBuffer.put(src, off, len) when the range is legal and fits the
        remaining space: the bytes land at the position, which advances. */
    function Put(src: seq<byte>, off: int, len: int): (b: Buffer)
      requires Valid() && InBounds(|src|, off, len) && len <= Remaining()
      ensures |b.data| == |data|
      ensures b.position == position + len && b.limit == limit && b.direct == direct
      ensures b.data[position..position + len] == src[off..off + len]
      ensures b.data[..position] == data[..position]
      ensures b.data[position + len..] == data[position + len..]
    {
      this.(data := Overwrite(data, position, src[off..off + len]), position := position + len)
    }

    /** The buffer after ByteBuffer.get(dst, off, len): the position advances
        past the bytes handed out. */
    function Advance(len: int): (b: Buffer)
      requires Valid() && 0 <= len <= Remaining()
      ensures b.position == position + len
      ensures b.limit == limit && b.data == data && b.direct == direct
    {
      this.(position := position + len)
    }

    /** The array after ByteBuffer.get(dst, off, len): `len` bytes from the
        position copied to `dst[off..]`, the rest of `dst` untouched. */
    function CopyOut(dst: seq<byte>, off: int, len: int): (r: seq<byte>)
      requires Valid() && InBounds(|dst|, off, len) && len <= Remaining()
      ensures |r| == |dst|
      ensures r[off..off + len] == data[position..position + len]
      ensures r[..off] == dst[..off] && r[off + len..] == dst[off + len..]
    {
      Overwrite(dst, off, data[position..position + len])
    }
  }

  /** A buffer in a state java.nio allows. */
  type Buffer = b: ByteBuffer | b.Valid() witness ByteBuffer([], 0, 0, false)
}
