/** The log file being repaired, seen as an immutable byte sequence, and the one way
    the tool reads it: seek to an offset and issue a single `Read` into a freshly
    allocated (hence zero-filled) buffer. */
module SourceFile {
  import opened Bytes

  /** The byte a zero-filled read buffer holds for file position `i`: the file's byte
      when the position is inside the file, zero past its end. */
  function ByteAt(src: seq<byte>, i: nat): byte
  {
    if i < |src| then src[i] else 0
  }

  function Min(a: nat, b: nat): nat
  {
    if a <= b then a else b
  }

  /** `n` zero bytes: the untouched tail of a `make([]byte, n)` buffer. */
  function Zeros(n: nat): (z: seq<byte>)
    ensures |z| == n
    ensures forall i :: 0 <= i < n ==> z[i] == 0
  {
    seq(n, _ => 0)
  }

  /** Seek to `off`, allocate a buffer of `n` bytes and read once into it: the read
      fills as many bytes as the file still holds and the rest of the buffer stays
      zero. `binaryCopy` returns this buffer, and `Read` uses it for both the
      length prefix and the payload. */
  function CopyAt(src: seq<byte>, off: nat, n: nat): (r: seq<byte>)
    ensures |r| == n
    ensures forall i :: 0 <= i < n ==> r[i] == ByteAt(src, off + i)
  {
    seq(n, i requires 0 <= i < n => ByteAt(src, off + i))
  }

  /** The same read told the way `Read` fills its buffer: as many of the file's
      bytes from `off` as fit and the file still holds, then the untouched zero
      tail of the buffer. */
  lemma CopyReadsThenZeros(src: seq<byte>, off: nat, n: nat)
    ensures off < |src| ==>
              var got := Min(n, |src| - off);
              CopyAt(src, off, n) == src[off .. off + got] + Zeros(n - got)
    ensures off >= |src| ==> CopyAt(src, off, n) == Zeros(n)
  {
    if off < |src| {
      var got := Min(n, |src| - off);
      var r := src[off .. off + got] + Zeros(n - got);
      forall i | 0 <= i < n ensures CopyAt(src, off, n)[i] == r[i] {
        if i >= got {
          assert r[i] == Zeros(n - got)[i - got];
        }
      }
    }
  }

  /** A read that lies entirely inside the file returns exactly the file's bytes. */
  lemma CopyInside(src: seq<byte>, off: nat, n: nat)
    requires off + n <= |src|
    ensures CopyAt(src, off, n) == src[off .. off + n]
  {
  }
}
