/** The growable byte buffer of buffer.h: `struct buffer` and the macros
    buffer_init, buffer_write and buffer_writestr that update it in place. */
module Buffers {
  import opened Bytes

  class Buffer {
    var buf: array?<byte>   // null until the first reallocation
    var size: nat           // bytes in use
    var memsize: nat        // bytes allocated

    /** The allocation is null exactly when nothing was ever allocated, holds
        memsize bytes otherwise, and always covers the bytes in use. */
    ghost predicate Valid()
      reads this
    {
      (buf == null <==> memsize == 0) &&
      (buf != null ==> buf.Length == memsize) &&
      size <= memsize
    }

    /** The bytes written so far. */
    function Contents(): (r: seq<byte>)
      reads this, buf
      requires Valid()
      ensures |r| == size
    {
      if buf == null then [] else buf[..size]
    }

    /** buffer_init: no allocation, nothing written. */
    constructor Init()
      ensures Valid()
      ensures buf == null && size == 0 && memsize == 0
      ensures Contents() == []
    {
      buf := null;
      size := 0;
      memsize := 0;
    }

    /** buffer_write: grows the allocation to size + |data| + 128 bytes when
        the spare room is too small (realloc, which keeps the old bytes), then
        copies data behind the bytes already written. */
    method Write(data: seq<byte>)
      requires Valid()
      modifies this, buf
      ensures Valid()
      ensures Contents() == old(Contents()) + data
      ensures size == old(size) + |data|
      ensures memsize == if old(memsize) - old(size) < |data|
                         then old(size) + |data| + 128 else old(memsize)
      ensures old(memsize) - old(size) < |data| ==> fresh(buf)
      ensures old(memsize) - old(size) >= |data| ==> buf == old(buf)
    {
      ghost var before := Contents();
      if memsize - size < |data| {
        var grown := new byte[size + |data| + 128];
        if buf != null {
          CopyInto(grown, 0, buf[..size]);
        }
        buf := grown;
        memsize := size + |data| + 128;
      }
      if |data| > 0 {
        CopyInto(buf, size, data);
      }
      size := size + |data|;
    }

    /** The memcpy of src to dst at offset at: the bytes before at stay. */
    static method CopyInto(dst: array<byte>, at: nat, src: seq<byte>)
      requires at + |src| <= dst.Length
      modifies dst
      ensures dst[..at + |src|] == old(dst[..at]) + src
    {
      ghost var keep := dst[..at];
      var j := 0;
      while j < |src|
        invariant 0 <= j <= |src|
        invariant dst[..at + j] == keep + src[..j]
      {
        dst[at + j] := src[j];
        assert dst[..at + j + 1] == dst[..at + j] + [src[j]];
        assert src[..j + 1] == src[..j] + [src[j]];
        j := j + 1;
      }
      assert src[..j] == src;
    }

    /** buffer_writestr: the 4-byte length strlen(str) followed by the bytes
        of str. str is the content of a C string, so it holds no NUL. */
    method WriteStr(str: seq<byte>)
      requires Valid()
      requires 0 !in str
      requires |str| < 0x1_0000_0000
      modifies this, buf
      ensures Valid()
      ensures Contents() == old(Contents()) + LE(|str|, 4) + str
      ensures size == old(size) + 4 + |str|
      ensures buf == old(buf) || fresh(buf)
    {
      Pow256Values();
      Write(LE(|str|, 4));
      Write(str);
    }
  }
}
