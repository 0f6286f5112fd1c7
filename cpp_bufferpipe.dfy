// The C++ server's byte queue (sources/util.cpp, shared/gemcaps/util.hpp,
// shared/util.hpp): a heap buffer holding the unread bytes at
// `buffer[start .. start + length]`, grown or compacted by `write` and
// consumed from the front by `read`.
module CppBufferPipe {
  import opened Bytes

  /** Cutting a concatenation where its first part ends. */
  lemma SplitAt(s: seq<Byte>, a: seq<Byte>, b: seq<Byte>)
    requires s == a + b
    ensures s[..|a|] == a && s[|a|..] == b
  {
  }

  /** `memcpy(dst + at, src, |src|)`: `src` is written over
      `dst[at .. at + |src|]` and nothing else changes. */
  method CopyInto(dst: array<Byte>, at: nat, src: seq<Byte>)
    requires at + |src| <= dst.Length
    modifies dst
    ensures dst[..] == old(dst[..at]) + src + old(dst[at + |src|..])
  {
    var i := 0;
    while i < |src|
      invariant 0 <= i <= |src|
      invariant dst[..at] == old(dst[..at])
      invariant dst[at..at + i] == src[..i]
      invariant dst[at + i..] == old(dst[at + i..])
    {
      dst[at + i] := src[i];
      i := i + 1;
    }
    assert dst[..] == dst[..at] + dst[at..at + |src|] + dst[at + |src|..];
  }

  /** `memmove(a, a + from, n)`: the `n` bytes at `from` move to the front,
      copied front to back, which is safe because they move down; the bytes
      from `n` on are left as they were. */
  method MoveDown(a: array<Byte>, from: nat, n: nat)
    requires from + n <= a.Length
    modifies a
    ensures a[..n] == old(a[from..from + n])
    ensures a[n..] == old(a[n..])
  {
    var i := 0;
    while i < n
      invariant 0 <= i <= n
      invariant forall k :: 0 <= k < i ==> a[k] == old(a[from + k])
      invariant forall k :: i <= k < a.Length ==> a[k] == old(a[k])
    {
      a[i] := a[from + i];
      i := i + 1;
    }
  }

  class BufferPipe {
    /** The allocation: `nullptr` is an array of length zero. */
    var buffer: array<Byte>
    /** The capacity the code believes the allocation has. */
    var size: nat
    var length: nat
    var start: nat
    var closed: bool

    /** The unread bytes lie inside the allocation, and the believed
        capacity never exceeds the real one. */
    predicate Valid()
      reads this
    {
      size <= buffer.Length && start + length <= buffer.Length
    }

    /** The unread bytes, oldest first. */
    function Contents(): (r: seq<Byte>)
      reads this, buffer
      requires Valid()
      ensures |r| == length
    {
      buffer[start..start + length]
    }

    /** `BufferPipe()`: no buffer yet. */
    constructor ()
      ensures Valid() && Contents() == [] && !closed && size == 0
      ensures fresh(buffer)
    {
      buffer := new Byte[0];
      size, length, start, closed := 0, 0, 0, false;
    }

    /** `BufferPipe(size_t)`: a buffer of `size` bytes, none of them unread. */
    constructor WithSize(size: nat)
      ensures Valid() && Contents() == [] && !closed && this.size == size
      ensures fresh(buffer)
    {
      buffer := new Byte[size];
      this.size, length, start, closed := size, 0, 0, false;
    }

    /** `ready()`: the number of unread bytes. */
    function Ready(): (n: nat)
      reads this, buffer
      requires Valid()
      ensures n == |Contents()|
    {
      length
    }

    /** `peek()` of the older header: a view of the unread bytes. */
    function Peek(): (r: seq<Byte>)
      reads this, buffer
      requires Valid()
      ensures |r| == Ready()
      ensures r == buffer[start..start + Ready()]
    {
      buffer[start..start + length]
    }

    /** `is_closed()`. */
    function IsClosed(): bool
      reads this
    {
      closed
    }

    /** `close()`: only the flag changes; the unread bytes stay. */
    method Close()
      requires Valid()
      modifies this
      ensures Valid() && closed
      ensures buffer == old(buffer) && start == old(start) && length == old(length) && size == old(size)
      ensures Contents() == old(Contents())
    {
      closed := true;
    }

    /** The growth branch of `write`: the unread bytes move to the front of
        a new allocation of `length + extra` bytes; `size` is not updated. */
    method Grow(extra: nat)
      requires Valid() && length + extra > size
      modifies this
      ensures Valid() && fresh(buffer) && buffer.Length == length + extra
      ensures start == 0 && length == old(length) && size == old(size) && closed == old(closed)
      ensures Contents() == old(Contents())
    {
      var grown := new Byte[length + extra];
      CopyInto(grown, 0, buffer[start..start + length]);
      buffer := grown;
      start := 0;
    }

    /** The compaction branch of `write`: the unread bytes move to the
        front of the same allocation. */
    method Compact()
      requires Valid()
      modifies this, buffer
      ensures Valid() && buffer == old(buffer)
      ensures start == 0 && length == old(length) && size == old(size) && closed == old(closed)
      ensures Contents() == old(Contents())
    {
      MoveDown(buffer, start, length);
      start := 0;
    }

    /** `BufferPipe::write` as written: the new bytes go after the unread
        ones, whether or not the pipe is closed. Without room the unread
        bytes move to a new allocation of exactly the needed size (and
        `size` keeps its old value); when they would run past `size` they
        are moved to the front first. */
    method WriteUnchecked(data: seq<Byte>)
      requires Valid()
      modifies this, buffer
      ensures Valid() && closed == old(closed)
      ensures Contents() == old(Contents()) + data
      ensures size == old(size)
      ensures buffer == old(buffer) || fresh(buffer)
    {
      if length + |data| > size {
        Grow(|data|);
      }
      if start + length + |data| > size {
        Compact();
      }
      ghost var before := Contents();
      CopyInto(buffer, start + length, data);
      assert buffer[start..start + length + |data|] == before + data;
      length := length + |data|;
    }

    /** `write` as its interface promises: a closed pipe takes no more
        bytes. */
    method Write(data: seq<Byte>)
      requires Valid()
      modifies this, buffer
      ensures Valid() && closed == old(closed)
      ensures Contents() == if old(closed) then old(Contents()) else old(Contents()) + data
      ensures buffer == old(buffer) || fresh(buffer)
    {
      if closed {
        return;
      }
      WriteUnchecked(data);
    }

    /** `BufferPipe::read` as written: copies up to `len` unread bytes to
        the front of `dest` and moves `start` past them, but leaves `length`
        as it was, so the unread window slides past the written bytes. */
    method ReadAsWritten(len: nat, dest: array<Byte>) returns (n: nat)
      requires Valid() && len <= dest.Length && dest != buffer
      modifies this, dest
      ensures n == Min(len, old(length))
      ensures dest[..n] == old(Contents())[..n] && dest[n..] == old(dest[n..])
      ensures start == old(start) + n && length == old(length)
      ensures buffer == old(buffer) && size == old(size) && closed == old(closed)
    {
      n := Min(len, length);
      var front := buffer[start..start + n];
      ghost var tail := dest[n..];
      assert front == Contents()[..n];
      CopyInto(dest, 0, front);
      SplitAt(dest[..], front, tail);
      start := start + n;
    }

    /** `read` as intended: the bytes copied out are no longer unread. */
    method Read(len: nat, dest: array<Byte>) returns (n: nat)
      requires Valid() && len <= dest.Length && dest != buffer
      modifies this, dest
      ensures Valid() && closed == old(closed)
      ensures buffer == old(buffer) && size == old(size)
      ensures n == Min(len, old(length))
      ensures dest[..n] == old(Contents())[..n] && dest[n..] == old(dest[n..])
      ensures Contents() == old(Contents())[n..]
    {
      n := Min(len, length);
      var front := buffer[start..start + n];
      ghost var tail := dest[n..];
      assert front == Contents()[..n];
      assert buffer[start + n..start + length] == Contents()[n..];
      CopyInto(dest, 0, front);
      SplitAt(dest[..], front, tail);
      start := start + n;
      length := length - n;
    }
  }

  // ------------------------------------------------------------ scenarios

  /** Bytes written come back out in order, and a read large enough for
      all of them empties the pipe. */
  method WriteThenRead(message: seq<Byte>, room: nat) returns (got: seq<Byte>, readyAfter: nat)
    requires |message| <= room
    ensures got == message && readyAfter == 0
  {
    var pipe := new BufferPipe();
    pipe.Write(message);
    var dest := new Byte[room];
    var n := pipe.Read(room, dest);
    got := dest[..n];
    readyAfter := pipe.Ready();
  }

  /** A closed pipe takes no bytes; the code as written takes them all. */
  method WriteAfterClose(message: seq<Byte>) returns (asWritten: nat, intended: nat)
    ensures asWritten == |message| && intended == 0
  {
    var pipe := new BufferPipe();
    pipe.Close();
    pipe.WriteUnchecked(message);
    asWritten := pipe.Ready();
    var other := new BufferPipe();
    other.Close();
    other.Write(message);
    intended := other.Ready();
  }

  /** Bytes written before `close` are still there after it, and reading
      them all empties the pipe. */
  method ReadAfterClose(message: seq<Byte>, room: nat) returns (closedReady: nat, got: seq<Byte>, readyAfter: nat)
    requires |message| <= room
    ensures closedReady == |message| && got == message && readyAfter == 0
  {
    var pipe := new BufferPipe();
    pipe.Write(message);
    pipe.Close();
    closedReady := pipe.Ready();
    var dest := new Byte[room];
    var n := pipe.Read(room, dest);
    got := dest[..n];
    readyAfter := pipe.Ready();
  }

  /** As written, reading every unread byte leaves `ready()` where it was. */
  method ReadAllAsWritten(message: seq<Byte>, room: nat) returns (got: seq<Byte>, readyAfter: nat)
    requires |message| <= room
    ensures got == message && readyAfter == |message|
  {
    var pipe := new BufferPipe();
    pipe.Write(message);
    var dest := new Byte[room];
    var n := pipe.ReadAsWritten(room, dest);
    got := dest[..n];
    readyAfter := pipe.length;
  }
}
