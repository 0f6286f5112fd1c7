// The read buffer of the Rust server's TLS layer (src/tls/buffer.rs): the
// bytes received so far and a read position, with `Read` and `Seek`. The
// byte vector is public and filled by the caller; the position only moves.
module RustBuffer {
  import opened Wrappers
  import opened Bytes
  import opened RustIo

  const TWO_64: int := 0x1_0000_0000_0000_0000
  const I64_MIN: int := -0x8000_0000_0000_0000
  const I64_MAX: int := 0x7fff_ffff_ffff_ffff

  type U64 = x: int | 0 <= x < TWO_64
  type I64 = x: int | I64_MIN <= x <= I64_MAX

  /** Two's-complement reading of a 64-bit pattern, as `as isize` and a
      wrapping `i64` addition give on a 64-bit target. */
  function WrapI64(x: int): (r: I64)
    ensures (r - x) % TWO_64 == 0
    ensures I64_MIN <= x <= I64_MAX ==> r == x
  {
    (x - I64_MIN) % TWO_64 + I64_MIN
  }

  /** `std::io::SeekFrom`. */
  datatype SeekFrom = Start(start: U64) | End(fromEnd: I64) | Current(fromCurrent: I64)

  /** The position `seek` aims at, before it is checked against the buffer. */
  function Target(pos: SeekFrom, len: nat, index: nat): (t: I64)
    requires len <= I64_MAX && index <= I64_MAX
    ensures pos.Start? && pos.start <= I64_MAX ==> t == pos.start
    ensures pos.Start? && pos.start > I64_MAX ==> t < 0
    ensures pos.End? && I64_MIN <= pos.fromEnd + len <= I64_MAX ==> t == pos.fromEnd + len
    ensures pos.Current? && I64_MIN <= pos.fromCurrent + index <= I64_MAX ==> t == pos.fromCurrent + index
  {
    match pos
    case Start(offset) => WrapI64(offset)
    case End(offset) => WrapI64(offset + len)
    case Current(offset) => WrapI64(offset + index)
  }

  const BELOW_ZERO := "Cannot seek below 0"

  class Buffer {
    var buf: seq<Byte>
    var index: nat

    /** The position never passes the end, and a `Vec` holds at most
        `isize::MAX` bytes. */
    predicate Valid()
      reads this
    {
      index <= |buf| <= I64_MAX
    }

    /** `Buffer::new`. */
    constructor ()
      ensures Valid() && buf == [] && index == 0
    {
      buf := [];
      index := 0;
    }

    /** `Buffer::with_capacity`: the capacity is only an allocation hint. */
    constructor WithCapacity(capacity: nat)
      ensures Valid() && buf == [] && index == 0
    {
      buf := [];
      index := 0;
    }

    /** `Buffer::ready`: the bytes not read yet. */
    function Ready(): (n: nat)
      reads this
      requires Valid()
      ensures index + n == |buf|
    {
      |buf| - index
    }

    /** `Read::read`: copies as many unread bytes as fit to the front of
        `dest`, leaves the rest of `dest` alone and moves past them. */
    method Read(dest: array<Byte>) returns (n: nat)
      requires Valid()
      modifies this, dest
      ensures Valid() && buf == old(buf)
      ensures n == Min(dest.Length, |buf| - old(index))
      ensures index == old(index) + n
      ensures dest[..n] == buf[old(index)..index]
      ensures dest[n..] == old(dest[n..])
    {
      var ready := Ready();
      if ready == 0 {
        return 0;
      }
      var stop := if dest.Length > ready then ready else dest.Length;
      var i := 0;
      while i < stop
        invariant 0 <= i <= stop
        invariant buf == old(buf) && index == old(index)
        invariant dest[..i] == buf[index..index + i]
        invariant dest[i..] == old(dest[i..])
      {
        dest[i] := buf[index + i];
        i := i + 1;
      }
      index := index + stop;
      n := stop;
    }

    /** `Seek::seek`: a target below zero is refused and nothing moves; a
        target past the end stops at the end. */
    method Seek(pos: SeekFrom) returns (r: Result<nat, IoError>)
      requires Valid()
      modifies this
      ensures Valid() && buf == old(buf)
      ensures r.Err? <==> Target(pos, |buf|, old(index)) < 0
      ensures r.Err? ==> r.error == IoError(InvalidInput, BELOW_ZERO) && index == old(index)
      ensures r.Ok? ==> r.value == index
      ensures r.Ok? ==> index == Min(Target(pos, |buf|, old(index)), |buf|)
    {
      var t := Target(pos, |buf|, index);
      if t < 0 {
        return Err(IoError(InvalidInput, BELOW_ZERO));
      } else if t > |buf| {
        index := |buf|;
      } else {
        index := t;
      }
      r := Ok(index);
    }
  }

  /** Seeking from the start to a position inside the buffer lands exactly
      there, and one past `i64::MAX` wraps to a negative target. */
  lemma SeekStartExact(len: nat, index: nat, offset: nat)
    requires len <= I64_MAX && index <= len && offset <= len
    ensures Min(Target(Start(offset), len, index), len) == offset
    ensures Target(Start(I64_MAX + 1), len, index) < 0
  {
  }

  /** Seeking by zero from the current position or from the end moves to
      the position itself or to the end. */
  lemma SeekZero(len: nat, index: nat)
    requires len <= I64_MAX && index <= len
    ensures Min(Target(Current(0), len, index), len) == index
    ensures Min(Target(End(0), len, index), len) == len
  {
  }

  /** Two reads into three-byte arrays take the five buffered bytes in
      order, and a third read finds nothing; seeking back one from the
      start is refused and seeking past the end stops there. */
  method ReadSeekScenario() returns (first: seq<Byte>, second: seq<Byte>, third: nat,
                                     below: Result<nat, IoError>, past: Result<nat, IoError>)
    ensures first == [1, 2, 3] && second == [4, 5] && third == 0
    ensures below.Err? && below.error.kind == InvalidInput
    ensures past == Ok(5)
  {
    var b := new Buffer();
    b.buf := [1, 2, 3, 4, 5];
    var dest := new Byte[3](_ => 0);
    var n := b.Read(dest);
    first := dest[..n];
    n := b.Read(dest);
    second := dest[..n];
    third := b.Read(dest);
    below := b.Seek(Start(0));
    below := b.Seek(Current(-1));
    past := b.Seek(End(10));
  }
}
