/** Fixed-width words and the bytes of a packet, as a host of either byte order sees them. */
module Words {

  type u8 = x: int | 0 <= x < 0x100
  type u16 = x: int | 0 <= x < 0x1_0000
  type u32 = x: int | 0 <= x < 0x1_0000_0000
  type u64 = x: int | 0 <= x < 0x1_0000_0000_0000_0000

  /** The byte order of the machine that runs the code. */
  datatype Endian = Little | Big

  /** The 16-bit word at offset `i`, in network order. */
  function Be16(f: seq<u8>, i: nat): u16
    requires i + 2 <= |f|
  {
    var hi: int, lo: int := f[i], f[i + 1];
    hi * 256 + lo
  }

  /** The 32-bit word at offset `i`, in network order. */
  function Be32(f: seq<u8>, i: nat): u32
    requires i + 4 <= |f|
  {
    Be16(f, i) * 0x1_0000 + Be16(f, i + 2)
  }

  /** `f` with the 16-bit word at offset `i` replaced by `v`, in network order. */
  function Put16(f: seq<u8>, i: nat, v: u16): (r: seq<u8>)
    requires i + 2 <= |f|
    ensures |r| == |f| && Be16(r, i) == v
    ensures forall j: nat {:trigger r[j]} :: j < |f| && j != i && j != i + 1 ==> r[j] == f[j]
  {
    f[i := v / 256][i + 1 := v % 256]
  }

  /** `f` with the 32-bit word at offset `i` replaced by `v`, in network order. */
  function Put32(f: seq<u8>, i: nat, v: u32): (r: seq<u8>)
    requires i + 4 <= |f|
    ensures |r| == |f| && Be32(r, i) == v
    ensures forall j: nat {:trigger r[j]} :: j < |f| && !(i <= j < i + 4) ==> r[j] == f[j]
  {
    Put16(Put16(f, i, v / 0x1_0000), i + 2, v % 0x1_0000)
  }

  function Swap16(v: u16): u16 {
    v % 256 * 256 + v / 256
  }

  function Swap32(v: u32): u32 {
    Swap16(v % 0x1_0000) * 0x1_0000 + Swap16(v / 0x1_0000)
  }

  /** `v.to_be()`, and equally `u16::from_be(v)`. */
  function ToBe16(e: Endian, v: u16): u16 {
    if e.Little? then Swap16(v) else v
  }

  /** `v.to_be()` for a 32-bit word. */
  function ToBe32(e: Endian, v: u32): u32 {
    if e.Little? then Swap32(v) else v
  }

  /** Dereferencing a `*const u16` that points at offset `i`. */
  function Load16(e: Endian, f: seq<u8>, i: nat): u16
    requires i + 2 <= |f|
  {
    var b0: int, b1: int := f[i], f[i + 1];
    if e.Little? then b1 * 256 + b0 else b0 * 256 + b1
  }

  /** Dereferencing a `*const u32` that points at offset `i`. */
  function Load32(e: Endian, f: seq<u8>, i: nat): u32
    requires i + 4 <= |f|
  {
    var b0: int, b1: int, b2: int, b3: int := f[i], f[i + 1], f[i + 2], f[i + 3];
    if e.Little? then
      b3 * 0x100_0000 + b2 * 0x1_0000 + b1 * 0x100 + b0
    else
      b0 * 0x100_0000 + b1 * 0x1_0000 + b2 * 0x100 + b3
  }

  /** Assigning through a `*mut u16` that points at offset `i`. */
  method Store16(e: Endian, frame: array<u8>, i: nat, v: u16)
    requires i + 2 <= frame.Length
    modifies frame
    ensures frame[..] == Put16(old(frame[..]), i, ToBe16(e, v))
  {
    if e.Little? {
      frame[i], frame[i + 1] := v % 256, v / 256;
    } else {
      frame[i], frame[i + 1] := v / 256, v % 256;
    }
    assert frame[..] == Put16(old(frame[..]), i, ToBe16(e, v));
  }

  /** Assigning through a `*mut u32` that points at offset `i`. */
  method Store32(e: Endian, frame: array<u8>, i: nat, v: u32)
    requires i + 4 <= frame.Length
    modifies frame
    ensures frame[..] == Put32(old(frame[..]), i, ToBe32(e, v))
  {
    if e.Little? {
      Store16(e, frame, i, v % 0x1_0000);
      Store16(e, frame, i + 2, v / 0x1_0000);
    } else {
      Store16(e, frame, i, v / 0x1_0000);
      Store16(e, frame, i + 2, v % 0x1_0000);
    }
  }

  lemma SwapTwice(v: u16)
    ensures Swap16(Swap16(v)) == v
  {
  }

  lemma Halves(w: u32, hi: u16, lo: u16)
    requires w == hi * 0x1_0000 + lo
    ensures w / 0x1_0000 == hi && w % 0x1_0000 == lo
  {
  }

  lemma ToBeIsAnInvolution(e: Endian, v: u16, w: u32)
    ensures ToBe16(e, ToBe16(e, v)) == v
    ensures ToBe32(e, ToBe32(e, w)) == w
  {
    SwapTwice(v);
    if e.Little? {
      var lo, hi := w % 0x1_0000, w / 0x1_0000;
      Halves(Swap32(w), Swap16(lo), Swap16(hi));
      SwapTwice(lo);
      SwapTwice(hi);
    }
  }

  /** A native load of network bytes is the network-order value, byte-swapped on a little-endian host. */
  lemma LoadIsToBe(e: Endian, f: seq<u8>, i: nat)
    requires i + 2 <= |f|
    ensures Load16(e, f, i) == ToBe16(e, Be16(f, i))
    ensures ToBe16(e, Load16(e, f, i)) == Be16(f, i)
  {
    SwappedBytes(f[i], f[i + 1]);
    SwappedBytes(f[i + 1], f[i]);
  }

  lemma SwappedBytes(hi: u8, lo: u8)
    ensures Swap16(hi as int * 256 + lo) == lo as int * 256 + hi
  {
  }

  lemma LoadIsToBe32(e: Endian, f: seq<u8>, i: nat)
    requires i + 4 <= |f|
    ensures Load32(e, f, i) == ToBe32(e, Be32(f, i))
  {
    if e.Little? {
      Halves(Be32(f, i), Be16(f, i), Be16(f, i + 2));
      SwappedBytes(f[i], f[i + 1]);
      SwappedBytes(f[i + 2], f[i + 3]);
    }
  }
}
