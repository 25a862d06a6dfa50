/** The incremental Internet checksum of RFC 1624, in 32-bit wrap-around arithmetic. */
module Checksum {
  import opened Words

  /** Sixteen-bit one's-complement arithmetic is arithmetic modulo this number. */
  const M: int := 0xFFFF

  function WrappingAdd32(a: u32, b: u32): u32 {
    (a + b) % 0x1_0000_0000
  }

  function Not32(a: u32): u32 {
    0xFFFF_FFFF - a
  }

  function CsumAdd(csum: u32, addend: u32): u32 {
    var res := WrappingAdd32(csum, addend);
    WrappingAdd32(res, if res < addend then 1 else 0)
  }

  function CsumFold(csum: u32): u16 {
    var csum := WrappingAdd32(csum % 0x1_0000, csum / 0x1_0000);
    var csum := WrappingAdd32(csum % 0x1_0000, csum / 0x1_0000);
    0xFFFF - csum % 0x1_0000
  }

  function CsumReplace4(csum: u32, from: u32, to: u32): u16 {
    var tmp := CsumAdd(Not32(csum), Not32(from));
    CsumFold(CsumAdd(tmp, to))
  }

  /** The checksum after replacing `from` by `to` in the data it covers, as a residue. */
  function Replaced(check: u16, from: u32, to: u32): u16 {
    (check + from - to) % M
  }

  /** A number below `M` that differs from `y` by a multiple of `M` is `y % M`. */
  lemma ResidueIsUnique(r: int, y: int, q: int)
    requires 0 <= r < M && y == r + M * q
    ensures y % M == r
  {
  }

  /** The carry of `csum_add` is the end-around carry: it casts out 2^32 - 1, and never wraps twice. */
  lemma CsumAddCastsOut(a: u32, b: u32)
    ensures CsumAdd(a, b) == if a + b < 0x1_0000_0000 then a + b else a + b - 0xFFFF_FFFF
    ensures CsumAdd(a, b) == 0 <==> a == 0 && b == 0
  {
  }

  lemma FoldOnce(x: u32)
    ensures var s := x % 0x1_0000 + x / 0x1_0000;
            && s == x - M * (x / 0x1_0000) && s <= 0x1_FFFE && (s == 0 <==> x == 0)
            && (x <= 0x1_FFFE ==> s <= 0xFFFF)
            && WrappingAdd32(x % 0x1_0000, x / 0x1_0000) == s
  {
  }

  /** Two folds are enough for any 32-bit sum, and casting out `M` loses the value 0 only for the sum 0. */
  lemma CsumFoldIsComplement(x: u32)
    ensures CsumFold(x) == if x == 0 then 0xFFFF else (0 - x as int) % M
  {
    FoldOnce(x);
    var s1 := x % 0x1_0000 + x / 0x1_0000;
    FoldOnce(s1);
    var s2 := s1 % 0x1_0000 + s1 / 0x1_0000;
    if x != 0 {
      TwoFolds(x, x / 0x1_0000, s1, s1 / 0x1_0000, s2);
    }
  }

  lemma TwoFolds(x: int, h: int, s1: int, h1: int, s2: int)
    requires s1 == x - M * h && s2 == s1 - M * h1 && 0 < s2 <= 0xFFFF
    ensures 0xFFFF - s2 == (0 - x) % M
  {
    ResidueIsUnique(0xFFFF - s2, 0 - x, -1 - (h + h1));
  }

  /** `csum_replace4` is exactly `csum + from - to` in the residues 0..0xFFFE, except for one input. */
  lemma CsumReplace4Exact(csum: u32, from: u32, to: u32)
    ensures CsumReplace4(csum, from, to) == (csum + from - to) % M
            <==> !(csum == 0xFFFF_FFFF && from == 0xFFFF_FFFF && to == 0)
    ensures csum <= 0xFFFF ==> CsumReplace4(csum, from, to) == Replaced(csum, from, to)
    ensures csum <= 0xFFFF ==> CsumReplace4(csum, from, to) <= 0xFFFE
  {
    var tmp := CsumAdd(Not32(csum), Not32(from));
    var x := CsumAdd(tmp, to);
    CsumAddCastsOut(Not32(csum), Not32(from));
    CsumAddCastsOut(tmp, to);
    CsumFoldIsComplement(x);
    if x != 0 {
      var j := if tmp == Not32(csum) + Not32(from) then 2 else 1;
      var j' := if x == tmp + to then j else j - 1;
      CastOutMultiple(csum + from - to, 0 - x as int, j');
    }
  }

  /** 2^32 - 1 is a multiple of `M`. */
  lemma CastOutMultiple(y: int, x: int, j: int)
    requires y == x + j * 0xFFFF_FFFF
    ensures y % M == x % M
  {
    assert x == x % M + M * (x / M);
    assert y == x % M + M * (x / M + j * 65537);
    ResidueIsUnique(x % M, y, x / M + j * 65537);
  }

  /** Swapping the bytes of a word is multiplication by 256 modulo `M`. */
  lemma SwapIsTimes256(v: u16)
    ensures Swap16(v) == 256 * v - M * (v / 256)
    ensures v < M ==> Swap16(v) < M && Swap16(v) == 256 * v % M
  {
    if v < M {
      ResidueIsUnique(Swap16(v), 256 * v, v / 256);
    }
  }

  lemma Swap32IsTimes256(v: u32) returns (q: int)
    ensures Swap32(v) == 256 * v + M * q
  {
    var w0, w1 := v / 0x1_0000, v % 0x1_0000;
    SwapIsTimes256(w0);
    SwapIsTimes256(w1);
    q := Swap16(w1) - w1 / 256 - w0 / 256 - 256 * w0;
  }

  /**
   * Byte-order independence: on native loads and `to_be` replacement values the update gives the native form
   * of the residue that the network-order words give. `from` and `to` are 32-bit words.
   */
  lemma ReplaceIsByteOrderIndependent(e: Endian, c: u16, from: u32, to: u32)
    ensures CsumReplace4(ToBe16(e, c), ToBe32(e, from), ToBe32(e, to)) == ToBe16(e, Replaced(c, from, to))
  {
    if e.Little? {
      var qf := Swap32IsTimes256(from);
      var qt := Swap32IsTimes256(to);
      ReplaceOnSwappedWords(c, from, to, Swap32(from), Swap32(to), qf - qt);
    } else {
      CsumReplace4Exact(c, from, to);
    }
  }

  /** The same for 16-bit words, which the code widens with zeros. */
  lemma ReplacePortIsByteOrderIndependent(e: Endian, c: u16, from: u16, to: u16)
    ensures CsumReplace4(ToBe16(e, c), ToBe16(e, from), ToBe16(e, to)) == ToBe16(e, Replaced(c, from, to))
  {
    if e.Little? {
      SwapIsTimes256(from);
      SwapIsTimes256(to);
      ReplaceOnSwappedWords(c, from, to, Swap16(from), Swap16(to), to / 256 - from / 256);
    } else {
      CsumReplace4Exact(c, from, to);
    }
  }

  lemma ReplaceOnSwappedWords(c: u16, from: u32, to: u32, from': u32, to': u32, q: int)
    requires from' - to' == 256 * (from - to) + M * q
    ensures CsumReplace4(Swap16(c), from', to') == Swap16(Replaced(c, from, to))
  {
    CsumReplace4Exact(Swap16(c), from', to');
    var r := Replaced(c, from, to);
    SwapIsTimes256(c);
    SwapIsTimes256(r);
    SwappedResidue(c + from - to, r, Swap16(c) + from' - to', Swap16(r), q - c / 256, r / 256);
  }

  lemma SwappedResidue(y: int, r: int, y': int, r': int, q: int, q': int)
    requires r == y % M && y' == 256 * y + M * q && r' == 256 * r - M * q' && 0 <= r' < M
    ensures y' % M == r'
  {
    ResidueIsUnique(r', y', q + q' + 256 * (y / M));
  }
}
