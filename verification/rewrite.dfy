/** Rewriting the addresses, the port and the checksums of a frame in place. */
module Rewrite {
  import opened Words
  import opened Common
  import opened Packet
  import C = Checksum

  /** The endpoint of the packet that is rewritten: the source by SNAT, the destination by DNAT. */
  datatype Endpoint = Source | Destination {
    function AddrAt(): nat {
      if Source? then IP_SRC else IP_DST
    }

    function PortAt(): nat {
      if Source? then UDP_SRC else UDP_DST
    }
  }

  /** The endpoints of the packet in a frame. */
  function TupleOf(f: seq<u8>): ConnectionTuple
    requires HasHeaders(f)
  {
    ConnectionTuple(Be32(f, IP_SRC), Be32(f, IP_DST), Be16(f, UDP_SRC), Be16(f, UDP_DST))
  }

  /** `k` with the endpoint `p` replaced. */
  function Redirected(p: Endpoint, k: ConnectionTuple, addr: u32, port: u16): ConnectionTuple {
    match p
    case Source => k.(srcAddr := addr, srcPort := port)
    case Destination => k.(dstAddr := addr, dstPort := port)
  }

  function PortOf(p: Endpoint, k: ConnectionTuple): u16 {
    if p.Source? then k.srcPort else k.dstPort
  }

  /** The UDP checksum after replacing a port and an address; a residue of zero is transmitted as all ones. */
  function ReplacedUdp(check: u16, port: u16, port': u16, addr: u32, addr': u32): u16 {
    var r := C.Replaced(C.Replaced(check, port, port'), addr, addr');
    if r == 0 then 0xFFFF else r
  }

  /**
   * The UDP half of the translation. A zero UDP checksum means that the sender computed none; the code then
   * leaves the port alone as well.
   */
  function PortTranslated(p: Endpoint, xlat: NatData, f: seq<u8>): (g: seq<u8>)
    requires HasHeaders(f)
    ensures |g| == |f|
  {
    var addr, port, udp := Be32(f, p.AddrAt()), Be16(f, p.PortAt()), Be16(f, UDP_CHECK);
    if udp == 0 then
      f
    else
      Put16(Put16(f, UDP_CHECK, ReplacedUdp(udp, port, xlat.natPort, addr, xlat.natAddr)), p.PortAt(), xlat.natPort)
  }

  /** The translated frame, on network-order fields. */
  function Translated(p: Endpoint, xlat: NatData, f: seq<u8>): (g: seq<u8>)
    requires HasHeaders(f)
    ensures |g| == |f|
  {
    var check := C.Replaced(Be16(f, IP_CHECK), Be32(f, p.AddrAt()), xlat.natAddr);
    Put32(Put16(PortTranslated(p, xlat, f), IP_CHECK, check), p.AddrAt(), xlat.natAddr)
  }

  /** The update computed on native words is the native form of the residue on network-order words. */
  lemma NativePortUpdate(e: Endian, f: seq<u8>, checkAt: nat, portAt: nat, to: u16)
    requires checkAt + 2 <= |f| && portAt + 2 <= |f|
    ensures C.CsumReplace4(Load16(e, f, checkAt), Load16(e, f, portAt), ToBe16(e, to))
         == ToBe16(e, C.Replaced(Be16(f, checkAt), Be16(f, portAt), to))
  {
    var check, from := Load16(e, f, checkAt), Load16(e, f, portAt);
    assert check == ToBe16(e, Be16(f, checkAt)) by { LoadIsToBe(e, f, checkAt); }
    assert from == ToBe16(e, Be16(f, portAt)) by { LoadIsToBe(e, f, portAt); }
    C.ReplacePortIsByteOrderIndependent(e, Be16(f, checkAt), Be16(f, portAt), to);
  }

  lemma NativeAddrUpdate(e: Endian, f: seq<u8>, checkAt: nat, addrAt: nat, to: u32)
    requires checkAt + 2 <= |f| && addrAt + 4 <= |f|
    ensures C.CsumReplace4(Load16(e, f, checkAt), Load32(e, f, addrAt), ToBe32(e, to))
         == ToBe16(e, C.Replaced(Be16(f, checkAt), Be32(f, addrAt), to))
  {
    var check, from := Load16(e, f, checkAt), Load32(e, f, addrAt);
    assert check == ToBe16(e, Be16(f, checkAt)) by { LoadIsToBe(e, f, checkAt); }
    assert from == ToBe32(e, Be32(f, addrAt)) by { LoadIsToBe32(e, f, addrAt); }
    C.ReplaceIsByteOrderIndependent(e, Be16(f, checkAt), Be32(f, addrAt), to);
  }

  /** Whether the sender left the checksum out; zero reads the same on either byte order. */
  method CheckIsZero(e: Endian, frame: array<u8>, checkAt: nat) returns (zero: bool)
    requires checkAt + 2 <= frame.Length
    ensures zero <==> Be16(frame[..], checkAt) == 0
  {
    LoadIsToBe(e, frame[..], checkAt);
    zero := Load16(e, frame[..], checkAt) == 0;
  }

  /** Storing the native form of `to` puts `to` into the frame, in network order. */
  method StoreWord(e: Endian, frame: array<u8>, i: nat, toBe: u16, ghost to: u16)
    requires i + 2 <= frame.Length && toBe == ToBe16(e, to)
    modifies frame
    ensures frame[..] == Put16(old(frame[..]), i, to)
  {
    ToBeIsAnInvolution(e, to, 0);
    Store16(e, frame, i, toBe);
  }

  method StoreAddr(e: Endian, frame: array<u8>, i: nat, toBe: u32, ghost to: u32)
    requires i + 4 <= frame.Length && toBe == ToBe32(e, to)
    modifies frame
    ensures frame[..] == Put32(old(frame[..]), i, to)
  {
    ToBeIsAnInvolution(e, 0, to);
    Store32(e, frame, i, toBe);
  }

  /** Accounts in a checksum for the port at `portAt` turning into `to`. */
  method UpdateForPort(e: Endian, frame: array<u8>, checkAt: nat, portAt: nat, toBe: u16, ghost to: u16)
    requires checkAt + 2 <= frame.Length && portAt + 2 <= frame.Length
    requires toBe == ToBe16(e, to)
    modifies frame
    ensures var f := old(frame[..]);
            frame[..] == Put16(f, checkAt, C.Replaced(Be16(f, checkAt), Be16(f, portAt), to))
  {
    NativePortUpdate(e, frame[..], checkAt, portAt, to);
    var check := C.CsumReplace4(Load16(e, frame[..], checkAt), Load16(e, frame[..], portAt), toBe);
    StoreWord(e, frame, checkAt, check, C.Replaced(Be16(frame[..], checkAt), Be16(frame[..], portAt), to));
  }

  /** Accounts in a checksum for the address at `addrAt` turning into `to`. */
  method UpdateForAddr(e: Endian, frame: array<u8>, checkAt: nat, addrAt: nat, toBe: u32, ghost to: u32)
    requires checkAt + 2 <= frame.Length && addrAt + 4 <= frame.Length
    requires toBe == ToBe32(e, to)
    modifies frame
    ensures var f := old(frame[..]);
            frame[..] == Put16(f, checkAt, C.Replaced(Be16(f, checkAt), Be32(f, addrAt), to))
  {
    NativeAddrUpdate(e, frame[..], checkAt, addrAt, to);
    var check := C.CsumReplace4(Load16(e, frame[..], checkAt), Load32(e, frame[..], addrAt), toBe);
    StoreWord(e, frame, checkAt, check, C.Replaced(Be16(frame[..], checkAt), Be32(frame[..], addrAt), to));
  }

  /** A second store to the UDP checksum hides the first one, and the address is not touched in between. */
  lemma StoresCompose(p: Endpoint, f: seq<u8>, check: u16, port: u16)
    requires HasHeaders(f)
    ensures var g := Put16(Put16(f, UDP_CHECK, check), p.PortAt(), port);
            && Be16(g, UDP_CHECK) == check && Be32(g, p.AddrAt()) == Be32(f, p.AddrAt())
            && (forall c: u16, d: u16 :: Put16(Put16(g, UDP_CHECK, c), UDP_CHECK, d) == Put16(g, UDP_CHECK, d))
            && (forall c: u16 :: Put16(g, UDP_CHECK, c) == Put16(Put16(f, UDP_CHECK, c), p.PortAt(), port))
  {
    var g := Put16(Put16(f, UDP_CHECK, check), p.PortAt(), port);
    forall c: u16
      ensures Put16(g, UDP_CHECK, c) == Put16(Put16(f, UDP_CHECK, c), p.PortAt(), port)
    {
      assert Put16(g, UDP_CHECK, c) == Put16(Put16(f, UDP_CHECK, c), p.PortAt(), port);
    }
    forall c: u16, d: u16
      ensures Put16(Put16(g, UDP_CHECK, c), UDP_CHECK, d) == Put16(g, UDP_CHECK, d)
    {
      assert Put16(Put16(g, UDP_CHECK, c), UDP_CHECK, d) == Put16(g, UDP_CHECK, d);
    }
  }

  /** The UDP half leaves the IPv4 checksum and the address alone. */
  lemma PortTranslatedKeeps(p: Endpoint, xlat: NatData, f: seq<u8>)
    requires HasHeaders(f)
    ensures var g := PortTranslated(p, xlat, f);
            Be16(g, IP_CHECK) == Be16(f, IP_CHECK) && Be32(g, p.AddrAt()) == Be32(f, p.AddrAt())
  {
  }

  method ApplyIpDnat(e: Endian, xlat: NatData, frame: array<u8>)
    requires HasHeaders(frame[..])
    modifies frame
    ensures frame[..] == Translated(Destination, xlat, old(frame[..]))
  {
    var natPortBe := ToBe16(e, xlat.natPort);
    var natAddrBe := ToBe32(e, xlat.natAddr);
    ghost var f := frame[..];

    var unchecked := CheckIsZero(e, frame, UDP_CHECK);
    if !unchecked {
      UpdateForPort(e, frame, UDP_CHECK, UDP_DST, natPortBe, xlat.natPort);
      ghost var c1 := C.Replaced(Be16(f, UDP_CHECK), Be16(f, UDP_DST), xlat.natPort);
      StoreWord(e, frame, UDP_DST, natPortBe, xlat.natPort);

      StoresCompose(Destination, f, c1, xlat.natPort);
      UpdateForAddr(e, frame, UDP_CHECK, IP_DST, natAddrBe, xlat.natAddr);

      var zero := CheckIsZero(e, frame, UDP_CHECK);
      if zero {
        StoreWord(e, frame, UDP_CHECK, 0xFFFF, 0xFFFF);
      }
    }
    PortTranslatedKeeps(Destination, xlat, f);

    UpdateForAddr(e, frame, IP_CHECK, IP_DST, natAddrBe, xlat.natAddr);
    StoreAddr(e, frame, IP_DST, natAddrBe, xlat.natAddr);
  }

  method ApplyIpSnat(e: Endian, xlat: NatData, frame: array<u8>)
    requires HasHeaders(frame[..])
    modifies frame
    ensures frame[..] == Translated(Source, xlat, old(frame[..]))
  {
    var natPortBe := ToBe16(e, xlat.natPort);
    var natAddrBe := ToBe32(e, xlat.natAddr);
    ghost var f := frame[..];

    var unchecked := CheckIsZero(e, frame, UDP_CHECK);
    if !unchecked {
      UpdateForPort(e, frame, UDP_CHECK, UDP_SRC, natPortBe, xlat.natPort);
      ghost var c1 := C.Replaced(Be16(f, UDP_CHECK), Be16(f, UDP_SRC), xlat.natPort);
      StoreWord(e, frame, UDP_SRC, natPortBe, xlat.natPort);

      StoresCompose(Source, f, c1, xlat.natPort);
      UpdateForAddr(e, frame, UDP_CHECK, IP_SRC, natAddrBe, xlat.natAddr);

      var zero := CheckIsZero(e, frame, UDP_CHECK);
      if zero {
        StoreWord(e, frame, UDP_CHECK, 0xFFFF, 0xFFFF);
      }
    }
    PortTranslatedKeeps(Source, xlat, f);

    UpdateForAddr(e, frame, IP_CHECK, IP_SRC, natAddrBe, xlat.natAddr);
    StoreAddr(e, frame, IP_SRC, natAddrBe, xlat.natAddr);
  }
}
