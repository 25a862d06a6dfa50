/** The record types and constants that the two eBPF programs and the daemon share. */
module Common {
  import opened Words

  datatype Option<+T> = None | Some(value: T)

  predicate Distinct<T(==)>(q: seq<T>) {
    forall i, j :: 0 <= i < j < |q| ==> q[i] != q[j]
  }

  const TIMEOUT_NEW := 30_000_000_000
  const TIMEOUT_EST := 180_000_000_000

  const CLOCK_END := 0x1_0000_0000_0000_0000 - TIMEOUT_EST

  /** A clock reading in nanoseconds from which every deadline still fits in 64 bits. */
  type Instant = t: int | 0 <= t < CLOCK_END

  type Mac = m: seq<u8> | |m| == 6 witness [0, 0, 0, 0, 0, 0]

  datatype NicInfo = NicInfo(nicIp: u32, nicIfindex: u32)

  datatype ContainerInfo = ContainerInfo(containerIp: u32, containerMac: Mac, containerPort: u16, ifindex: u32)

  datatype FibMacs = FibMacs(smac: Mac, dmac: Mac)

  datatype ConnectionTuple = ConnectionTuple(srcAddr: u32, dstAddr: u32, srcPort: u16, dstPort: u16) {
    /** The endpoints of the answer. */
    function Swapped(): ConnectionTuple {
      ConnectionTuple(dstAddr, srcAddr, dstPort, srcPort)
    }
  }

  datatype NatData = NatData(natAddr: u32, natPort: u16, macs: FibMacs, devmapKey: u32)

  datatype Direction = Original | Reply

  datatype FlowState = FlowState(xlat: NatData, direction: Direction, seenReply: bool, timeout: u64)

  function NewFlow(xlat: NatData, direction: Direction, timeout: u64): FlowState {
    FlowState(xlat, direction, false, timeout)
  }
}
