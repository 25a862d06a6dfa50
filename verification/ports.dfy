/** The pool of host ports. */
module Ports {
  import opened Words
  import opened Common

  /** The ports `lo..=hi` in order. */
  function Range(lo: u16, hi: u16): (r: seq<u16>)
    ensures |r| == if lo <= hi then hi - lo + 1 else 0
    ensures forall i :: 0 <= i < |r| ==> r[i] == lo + i
    ensures forall p: u16 :: p in r <==> lo <= p <= hi
    decreases hi - lo
  {
    if lo > hi then []
    else if lo == hi then [lo]
    else [lo] + Range(lo + 1, hi)
  }

  class PortAllocator {
    var ports: seq<u16>

    constructor (lo: u16, hi: u16)
      ensures ports == Range(lo, hi)
    {
      ports := Range(lo, hi);
    }

    method AllocateNext() returns (r: Option<u16>)
      modifies this
      ensures old(ports) == [] ==> r == None && ports == []
      ensures old(ports) != [] ==> r == Some(old(ports)[0]) && ports == old(ports)[1..]
    {
      if ports == [] {
        return None;
      }
      r := Some(ports[0]);
      ports := ports[1..];
    }

    method Deallocate(port: u16)
      modifies this
      ensures ports == old(ports) + [port]
    {
      ports := ports + [port];
    }
  }
}
