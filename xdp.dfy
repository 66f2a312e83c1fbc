/**
  What the two XDP programs share before they touch their rate-limit map:
  the verdicts, the header gate over a received frame, and the two ways
  they turn the IPv4 source address into a 32-bit map key.
 */
module Xdp {
  import opened Words
  import opened BpfMap

  /** `XDP_ABORTED`, `XDP_DROP` and `XDP_PASS`. */
  datatype Action = Aborted | Drop | Pass

  /** `sizeof(struct ethhdr)`. */
  const ETH_HLEN: nat := 14
  /** `sizeof(struct iphdr)`: a fixed 20 bytes; IP options are never looked at. */
  const IP_HLEN: nat := 20
  /** `ETH_P_IP`, the EtherType of IPv4. */
  const ETH_P_IP: int := 0x0800
  /** Offset of `saddr` inside `struct iphdr`. */
  const SADDR_OFFSET: nat := 12

  /** The four bytes of an IPv4 source address, in the order they arrive. */
  datatype Ipv4Addr = Ipv4Addr(b0: bv8, b1: bv8, b2: bv8, b3: bv8)

  /** Why a frame is passed without consulting the map. */
  datatype SkipReason = ShortEthernet | NotIpv4 | ShortIp

  datatype Classified = Skip(reason: SkipReason) | Ipv4(saddr: Ipv4Addr)

  /** One received frame and the clock reading taken while handling it. */
  datatype Arrival = Arrival(frame: seq<bv8>, now: U64)

  /** `h_proto`, read in network byte order. */
  function EtherType(frame: seq<bv8>): (r: int)
    requires |frame| >= ETH_HLEN
    ensures 0 <= r < 0x1_0000
    ensures r == ETH_P_IP <==> frame[12] == 0x08 && frame[13] == 0x00
  {
    frame[12] as int * 0x100 + frame[13] as int
  }

  /**
    The header gate both programs run first: a frame too short for an
    Ethernet header, one whose EtherType is not IPv4, and one too short for an
    Ethernet plus a 20-byte IP header are all let through untouched; any other
    frame yields the four bytes of its IPv4 source address.
   */
  function Classify(frame: seq<bv8>): (r: Classified)
    ensures r.Ipv4? <==> |frame| >= ETH_HLEN + IP_HLEN && EtherType(frame) == ETH_P_IP
    ensures r == Skip(ShortEthernet) <==> |frame| < ETH_HLEN
    ensures r == Skip(NotIpv4) <==> |frame| >= ETH_HLEN && EtherType(frame) != ETH_P_IP
    ensures r.Ipv4? ==>
      var at := ETH_HLEN + SADDR_OFFSET;
      [r.saddr.b0, r.saddr.b1, r.saddr.b2, r.saddr.b3] == frame[at..at + 4]
  {
    if |frame| < ETH_HLEN then Skip(ShortEthernet)
    else if frame[12] != 0x08 || frame[13] != 0x00 then Skip(NotIpv4)
    else if |frame| < ETH_HLEN + IP_HLEN then Skip(ShortIp)
    else
      var at := ETH_HLEN + SADDR_OFFSET;
      Ipv4(Ipv4Addr(frame[at], frame[at + 1], frame[at + 2], frame[at + 3]))
  }

  /**
    `iph->saddr` as a `__u32`: the word whose four bytes in memory are the
    address bytes in arrival order, the first of them in bits 0..7.
   */
  function WireWord(a: Ipv4Addr): bv32
  {
    (a.b0 as bv32) | ((a.b1 as bv32) << 8) | ((a.b2 as bv32) << 16) | ((a.b3 as bv32) << 24)
  }

  /** Byte `i` (0..3) of a word, counting from the least significant. */
  function ByteOf(k: bv32, i: nat): bv8
    requires i < 4
  {
    if i == 0 then (k & 0xFF) as bv8
    else if i == 1 then ((k >> 8) & 0xFF) as bv8
    else if i == 2 then ((k >> 16) & 0xFF) as bv8
    else (k >> 24) as bv8
  }

  /** `__builtin_bswap32`: the four bytes of the word in reverse order. */
  function Bswap32(k: bv32): (r: bv32)
    ensures forall i :: 0 <= i < 4 ==> ByteOf(r, i) == ByteOf(k, 3 - i)
  {
    ((k & 0xFF) << 24) | (((k >> 8) & 0xFF) << 16) | (((k >> 16) & 0xFF) << 8) | ((k >> 24) & 0xFF)
  }

  /** The key of the program that uses `iph->saddr` as it is. */
  function WireKey(a: Ipv4Addr): Key
  {
    Key(WireWord(a))
  }

  /** The key of the program that uses `__builtin_bswap32(iph->saddr)`. */
  function HostKey(a: Ipv4Addr): Key
  {
    Key(Bswap32(WireWord(a)))
  }

  /** The wire word holds the address bytes unchanged, so it can be unpacked again. */
  lemma WireWordBytes(a: Ipv4Addr)
    ensures ByteOf(WireWord(a), 0) == a.b0 && ByteOf(WireWord(a), 1) == a.b1
    ensures ByteOf(WireWord(a), 2) == a.b2 && ByteOf(WireWord(a), 3) == a.b3
  {
  }

  /** Distinct source addresses never share a record under the wire key. */
  lemma WireKeyInjective(a: Ipv4Addr, b: Ipv4Addr)
    ensures WireKey(a) == WireKey(b) ==> a == b
  {
  }

  /** Converting the byte order twice gives back the original word. */
  lemma Bswap32Involutive(k: bv32)
    ensures Bswap32(Bswap32(k)) == k
  {
  }

  /** The host key holds the address bytes reversed. */
  lemma HostKeyBytes(a: Ipv4Addr)
    ensures ByteOf(HostKey(a).bits, 0) == a.b3 && ByteOf(HostKey(a).bits, 1) == a.b2
    ensures ByteOf(HostKey(a).bits, 2) == a.b1 && ByteOf(HostKey(a).bits, 3) == a.b0
  {
  }

  /** Distinct source addresses never share a record under the host key either. */
  lemma HostKeyInjective(a: Ipv4Addr, b: Ipv4Addr)
    ensures HostKey(a) == HostKey(b) ==> a == b
  {
  }

  /**
    The host key is the address read as a big-endian number: the dotted-quad
    value b0.b1.b2.b3 that `__builtin_bswap32` yields on a little-endian host.
   */
  lemma HostKeyIsAddressValue(a: Ipv4Addr)
    ensures HostKey(a).bits ==
      ((a.b0 as bv32) << 24) | ((a.b1 as bv32) << 16) | ((a.b2 as bv32) << 8) | (a.b3 as bv32)
  {
  }
}
