/**
 Packets built in place: memmove, and the UDP, IPv4 and Ethernet headers put in front of a
 payload that is moved up for each.
 */
module Packet {
  import opened Common
  import Checksum

  const UDP_HEADER := 8
  const IPV4_HEADER := 20
  const ETHERNET_HEADER := 14
  const ETH_FRAME_MIN_SIZE := 60

  // ---------------------------------------------------------------- moving bytes

  /** Bytes src .. src + n copied to dst, as if all were read before any was written. */
  function Moved(s: seq<byte>, dst: nat, src: nat, n: nat): seq<byte>
    requires dst + n <= |s| && src + n <= |s|
  {
    s[..dst] + s[src..src + n] + s[dst + n..]
  }

  function Zeros(n: nat): seq<byte> { seq<byte>(n, _ => 0) }

  /** memmove: the direction of the loop makes overlapping regions safe. */
  method Memmove(a: array<byte>, dst: nat, src: nat, size: nat)
    requires dst + size <= a.Length && src + size <= a.Length
    modifies a
    ensures a[..] == Moved(old(a[..]), dst, src, size)
  {
    ghost var s := a[..];
    if dst < src {
      for i := 0 to size
        invariant forall k :: dst <= k < dst + i ==> a[k] == s[k - dst + src]
        invariant forall k :: 0 <= k < dst || dst + i <= k < a.Length ==> a[k] == s[k]
      {
        a[dst + i] := a[src + i];
      }
    } else {
      for i := size downto 0
        invariant forall k :: dst + i <= k < dst + size ==> a[k] == s[k - dst + src]
        invariant forall k :: 0 <= k < dst + i || dst + size <= k < a.Length ==> a[k] == s[k]
      {
        a[dst + i] := a[src + i];
      }
    }
    MovedIs(s, a[..], dst, src, size);
  }

  lemma MovedIs(s: seq<byte>, r: seq<byte>, dst: nat, src: nat, n: nat)
    requires |r| == |s| && dst + n <= |s| && src + n <= |s|
    requires forall k :: dst <= k < dst + n ==> r[k] == s[k - dst + src]
    requires forall k :: 0 <= k < dst || dst + n <= k < |s| ==> r[k] == s[k]
    ensures r == Moved(s, dst, src, n)
  {
    assert r == r[..dst] + r[dst..dst + n] + r[dst + n..];
    assert r[..dst] == s[..dst] && r[dst + n..] == s[dst + n..];
    assert r[dst..dst + n] == s[src..src + n];
  }

  /** memcpy from a header outside the packet. */
  method Memcpy(a: array<byte>, at: nat, h: seq<byte>)
    requires at + |h| <= a.Length
    modifies a
    ensures a[..] == Spliced(old(a[..]), at, h)
  {
    ghost var s := a[..];
    for i := 0 to |h|
      invariant forall k :: at <= k < at + i ==> a[k] == h[k - at]
      invariant forall k :: 0 <= k < at || at + i <= k < a.Length ==> a[k] == s[k]
    {
      a[at + i] := h[i];
    }
    assert a[..] == Spliced(s, at, h);
  }

  // ---------------------------------------------------------------- headers

  /** The bytes of htobe16(x) in memory: big-endian, truncated to 16 bits. */
  function Big16(x: int): (b: seq<byte>)
    ensures |b| == 2
  {
    [x / 256 % 256, x % 256]
  }

  function Read16(s: seq<byte>, i: nat): nat
    requires i + 2 <= |s|
  {
    s[i] as int * 256 + s[i + 1] as int
  }

  /** A big-endian field holds the value up to 16 bits, and all of it exactly when it fits. */
  lemma FieldIff(x: int, s: seq<byte>, i: nat)
    requires i + 2 <= |s| && s[i..i + 2] == Big16(x)
    ensures Read16(s, i) == x % 0x1_0000 && (Read16(s, i) == x <==> 0 <= x < 0x1_0000)
  {
    assert s[i] == s[i..i + 2][0] && s[i + 1] == s[i..i + 2][1];
  }

  type Ip = a: seq<byte> | |a| == 4 witness [0, 0, 0, 0]
  type Mac = a: seq<byte> | |a| == 6 witness [0, 0, 0, 0, 0, 0]

  function UdpHeader(srcPort: int, dstPort: int, length: nat): (h: seq<byte>)
    ensures |h| == UDP_HEADER
  {
    Big16(srcPort) + Big16(dstPort) + Big16(length) + [0, 0]
  }

  /** The IPv4 header before its checksum is known. */
  function Blank4(length: nat, protocol: int, src: Ip, dst: Ip): (h: seq<byte>)
    ensures |h| == IPV4_HEADER && Checksum.WordAt(h, 5) == 0
  {
    [0x45, 0] + Big16(IPV4_HEADER + length) + [0, 0, 0x40, 0, 0x40, protocol % 256] + [0, 0] + src + dst
  }

  /** The IPv4 header as encapsulate_ipv4 emits it: with the checksum's bytes swapped. */
  function Ipv4Header(length: nat, protocol: int, src: Ip, dst: Ip): (h: seq<byte>)
    ensures |h| == IPV4_HEADER
  {
    var blank := Blank4(length, protocol, src, dst);
    Checksum.Store(blank, 5, Checksum.Swap(Checksum.Sum16(blank)))
  }

  function EthernetHeader(dst: Mac, src: Mac, kind: int): (h: seq<byte>)
    ensures |h| == ETHERNET_HEADER
  {
    dst + src + Big16(kind)
  }

  /** A receiver that sums the emitted header gets 0 exactly when the two bytes of the checksum are equal. */
  lemma HeaderVerifiesIff(length: nat, protocol: int, src: Ip, dst: Ip)
    ensures var c := Checksum.Sum16(Blank4(length, protocol, src, dst));
            Checksum.Sum16(Ipv4Header(length, protocol, src, dst)) == 0 <==> c % 256 == c / 256
  {
    hide Checksum.Sum16, Checksum.Swap, Checksum.Store, Checksum.WordAt;
    var blank := Blank4(length, protocol, src, dst);
    var c := Checksum.Sum16(blank);
    Checksum.VerifiesIff(blank, 5, Checksum.Swap(c));
    SwapFixed(c);
  }

  lemma SwapFixed(c: Checksum.word)
    ensures Checksum.Swap(c) == c <==> c % 256 == c / 256
    ensures c == 0 ==> Checksum.Swap(c) == 0
  {}

  // ---------------------------------------------------------------- encapsulation

  /** A header in front of the first n bytes, which move up over what was behind them. */
  function Prepend(s: seq<byte>, n: nat, h: seq<byte>): seq<byte>
    requires |h| + n <= |s|
  {
    h + s[..n] + s[|h| + n..]
  }

  lemma PrependIs(s: seq<byte>, n: nat, h: seq<byte>)
    requires |h| + n <= |s|
    ensures Spliced(Moved(s, |h|, 0, n), 0, h) == Prepend(s, n, h)
  {
    var m := Moved(s, |h|, 0, n);
    assert s[0..n] == s[..n];
    assert m[|h|..] == s[..n] + s[|h| + n..];
  }

  /** memmove and memcpy, as all three functions use them. */
  method PutInFront(packet: array<byte>, n: nat, h: seq<byte>)
    requires |h| + n <= packet.Length
    modifies packet
    ensures packet[..] == Prepend(old(packet[..]), n, h)
  {
    hide Moved, Spliced, Prepend;
    PrependIs(packet[..], n, h);
    Memmove(packet, |h|, 0, n);
    Memcpy(packet, 0, h);
  }

  /** encapsulate_udp: the length is raised first, so that many bytes are moved. */
  method EncapsulateUdp(packet: array<byte>, len: nat, srcPort: int, dstPort: int) returns (newLen: nat)
    requires len + 2 * UDP_HEADER <= packet.Length
    modifies packet
    ensures newLen == len + UDP_HEADER
    ensures packet[..] == Prepend(old(packet[..]), len + UDP_HEADER, UdpHeader(srcPort, dstPort, len + UDP_HEADER))
  {
    hide Prepend, UdpHeader;
    newLen := len + UDP_HEADER;
    PutInFront(packet, newLen, UdpHeader(srcPort, dstPort, newLen));
  }

  /** encapsulate_ipv4 */
  method EncapsulateIpv4(packet: array<byte>, len: nat, protocol: int, src: Ip, dst: Ip) returns (newLen: nat)
    requires len + IPV4_HEADER <= packet.Length
    modifies packet
    ensures newLen == len + IPV4_HEADER
    ensures packet[..] == Prepend(old(packet[..]), len, Ipv4Header(len, protocol, src, dst))
  {
    hide Prepend, Blank4, Checksum.Sum16, Checksum.Swap, Checksum.Store, Checksum.WordAt;
    var header := Blank4(len, protocol, src, dst);
    var sum := Checksum.Ipv4Checksum(header);
    header := Checksum.Store(header, 5, Checksum.Swap(sum));
    PutInFront(packet, len, header);
    newLen := len + IPV4_HEADER;
  }

  function Max(a: nat, b: nat): nat { if a < b then b else a }

  /** encapsulate_ethernet, which clears 60 bytes behind the frame whatever its length. */
  method EncapsulateEthernet(packet: array<byte>, len: nat, dst: Mac, src: Mac, kind: int) returns (newLen: nat)
    requires len + ETHERNET_HEADER + ETH_FRAME_MIN_SIZE <= packet.Length
    modifies packet
    ensures newLen == Max(len + ETHERNET_HEADER, ETH_FRAME_MIN_SIZE)
    ensures packet[..] == Spliced(Prepend(old(packet[..]), len, EthernetHeader(dst, src, kind)),
                              len + ETHERNET_HEADER, Zeros(ETH_FRAME_MIN_SIZE))
  {
    hide Prepend, EthernetHeader, Spliced, Zeros;
    PutInFront(packet, len, EthernetHeader(dst, src, kind));
    newLen := len + ETHERNET_HEADER;
    ZerosLong(ETH_FRAME_MIN_SIZE);
    Memcpy(packet, newLen, Zeros(ETH_FRAME_MIN_SIZE));
    newLen := if newLen < ETH_FRAME_MIN_SIZE then ETH_FRAME_MIN_SIZE else newLen;
  }

  lemma ZerosLong(n: nat)
    ensures |Zeros(n)| == n
  {}

  // ---------------------------------------------------------------- the whole frame

  datatype Route = Route(srcPort: int, dstPort: int, protocol: int, srcIp: Ip, dstIp: Ip, srcMac: Mac, dstMac: Mac, kind: int)

  const HEADERS := ETHERNET_HEADER + IPV4_HEADER + UDP_HEADER

  /** The frame of a payload: three headers, the payload, and zeros up to the shortest frame. */
  function Frame(r: Route, payload: seq<byte>): seq<byte> {
    var len := |payload|;
    EthernetHeader(r.dstMac, r.srcMac, r.kind)
    + Ipv4Header(len + UDP_HEADER, r.protocol, r.srcIp, r.dstIp)
    + UdpHeader(r.srcPort, r.dstPort, len + UDP_HEADER)
    + payload
    + Zeros(Max(len + HEADERS, ETH_FRAME_MIN_SIZE) - (len + HEADERS))
  }

  lemma PrependFront(s: seq<byte>, n: nat, h: seq<byte>, m: nat)
    requires m <= n && |h| + n <= |s|
    ensures |Prepend(s, n, h)| == |s| && Prepend(s, n, h)[..|h| + m] == h + s[..m]
  {}

  lemma PaddedFront(s: seq<byte>, n: nat, k: nat)
    requires n + ETH_FRAME_MIN_SIZE <= |s| && k <= ETH_FRAME_MIN_SIZE
    ensures Spliced(s, n, Zeros(ETH_FRAME_MIN_SIZE))[..n + k] == s[..n] + Zeros(k)
  {
    assert Zeros(ETH_FRAME_MIN_SIZE)[..k] == Zeros(k);
  }

  lemma Associates(a: seq<byte>, b: seq<byte>, c: seq<byte>, d: seq<byte>)
    ensures a + (b + (c + d)) == a + b + c + d
  {}

  /** UDP, then IPv4, then Ethernet: the payload ends up intact behind its headers. */
  method EncapsulateAll(packet: array<byte>, len: nat, r: Route) returns (newLen: nat)
    requires len + HEADERS + ETH_FRAME_MIN_SIZE <= packet.Length
    modifies packet
    ensures newLen == Max(len + HEADERS, ETH_FRAME_MIN_SIZE) <= packet.Length
    ensures packet[..newLen] == Frame(r, old(packet[..len]))
  {
    hide Prepend, Spliced, EthernetHeader, Ipv4Header, UdpHeader, Zeros;
    ghost var payload := packet[..len];
    ghost var udp := UdpHeader(r.srcPort, r.dstPort, len + UDP_HEADER);
    ghost var ip := Ipv4Header(len + UDP_HEADER, r.protocol, r.srcIp, r.dstIp);
    ghost var eth := EthernetHeader(r.dstMac, r.srcMac, r.kind);
    assert packet[..][..len] == payload;
    PrependFront(packet[..], len + UDP_HEADER, udp, len);
    newLen := EncapsulateUdp(packet, len, r.srcPort, r.dstPort);
    PrependFront(packet[..], newLen, ip, newLen);
    newLen := EncapsulateIpv4(packet, newLen, r.protocol, r.srcIp, r.dstIp);
    PrependFront(packet[..], newLen, eth, newLen);
    ghost var framed := Prepend(packet[..], newLen, eth);
    ghost var total := newLen + ETHERNET_HEADER;
    newLen := EncapsulateEthernet(packet, newLen, r.dstMac, r.srcMac, r.kind);
    PaddedFront(framed, total, newLen - total);
    Associates(eth, ip, udp, payload);
    assert packet[..newLen] == packet[..][..newLen];
  }

  /** What a receiver takes from a frame: as many bytes as the UDP length field says. */
  function Payload(frame: seq<byte>): seq<byte>
    requires |frame| >= HEADERS
  {
    var length := Read16(frame, 38);
    if UDP_HEADER <= length <= |frame| - ETHERNET_HEADER - IPV4_HEADER
    then frame[HEADERS..ETHERNET_HEADER + IPV4_HEADER + length] else []
  }

  /** The fields of a frame, where a receiver looks for them. */
  function Parsed(f: seq<byte>): Route
    requires |f| >= HEADERS
  {
    Route(Read16(f, 34), Read16(f, 36), f[23], f[26..30], f[30..34], f[6..12], f[0..6], Read16(f, 12))
  }

  lemma UdpFields(srcPort: int, dstPort: int, length: nat)
    ensures var u := UdpHeader(srcPort, dstPort, length);
            u[0..2] == Big16(srcPort) && u[2..4] == Big16(dstPort) && u[4..6] == Big16(length) && u[6..8] == [0, 0]
  {
    hide Big16;
  }

  lemma Ipv4Fields(length: nat, protocol: int, src: Ip, dst: Ip)
    ensures var h := Ipv4Header(length, protocol, src, dst);
            && h[0..2] == [0x45, 0] && h[2..4] == Big16(20 + length) && h[4..8] == [0, 0, 0x40, 0]
            && h[8] == 0x40 && h[9] == protocol % 256 && h[12..16] == src && h[16..20] == dst
  {
    hide Big16, Checksum.Sum16, Checksum.Swap;
    BlankFields(length, protocol, src, dst);
    StoreApart(Blank4(length, protocol, src, dst), Checksum.Swap(Checksum.Sum16(Blank4(length, protocol, src, dst))));
  }

  lemma BlankFields(length: nat, protocol: int, src: Ip, dst: Ip)
    ensures var h := Blank4(length, protocol, src, dst);
            && h[0..2] == [0x45, 0] && h[2..4] == Big16(20 + length) && h[4..8] == [0, 0, 0x40, 0]
            && h[8] == 0x40 && h[9] == protocol % 256 && h[12..16] == src && h[16..20] == dst
  {
    hide Big16, Checksum.WordAt;
  }

  lemma StoreApart(h: seq<byte>, w: Checksum.word)
    requires |h| == IPV4_HEADER
    ensures var r := Checksum.Store(h, 5, w); r[..10] == h[..10] && r[12..] == h[12..]
    ensures var r := Checksum.Store(h, 5, w);
            && r[0..2] == h[0..2] && r[2..4] == h[2..4] && r[4..8] == h[4..8] && r[8] == h[8] && r[9] == h[9]
            && r[12..16] == h[12..16] && r[16..20] == h[16..20]
  {}

  lemma EthernetFields(dst: Mac, src: Mac, kind: int)
    ensures var e := EthernetHeader(dst, src, kind);
            e[0..6] == dst && e[6..12] == src && e[12..14] == Big16(kind)
  {
    hide Big16;
  }

  /** Where the parts of a frame lie. */
  lemma FrameParts(e: seq<byte>, i: seq<byte>, u: seq<byte>, p: seq<byte>, z: seq<byte>)
    requires |e| == ETHERNET_HEADER && |i| == IPV4_HEADER && |u| == UDP_HEADER
    ensures var f := e + i + u + p + z;
            && f[0..6] == e[0..6] && f[6..12] == e[6..12] && f[12..14] == e[12..14]
            && f[14..16] == i[0..2] && f[16..18] == i[2..4] && f[18..22] == i[4..8] && f[22] == i[8] && f[23] == i[9]
            && f[26..30] == i[12..16] && f[30..34] == i[16..20]
            && f[34..36] == u[0..2] && f[36..38] == u[2..4] && f[38..40] == u[4..6] && f[40..42] == u[6..8]
            && f[HEADERS..HEADERS + |p|] == p
            && forall k :: HEADERS + |p| <= k < |f| ==> f[k] == z[k - HEADERS - |p|]
  {}

  /** What a frame holds, byte for byte, as the formats lay it out. */
  lemma FrameFields(r: Route, payload: seq<byte>)
    ensures var f, len := Frame(r, payload), |payload|;
            && |f| == (if len + 42 < 60 then 60 else len + 42) && f[42..42 + len] == payload
            && f[16..18] == Big16(len + 28) && f[38..40] == Big16(len + 8)
            && f[14..16] == [0x45, 0] && f[18..22] == [0, 0, 0x40, 0] && f[22] == 0x40 && f[40..42] == [0, 0]
            && (forall i :: 42 + len <= i < |f| ==> f[i] == 0)
    ensures var f := Frame(r, payload);
            Parsed(f) == r.(srcPort := r.srcPort % 0x1_0000, dstPort := r.dstPort % 0x1_0000,
                            protocol := r.protocol % 256, kind := r.kind % 0x1_0000)
  {
    hide Big16, EthernetHeader, Ipv4Header, UdpHeader, Read16;
    var len := |payload|;
    UdpFields(r.srcPort, r.dstPort, len + UDP_HEADER);
    Ipv4Fields(len + UDP_HEADER, r.protocol, r.srcIp, r.dstIp);
    EthernetFields(r.dstMac, r.srcMac, r.kind);
    FrameParts(EthernetHeader(r.dstMac, r.srcMac, r.kind), Ipv4Header(len + UDP_HEADER, r.protocol, r.srcIp, r.dstIp),
               UdpHeader(r.srcPort, r.dstPort, len + UDP_HEADER), payload,
               Zeros(Max(len + HEADERS, ETH_FRAME_MIN_SIZE) - (len + HEADERS)));
    var f := Frame(r, payload);
    FieldIff(r.srcPort, f, 34);
    FieldIff(r.dstPort, f, 36);
    FieldIff(r.kind, f, 12);
  }

  /** A receiver gets the payload back exactly when the UDP length field can hold its length. */
  lemma RoundTripIff(r: Route, payload: seq<byte>)
    ensures |Frame(r, payload)| >= HEADERS
    ensures Payload(Frame(r, payload)) == payload <==> |payload| + UDP_HEADER < 0x1_0000
  {
    hide Frame, Big16, Read16;
    FrameFields(r, payload);
    FieldIff(|payload| + UDP_HEADER, Frame(r, payload), 38);
  }

  /** Most headers do not verify: for instance that of 28 bytes from 10.0.2.15 to 8.8.8.8 over UDP. */
  lemma HeaderFails(length: nat, protocol: int, src: Ip, dst: Ip)
    requires length == 28 && protocol == 17 && src == [10, 0, 2, 15] && dst == [8, 8, 8, 8]
    ensures Checksum.Sum16(Ipv4Header(length, protocol, src, dst)) != 0
  {
    hide Blank4, Ipv4Header, Checksum.Total, Checksum.WordAt;
    var h := Blank4(length, protocol, src, dst);
    ExampleLow(length, protocol, src, dst);
    ExampleHigh(length, protocol, src, dst);
    ExampleTotal(h);
    HeaderVerifiesIff(length, protocol, src, dst);
  }

  lemma ExampleTotal(h: seq<byte>)
    requires |h| == 20 && LowWords(h) && HighWords(h)
    ensures Checksum.Total(h, 10) == 0x60E1
  {
    hide Checksum.WordAt;
    assert Checksum.Total(h, 1) == 0x45;
    assert Checksum.Total(h, 2) == 0x3045;
    assert Checksum.Total(h, 3) == 0x3045;
    assert Checksum.Total(h, 4) == 0x3085;
    assert Checksum.Total(h, 5) == 0x41C5;
    assert Checksum.Total(h, 6) == 0x41C5;
    assert Checksum.Total(h, 7) == 0x41CF;
    assert Checksum.Total(h, 8) == 0x50D1;
    assert Checksum.Total(h, 9) == 0x58D9;
  }

  predicate LowWords(h: seq<byte>)
    requires |h| == 20
  {
    && Checksum.WordAt(h, 0) == 0x45 && Checksum.WordAt(h, 1) == 0x3000 && Checksum.WordAt(h, 2) == 0
    && Checksum.WordAt(h, 3) == 0x40 && Checksum.WordAt(h, 4) == 0x1140 && Checksum.WordAt(h, 5) == 0
  }

  predicate HighWords(h: seq<byte>)
    requires |h| == 20
  {
    && Checksum.WordAt(h, 6) == 0x000A && Checksum.WordAt(h, 7) == 0x0F02
    && Checksum.WordAt(h, 8) == 0x0808 && Checksum.WordAt(h, 9) == 0x0808
  }

  lemma ExampleLow(length: nat, protocol: int, src: Ip, dst: Ip)
    requires length == 28 && protocol == 17
    ensures LowWords(Blank4(length, protocol, src, dst))
  {
    assert Big16(IPV4_HEADER + length) == [0, 48];
  }

  lemma ExampleHigh(length: nat, protocol: int, src: Ip, dst: Ip)
    requires src == [10, 0, 2, 15] && dst == [8, 8, 8, 8]
    ensures HighWords(Blank4(length, protocol, src, dst))
  {
    hide Big16;
    var h := Blank4(length, protocol, src, dst);
    assert h[12] == src[0] && h[13] == src[1] && h[14] == src[2] && h[15] == src[3];
    assert h[16] == dst[0] && h[17] == dst[1] && h[18] == dst[2] && h[19] == dst[3];
  }
}
