// Building a UDP frame and taking it apart again: Ethernet, IPv4 and UDP, byte by byte.
module NetFrame {
  import opened NawBase
  import opened NetChecksum

  const ETHERNET_HEADER := 14
  const IP_HEADER := 20
  const UDP_HEADER := 8
  const FRAME_SIZE := 1514
  const MAX_PAYLOAD := 1472
  const PROTOCOL_UDP := 17
  const DHCP_SERVER_PORT := 67
  const DHCP_CLIENT_PORT := 68
  const TEXT_PORT := 5000
  const TEXT_LIMIT := 120

  type Address = a: seq<byte> | |a| == 4 witness [0, 0, 0, 0]
  type Mac = a: seq<byte> | |a| == 6 witness [0, 0, 0, 0, 0, 0]

  const BROADCAST: Mac := [0xFF, 0xFF, 0xFF, 0xFF, 0xFF, 0xFF]

  datatype Datagram = Datagram(src: Address, dst: Address, srcPort: u16, dstPort: u16, payload: seq<byte>)

  // ----- what a frame looks like -----

  // An IPv4 header with a given checksum word.
  function IpHeader(src: Address, dst: Address, total: u16, checksum: u16): (h: seq<byte>)
    ensures |h| == IP_HEADER
  {
    [0x45, 0] + Be16(total) + [0, 0] + [0, 0] + [64, PROTOCOL_UDP] + Be16(checksum) + src + dst
  }

  function SentHeader(src: Address, dst: Address, total: u16): (h: seq<byte>)
    ensures |h| == IP_HEADER
  {
    IpHeader(src, dst, total, Complement(OnesSum(IpHeader(src, dst, total, 0))))
  }

  function UdpHeader(srcPort: u16, dstPort: u16, len: u16): (h: seq<byte>)
    ensures |h| == UDP_HEADER
  {
    Be16(srcPort) + Be16(dstPort) + Be16(len) + [0, 0]
  }

  function Frame(mac: Mac, d: Datagram): (f: seq<byte>)
    requires |d.payload| <= MAX_PAYLOAD
    ensures |f| == ETHERNET_HEADER + IP_HEADER + UDP_HEADER + |d.payload|
  {
    BROADCAST + mac + [0x08, 0x00] + SentHeader(d.src, d.dst, IP_HEADER + UDP_HEADER + |d.payload|)
    + UdpHeader(d.srcPort, d.dstPort, UDP_HEADER + |d.payload|) + d.payload
  }

  // Every header sent has checksum zero.
  lemma HeaderChecksToZero(src: Address, dst: Address, total: u16)
    ensures Complement(OnesSum(SentHeader(src, dst, total))) == 0
  {
    hide OnesSum;
    var data := IpHeader(src, dst, total, 0);
    var more := SentHeader(src, dst, total);
    HeaderWord(src, dst, total, 0);
    HeaderWord(src, dst, total, Complement(OnesSum(data)));
    ChecksToZero(data, 10, more);
  }

  lemma HeaderWord(src: Address, dst: Address, total: u16, checksum: u16)
    ensures
      var h, z := IpHeader(src, dst, total, checksum), IpHeader(src, dst, total, 0);
      && ReadBe16(h, 10) == checksum && z[10] == z[11] == 0
      && forall j :: 0 <= j < IP_HEADER && j != 10 && j != 11 ==> h[j] == z[j]
  {
    var h, z := IpHeader(src, dst, total, checksum), IpHeader(src, dst, total, 0);
    assert h[10..12] == Be16(checksum) && z[10..12] == Be16(0);
    assert h[10] == h[10..12][0] && h[11] == h[10..12][1] && z[10] == z[10..12][0] && z[11] == z[10..12][1];
    assert h[..10] == z[..10];
    assert h[12..] == z[12..];
    forall j | 0 <= j < IP_HEADER && j != 10 && j != 11 ensures h[j] == z[j] {
      if j < 10 { assert h[..10][j] == z[..10][j]; } else { assert h[12..][j - 12] == z[12..][j - 12]; }
    }
  }

  // ----- receiving -----

  function UdpReceive(src: Address, dst: Address, packet: seq<byte>): Option<Datagram>
    requires |packet| < 0x1_0000
  {
    if |packet| < UDP_HEADER then None
    else
      var said := ReadBe16(packet, 4);
      var len := if said < UDP_HEADER || said > |packet| then |packet| else said as int;
      Some(Datagram(src, dst, ReadBe16(packet, 0), ReadBe16(packet, 2), packet[UDP_HEADER..len]))
  }

  function Ipv4Receive(packet: seq<byte>): Option<Datagram> {
    if |packet| < IP_HEADER || packet[0] / 16 != 4 then None
    else
      var ihl := packet[0] as int % 16 * 4;
      if ihl < IP_HEADER || |packet| < ihl then None
      else
        var said := ReadBe16(packet, 2);
        if said < ihl then None
        else
          var total := if said > |packet| then |packet| else said as int;
          if packet[9] != PROTOCOL_UDP || total < ihl + UDP_HEADER then None
          else UdpReceive(packet[12..16], packet[16..20], packet[ihl..total])
  }

  function EthernetReceive(frame: seq<byte>): Option<Datagram> {
    if |frame| < ETHERNET_HEADER || ReadBe16(frame, 12) != 0x0800 then None
    else Ipv4Receive(frame[ETHERNET_HEADER..])
  }

  // ----- where a datagram goes -----

  datatype Delivery = Dropped | ToDhcp(payload: seq<byte>) | Shown(from: Address, text: seq<byte>)

  // Printable bytes as they are, any other as a dot.
  function Printable(payload: seq<byte>): (text: seq<byte>)
    ensures |text| == |payload|
  {
    seq(|payload|, i requires 0 <= i < |payload| => if 32 <= payload[i] <= 126 then payload[i] else 46)
  }

  function Deliver(d: Datagram): Delivery {
    if d.srcPort == DHCP_SERVER_PORT && d.dstPort == DHCP_CLIENT_PORT then ToDhcp(d.payload)
    else if d.dstPort == TEXT_PORT then
      Shown(d.src, Printable(if |d.payload| > TEXT_LIMIT then d.payload[..TEXT_LIMIT] else d.payload))
    else Dropped
  }

  // A text datagram is shown exactly as it was sent when it is short and printable, and only then.
  lemma TextShownVerbatim(d: Datagram)
    requires d.dstPort == TEXT_PORT
    ensures Deliver(d) == Shown(d.src, d.payload) <==>
      |d.payload| <= TEXT_LIMIT && forall i :: 0 <= i < |d.payload| ==> 32 <= d.payload[i] <= 126
  {
    if |d.payload| <= TEXT_LIMIT && Printable(d.payload) == d.payload {
      forall i | 0 <= i < |d.payload| ensures 32 <= d.payload[i] <= 126 {
        assert Printable(d.payload)[i] == d.payload[i];
      }
    } else if |d.payload| > TEXT_LIMIT {
      assert |Printable(d.payload[..TEXT_LIMIT])| == TEXT_LIMIT;
    }
  }

  // What is shown of a text datagram: its first 120 bytes at most, each printable one as it is.
  lemma TextShown(d: Datagram)
    requires d.dstPort == 5000
    ensures
      Deliver(d).Shown? && Deliver(d).from == d.src && |Deliver(d).text| == Min(|d.payload|, 120)
      && forall i :: 0 <= i < |Deliver(d).text| ==>
        Deliver(d).text[i] == if 32 <= d.payload[i] <= 126 then d.payload[i] else 46
  {
  }

  // The client's port gets what comes from the server's, unchanged; what is for neither port is dropped.
  lemma Delivered(d: Datagram)
    ensures Deliver(d).ToDhcp? <==> d.srcPort == 67 && d.dstPort == 68
    ensures Deliver(d).ToDhcp? ==> Deliver(d).payload == d.payload
    ensures Deliver(d).Dropped? <==> d.dstPort != 5000 && !(d.srcPort == 67 && d.dstPort == 68)
  {
  }

  // ----- round trip -----

  lemma UdpRoundTrip(src: Address, dst: Address, d: Datagram, packet: seq<byte>)
    requires |d.payload| <= MAX_PAYLOAD && d.src == src && d.dst == dst
    requires packet == UdpHeader(d.srcPort, d.dstPort, UDP_HEADER + |d.payload|) + d.payload
    ensures UdpReceive(src, dst, packet) == Some(d)
  {
    var len := UDP_HEADER + |d.payload|;
    assert packet[0..2] == Be16(d.srcPort) && packet[2..4] == Be16(d.dstPort) && packet[4..6] == Be16(len);
    ReadSlice(packet, 0, d.srcPort);
    ReadSlice(packet, 2, d.dstPort);
    ReadSlice(packet, 4, len);
    assert packet[UDP_HEADER..len] == d.payload;
  }

  lemma ReadSlice(b: seq<byte>, at: nat, v: u16)
    requires at + 2 <= |b| && b[at..at + 2] == Be16(v)
    ensures ReadBe16(b, at) == v
  {
    assert b[at] == b[at..at + 2][0] && b[at + 1] == b[at..at + 2][1];
  }

  // The fields of a header at the front of a packet.
  lemma HeaderFields(src: Address, dst: Address, total: u16, checksum: u16, rest: seq<byte>)
    ensures
      var p := IpHeader(src, dst, total, checksum) + rest;
      && p[0] == 0x45 && ReadBe16(p, 2) == total && p[9] == PROTOCOL_UDP
      && p[12..16] == src && p[16..20] == dst && p[IP_HEADER..] == rest
  {
    var p := IpHeader(src, dst, total, checksum) + rest;
    assert p[0..1] == [0x45] && p[9..10] == [PROTOCOL_UDP];
    assert p[0] == p[0..1][0] && p[9] == p[9..10][0];
    assert p[2..4] == Be16(total);
    ReadSlice(p, 2, total);
  }

  lemma Ipv4RoundTrip(d: Datagram, packet: seq<byte>, pad: seq<byte>)
    requires |d.payload| <= MAX_PAYLOAD
    requires
      packet == SentHeader(d.src, d.dst, IP_HEADER + UDP_HEADER + |d.payload|)
        + (UdpHeader(d.srcPort, d.dstPort, UDP_HEADER + |d.payload|) + d.payload + pad)
    ensures Ipv4Receive(packet) == Some(d)
  {
    hide OnesSum, IpHeader, UdpHeader, UdpReceive;
    var total := IP_HEADER + UDP_HEADER + |d.payload|;
    var body := UdpHeader(d.srcPort, d.dstPort, UDP_HEADER + |d.payload|) + d.payload;
    HeaderFields(d.src, d.dst, total, Complement(OnesSum(IpHeader(d.src, d.dst, total, 0))), body + pad);
    assert packet[IP_HEADER..total] == packet[IP_HEADER..][..|body|] == body;
    UdpRoundTrip(d.src, d.dst, d, body);
  }

  // A station's card takes a frame that is for its own address or for all.
  predicate Taken(own: Mac, frame: seq<byte>) {
    |frame| >= 6 && (frame[..6] == own || forall i :: 0 <= i < 6 ==> frame[i] == 0xFF)
  }

  // A frame that was sent is taken by every station, shows who sent it, and is received as the same datagram,
  // whatever padding follows it on the wire.
  lemma FrameRoundTrip(own: Mac, mac: Mac, d: Datagram, pad: seq<byte>)
    requires |d.payload| <= MAX_PAYLOAD
    ensures
      var f := Frame(mac, d) + pad;
      Taken(own, f) && f[6..12] == mac && EthernetReceive(f) == Some(d)
  {
    hide SentHeader, UdpHeader, Ipv4Receive;
    var f := Frame(mac, d) + pad;
    var head := SentHeader(d.src, d.dst, IP_HEADER + UDP_HEADER + |d.payload|);
    var rest := UdpHeader(d.srcPort, d.dstPort, UDP_HEADER + |d.payload|) + d.payload + pad;
    assert f[12..14] == [0x08, 0x00];
    assert f[12] == f[12..14][0] && f[13] == f[12..14][1];
    assert f[ETHERNET_HEADER..] == head + rest;
    Ipv4RoundTrip(d, head + rest, pad);
  }

  // Where everything in a frame lies, numbers with their high byte first (RFC 894, section 3.1 of RFC 791, RFC 768).
  lemma FrameBytes(mac: Mac, d: Datagram)
    requires |d.payload| <= MAX_PAYLOAD
    ensures
      var f := Frame(mac, d);
      && (forall i :: 0 <= i < 6 ==> f[i] == 0xFF) && f[6..12] == mac && f[12] == 8 && f[13] == 0
      && f[14] == 0x45 && NumberAt(f, 16) == 28 + |d.payload| && f[22] == 64 && f[23] == 17
      && f[26..30] == d.src && f[30..34] == d.dst
      && NumberAt(f, 34) == d.srcPort && NumberAt(f, 36) == d.dstPort && NumberAt(f, 38) == 8 + |d.payload|
      && f[40] == f[41] == 0 && f[42..] == d.payload
  {
    hide Be16, SentHeader, UdpHeader;
    var f := Frame(mac, d);
    var head, udp := SentHeader(d.src, d.dst, 28 + |d.payload|), UdpHeader(d.srcPort, d.dstPort, 8 + |d.payload|);
    assert f[14..34] == head && f[34..42] == udp;
    SentBytes(d.src, d.dst, 28 + |d.payload|);
    UdpBytes(d.srcPort, d.dstPort, 8 + |d.payload|);
    FieldsAt(f, head, 14);
    FieldsAt(f, udp, 34);
    SliceOfSlice(f, 14, 34, 12, 16);
    SliceOfSlice(f, 14, 34, 16, 20);
  }

  function NumberAt(b: seq<byte>, at: nat): int
    requires at + 2 <= |b|
  {
    b[at] as int * 256 + b[at + 1] as int
  }

  lemma FieldsAt(f: seq<byte>, part: seq<byte>, at: nat)
    requires at + |part| <= |f| && f[at..at + |part|] == part
    ensures forall i :: at <= i < at + |part| ==> f[i] == part[i - at]
  {
    forall i | at <= i < at + |part| ensures f[i] == part[i - at] { assert f[at..at + |part|][i - at] == f[i]; }
  }

  lemma HighFirst(v: u16)
    ensures Be16(v)[0] as int * 256 + Be16(v)[1] as int == v
  {
  }

  lemma SentBytes(src: Address, dst: Address, total: u16)
    ensures
      var h := SentHeader(src, dst, total);
      && h[0] == 0x45 && NumberAt(h, 2) == total && h[8] == 64 && h[9] == 17 && h[12..16] == src && h[16..20] == dst
  {
    HighFirst(total);
    hide Be16, OnesSum;
  }

  lemma UdpBytes(srcPort: u16, dstPort: u16, len: u16)
    ensures
      var h := UdpHeader(srcPort, dstPort, len);
      && NumberAt(h, 0) == srcPort && NumberAt(h, 2) == dstPort && NumberAt(h, 4) == len && h[6] == h[7] == 0
  {
    HighFirst(srcPort);
    HighFirst(dstPort);
    HighFirst(len);
    hide Be16;
  }

  // The frames that are received, by their bytes: IPv4 with a whole header, long enough, and UDP; everything else
  // is refused.
  lemma ReceivedExactly(frame: seq<byte>)
    ensures EthernetReceive(frame).Some? <==>
      && |frame| >= 34 && NumberAt(frame, 12) == 0x0800 && frame[14] / 16 == 4 && frame[23] == 17
      && var header := frame[14] as int % 16 * 4;
      && 20 <= header <= NumberAt(frame, 16)
      && header + 8 <= Min(NumberAt(frame, 16), |frame| - 14)
    ensures EthernetReceive(frame).Some? ==>
      var d, at := EthernetReceive(frame).value, 14 + frame[14] as int % 16 * 4;
      && d.src == frame[26..30] && d.dst == frame[30..34]
      && d.srcPort == NumberAt(frame, at) && d.dstPort == NumberAt(frame, at + 2)
  {
    if |frame| >= 34 {
      SliceOfSlice(frame, 14, |frame|, 12, 16);
      SliceOfSlice(frame, 14, |frame|, 16, 20);
    }
  }

  lemma UdpPayload(src: Address, dst: Address, packet: seq<byte>) returns (to: nat)
    requires |packet| < 0x1_0000 && UdpReceive(src, dst, packet).Some?
    ensures UDP_HEADER <= to <= |packet| && UdpReceive(src, dst, packet).value.payload == packet[UDP_HEADER..to]
  {
    var said := ReadBe16(packet, 4);
    to := if said < UDP_HEADER || said > |packet| then |packet| else said as int;
  }

  lemma Ipv4Payload(packet: seq<byte>) returns (from: nat, to: nat)
    requires Ipv4Receive(packet).Some?
    ensures IP_HEADER + UDP_HEADER <= from <= to <= |packet| && Ipv4Receive(packet).value.payload == packet[from..to]
  {
    hide UdpReceive;
    var ihl := packet[0] as int % 16 * 4;
    var said := ReadBe16(packet, 2);
    var total := if said > |packet| then |packet| else said as int;
    var n := UdpPayload(packet[12..16], packet[16..20], packet[ihl..total]);
    SliceOfSlice(packet, ihl, total, UDP_HEADER, n);
    from, to := ihl + UDP_HEADER, ihl + n;
  }

  // Whatever arrives, a payload is a stretch of the frame after the three headers.
  lemma PayloadInsideFrame(frame: seq<byte>) returns (from: nat, to: nat)
    requires EthernetReceive(frame).Some?
    ensures ETHERNET_HEADER + IP_HEADER + UDP_HEADER <= from <= to <= |frame|
    ensures EthernetReceive(frame).value.payload == frame[from..to]
  {
    hide Ipv4Receive;
    var i, j := Ipv4Payload(frame[ETHERNET_HEADER..]);
    SliceOfSlice(frame, ETHERNET_HEADER, |frame|, i, j);
    from, to := ETHERNET_HEADER + i, ETHERNET_HEADER + j;
  }

  lemma SliceOfSlice(s: seq<byte>, a: nat, b: nat, c: nat, d: nat)
    requires a <= b <= |s| && c <= d <= b - a
    ensures s[a..b][c..d] == s[a + c..a + d]
  {
    assert forall k :: 0 <= k < d - c ==> s[a..b][c..d][k] == s[a..b][c + k] == s[a + c..a + d][k];
  }

  // Receiving does not look at the header's checksum.
  lemma ChecksumNotChecked(frame: seq<byte>, other: seq<byte>)
    requires |frame| == |other|
    requires forall i :: 0 <= i < |frame| && i != 24 && i != 25 ==> frame[i] == other[i]
    ensures EthernetReceive(other) == EthernetReceive(frame)
  {
    if |frame| >= ETHERNET_HEADER + IP_HEADER {
      var p, q := frame[ETHERNET_HEADER..], other[ETHERNET_HEADER..];
      assert forall i :: 0 <= i < |p| && i != 10 && i != 11 ==> p[i] == q[i];
      assert p[12..16] == q[12..16] && p[16..20] == q[16..20];
      assert forall a, b :: 20 <= a <= b <= |p| ==> p[a..b] == q[a..b];
    }
  }

  // ----- the sender -----

  method CopyInto(a: array<byte>, at: nat, s: seq<byte>)
    requires at + |s| <= a.Length
    modifies a
    ensures forall i :: 0 <= i < a.Length ==> a[i] == if at <= i < at + |s| then s[i - at] else old(a[i])
  {
    var i := 0;
    while i < |s|
      invariant i <= |s|
      invariant forall j :: 0 <= j < a.Length ==> a[j] == if at <= j < at + i then s[j - at] else old(a[j])
    {
      a[at + i] := s[i];
      i := i + 1;
    }
  }

  method WriteBe16(a: array<byte>, at: nat, v: u16)
    requires at + 2 <= a.Length
    modifies a
    ensures forall i :: 0 <= i < a.Length ==> a[i] == if at <= i < at + 2 then Be16(v)[i - at] else old(a[i])
  {
    a[at] := v / 256;
    a[at + 1] := v % 256;
  }

  lemma IpHeaderIs(h: seq<byte>, src: Address, dst: Address, total: u16, checksum: u16)
    requires |h| == IP_HEADER && h[0] == 0x45 && h[1] == 0 && h[8] == 64 && h[9] == PROTOCOL_UDP
    requires h[2] == Be16(total)[0] && h[3] == Be16(total)[1] && h[4] == h[5] == h[6] == h[7] == 0
    requires h[10] == Be16(checksum)[0] && h[11] == Be16(checksum)[1]
    requires forall j :: 0 <= j < 4 ==> h[12 + j] == src[j] && h[16 + j] == dst[j]
    ensures h == IpHeader(src, dst, total, checksum)
  {
    hide Be16;
    var t, c := Be16(total), Be16(checksum);
    assert h[12] == src[0] && h[13] == src[1] && h[14] == src[2] && h[15] == src[3];
    assert h[12 + 0] == src[0] && h[12 + 1] == src[1] && h[12 + 2] == src[2] && h[12 + 3] == src[3];
    assert h[16 + 0] == dst[0] && h[16 + 1] == dst[1] && h[16 + 2] == dst[2] && h[16 + 3] == dst[3];
    assert h[..12] == [0x45, 0] + t + [0, 0] + [0, 0] + [64, PROTOCOL_UDP] + c;
    assert h[12..16] == src && h[16..] == dst;
    assert h == h[..12] + h[12..16] + h[16..];
  }

  // Fills bytes 14 to 34, leaving the rest: first with no checksum, then with that of what is there.
  method FillIp(packet: array<byte>, src: Address, dst: Address, total: u16)
    requires packet.Length == FRAME_SIZE && forall i :: 14 <= i < 34 ==> packet[i] == 0
    modifies packet
    ensures packet[14..34] == SentHeader(src, dst, total)
    ensures forall i :: 0 <= i < FRAME_SIZE && !(14 <= i < 34) ==> packet[i] == old(packet[i])
  {
    hide OnesSum, IpHeader, Be16, WordSum, Fold;
    FillIpFields(packet, src, dst, total);
    ghost var h := packet[14..34];
    HeaderWord(src, dst, total, 0);
    var checksum := Checksum(packet[14..34]);
    HeaderSum(h);
    WriteBe16(packet, 24, checksum);
    WithChecksum(h, packet[14..34], src, dst, total, checksum);
  }

  method FillIpFields(packet: array<byte>, src: Address, dst: Address, total: u16)
    requires packet.Length == FRAME_SIZE && forall i :: 14 <= i < 34 ==> packet[i] == 0
    modifies packet
    ensures packet[14..34] == IpHeader(src, dst, total, 0)
    ensures forall i :: 0 <= i < FRAME_SIZE && !(14 <= i < 34) ==> packet[i] == old(packet[i])
  {
    hide IpHeader, Be16;
    packet[14] := 0x45;
    packet[15] := 0x00;
    WriteBe16(packet, 16, total);
    WriteBe16(packet, 18, 0);
    WriteBe16(packet, 20, 0);
    packet[22] := 64;
    packet[23] := PROTOCOL_UDP;
    CopyInto(packet, 26, src);
    CopyInto(packet, 30, dst);
    ZeroWord();
    IpHeaderIs(packet[14..34], src, dst, total, 0);
  }

  // A header whose checksum word is put in.
  lemma WithChecksum(h: seq<byte>, more: seq<byte>, src: Address, dst: Address, total: u16, checksum: u16)
    requires h == IpHeader(src, dst, total, 0) && |more| == IP_HEADER
    requires more[10] == Be16(checksum)[0] && more[11] == Be16(checksum)[1]
    requires forall j :: 0 <= j < IP_HEADER && j != 10 && j != 11 ==> more[j] == h[j]
    ensures more == IpHeader(src, dst, total, checksum)
  {
    HeaderWord(src, dst, total, checksum);
    hide IpHeader;
    var want := IpHeader(src, dst, total, checksum);
    assert want[10] == Be16(checksum)[0] && want[11] == Be16(checksum)[1];
    assert forall j :: 0 <= j < IP_HEADER ==> more[j] == want[j];
  }

  lemma ZeroWord()
    ensures Be16(0)[0] == 0 && Be16(0)[1] == 0
  {
  }

  lemma HeaderSum(h: seq<byte>)
    requires |h| == IP_HEADER
    ensures Fold(WordSum(h) % TWO32) == OnesSum(h)
  {
    hide Fold, OnesSum, WordSum;
    ChecksumExactUpTo(IP_HEADER);
  }

  // Fills the UDP header at byte 34 and the data after it.
  method FillUdp(packet: array<byte>, srcPort: u16, dstPort: u16, data: seq<byte>)
    requires packet.Length == FRAME_SIZE && |data| <= MAX_PAYLOAD
    modifies packet
    ensures packet[34..42 + |data|] == UdpHeader(srcPort, dstPort, UDP_HEADER + |data|) + data
    ensures forall i :: 0 <= i < 34 ==> packet[i] == old(packet[i])
  {
    hide Be16;
    ghost var len := UDP_HEADER + |data|;
    WriteBe16(packet, 34, srcPort);
    WriteBe16(packet, 36, dstPort);
    WriteBe16(packet, 38, UDP_HEADER + |data|);
    WriteBe16(packet, 40, 0);
    if |data| > 0 {
      CopyInto(packet, 42, data);
    }
    ZeroWord();
    ghost var s, d, l := Be16(srcPort), Be16(dstPort), Be16(len);
    assert packet[34..42] == s + d + l + [0, 0];
    assert packet[42..42 + |data|] == data;
    assert packet[34..42 + |data|] == packet[34..42] + packet[42..42 + |data|];
  }

  // Fills a packet field by field and hands it to the card; nothing is sent when the card is not ready or the
  // data does not fit.
  method SendPacket(ready: bool, mac: Mac, src: Address, dst: Address, srcPort: u16, dstPort: u16, data: seq<byte>)
    returns (sent: Option<seq<byte>>)
    ensures sent ==
      if ready && |data| <= MAX_PAYLOAD then Some(Frame(mac, Datagram(src, dst, srcPort, dstPort, data))) else None
  {
    hide SentHeader, UdpHeader;
    if !ready || |data| > MAX_PAYLOAD {
      return None;
    }
    var packet := new byte[FRAME_SIZE](_ => 0);
    CopyInto(packet, 0, BROADCAST);
    CopyInto(packet, 6, mac);
    packet[12] := 0x08;
    packet[13] := 0x00;
    assert packet[..14] == BROADCAST + mac + [0x08, 0x00];
    ghost var front := packet[..14];
    var total := IP_HEADER + UDP_HEADER + |data|;
    FillIp(packet, src, dst, total);
    ghost var header := packet[14..34];
    FillUdp(packet, srcPort, dstPort, data);
    assert packet[..14] == front && packet[14..34] == header;
    assert packet[..ETHERNET_HEADER + total] == packet[..14] + packet[14..34] + packet[34..42 + |data|];
    ghost var u := UdpHeader(srcPort, dstPort, UDP_HEADER + |data|);
    assert front + header + (u + data) == front + header + u + data;
    sent := Some(packet[..ETHERNET_HEADER + total]);
  }
}
