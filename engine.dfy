/** The server's answer to one received DHCP message (`DatenEmpfangen`):
    which lease record it creates or updates, how the address counter
    moves, and the reply it sends. Everything here is a function of the
    decoded message, the receiving interface, the configuration, the lease
    table, the counter and the current time; `Server` carries it out step
    by step on its own fields and a 500-byte buffer. */
module Engine {
  import opened Common
  import opened Message
  import opened ServerConfig

  // DHCP message types (section 9.6 of RFC 2132).
  const DISCOVER: byte := 1
  const OFFER: byte := 2
  const REQUEST: byte := 3
  const DECLINE: byte := 4
  const ACK: byte := 5
  const RELEASE: byte := 7
  const INFORM: byte := 8

  const BOOTREPLY: byte := 2

  // Options the server writes (sections 3.3, 3.5, 3.8, 3.17 and 9.2 of RFC 2132).
  const SUBNET_MASK: byte := 1
  const ROUTER: byte := 3
  const DNS_SERVER: byte := 6
  const DOMAIN_NAME: byte := 15
  const LEASE_TIME: byte := 51

  /** `IP_FLAGS`. */
  const OFFERED: uint32 := 1
  const LEASED: uint32 := 2
  const RELEASED: uint32 := 4
  const DECLINED: uint32 := 8

  predicate IsFlag(f: uint32)
  {
    f == OFFERED || f == LEASED || f == RELEASED || f == DECLINED
  }

  /** `IP_ENTRY`; the time stamp is in seconds. */
  datatype Lease = Lease(clientId: string, ip: string, flag: uint32, time: int)

  /** `m_maIpLeases`: the 16 `chaddr` bytes of a client to its record. */
  type Leases = map<seq<byte>, Lease>

  /** Every key is a full hardware-address field and every flag is one of
      the four. */
  predicate ValidLeases(leases: Leases)
  {
    forall k :: k in leases ==> |k| == 16 && IsFlag(leases[k].flag)
  }

  /** `SOCKET_ENTRY`. */
  datatype SocketEntry = SocketEntry(family: int, addr: string, ifIndex: int)

  /** What `Write` is given: the datagram and its destination text. */
  datatype Reply = Reply(bytes: seq<byte>, dest: string)

  /** What handling one message leaves: the lease table, the counter, and
      the reply sent, if any. */
  datatype Outcome = Outcome(leases: Leases, nextIp: byte, reply: Option<Reply>)

  const BROADCAST: string := "255.255.255.255:68"

  /** The only hardware the server answers: Ethernet with 6-byte addresses. */
  predicate Ethernet(h: Header)
  {
    h.htype == 1 && h.hlen == 6
  }

  // ---------------------------------------------------------------------
  // The hardware address as block-list text
  // ---------------------------------------------------------------------

  /** The text the block list is compared with, as the source builds it:
      each byte goes to the stream as a character, padded on the left with
      '0' to width 2, with ':' between bytes. */
  function HwTextAsWritten(b: seq<byte>): (s: string)
    ensures |b| > 0 ==> |s| == 3 * |b| - 1
    decreases |b|
  {
    if |b| == 0 then ""
    else HwTextAsWritten(b[..|b| - 1]) + (if |b| > 1 then ":" else "") + ['0', b[|b| - 1] as char]
  }

  /** The text as evidently intended: two lower-case hex digits per byte,
      with ':' between bytes. */
  function HwText(b: seq<byte>): (s: string)
    ensures |b| > 0 ==> |s| == 3 * |b| - 1
    decreases |b|
  {
    if |b| == 0 then ""
    else HwText(b[..|b| - 1]) + (if |b| > 1 then ":" else "") + Hex2(b[|b| - 1])
  }

  /** Both texts begin with the text of the first byte. */
  lemma {:induction false} HwTextsStart(b: seq<byte>)
    requires |b| > 0
    ensures HwText(b)[..2] == Hex2(b[0])
    ensures HwTextAsWritten(b)[..2] == ['0', b[0] as char]
    decreases |b|
  {
    if |b| > 1 {
      HwTextsStart(b[..|b| - 1]);
    }
  }

  /** As written, the text of an address never equals its hex text, so a
      block list written in hex never blocks anyone. */
  lemma HwTextAsWrittenNeverHex(b: seq<byte>)
    requires |b| > 0
    ensures HwTextAsWritten(b) != HwText(b)
  {
    HwTextsStart(b);
    var h := Hex2(b[0]);
    if h[0] == '0' {
      assert b[0] < 16;
      assert h[1] != b[0] as char;
    }
    assert HwTextAsWritten(b)[..2] != HwText(b)[..2];
  }

  lemma HwTextSnoc(b: seq<byte>, x: byte)
    ensures HwText(b + [x]) == HwText(b) + (if |b| > 0 then ":" else "") + Hex2(x)
  {
    assert (b + [x])[..|b|] == b;
  }

  /** The text of a six-byte address, spelled out. */
  lemma HwTextSix(b: seq<byte>)
    requires |b| == 6
    ensures HwText(b) == Hex2(b[0]) + ":" + Hex2(b[1]) + ":" + Hex2(b[2]) + ":" + Hex2(b[3]) + ":" + Hex2(b[4]) + ":" + Hex2(b[5])
  {
    assert b[..0] + [b[0]] == b[..1];
    assert b[..1] + [b[1]] == b[..2];
    assert b[..2] + [b[2]] == b[..3];
    assert b[..3] + [b[3]] == b[..4];
    assert b[..4] + [b[4]] == b[..5];
    assert b[..5] + [b[5]] == b;
    HwTextSnoc(b[..0], b[0]);
    HwTextSnoc(b[..1], b[1]);
    HwTextSnoc(b[..2], b[2]);
    HwTextSnoc(b[..3], b[3]);
    HwTextSnoc(b[..4], b[4]);
    HwTextSnoc(b[..5], b[5]);
  }

  /** The address 00:11:22:33:44:55 listed as `HW_Blocked = 00:11:22:33:44:55`:
      its hex text is on the list, the text built as written is not. */
  lemma HwBlockMissed(b: seq<byte>, entry: string)
    requires b == [0x00, 0x11, 0x22, 0x33, 0x44, 0x55]
    requires entry == "00:11:22:33:44:55"
    ensures HwText(b) in Tokens(entry, ',') && HwTextAsWritten(b) !in Tokens(entry, ',')
  {
    SampleText(b, entry);
    SingleToken(entry, ',');
    HwTextAsWrittenNeverHex(b);
  }

  lemma SampleText(b: seq<byte>, entry: string)
    requires b == [0x00, 0x11, 0x22, 0x33, 0x44, 0x55]
    requires entry == "00:11:22:33:44:55"
    ensures HwText(b) == entry && ',' !in entry
  {
    HwTextSix(b);
    HexSamples();
    assert entry == "00" + ":" + "11" + ":" + "22" + ":" + "33" + ":" + "44" + ":" + "55";
  }

  lemma HexSamples()
    ensures Hex2(0x00) == "00" && Hex2(0x11) == "11" && Hex2(0x22) == "22"
    ensures Hex2(0x33) == "33" && Hex2(0x44) == "44" && Hex2(0x55) == "55"
  {
  }

  /** A text without the separator is a single token. */
  lemma SingleToken(s: string, c: char)
    requires c !in s
    ensures Tokens(s, c) == [s]
  {
  }

  /** Distinct addresses of one length have distinct hex texts, so a
      block-list entry names exactly one address. */
  lemma {:induction false} HwTextInjective(a: seq<byte>, b: seq<byte>)
    requires |a| == |b| && HwText(a) == HwText(b)
    ensures a == b
    decreases |a|
  {
    if |a| > 0 {
      var n := |a|;
      var ta, tb := HwText(a), HwText(b);
      assert ta[|ta| - 2..] == Hex2(a[n - 1]);
      assert tb[|tb| - 2..] == Hex2(b[n - 1]);
      assert a[n - 1] == b[n - 1];
      if n > 1 {
        assert ta[..|ta| - 3] == HwText(a[..n - 1]);
        assert tb[..|tb| - 3] == HwText(b[..n - 1]);
      } else {
        assert ta[..|ta| - 2] == HwText(a[..n - 1]);
        assert tb[..|tb| - 2] == HwText(b[..n - 1]);
      }
      HwTextInjective(a[..n - 1], b[..n - 1]);
      assert a == a[..n - 1] + [a[n - 1]] && b == b[..n - 1] + [b[n - 1]];
    }
  }

  /** The client's hardware address is on the interface's block list. */
  predicate Blocked(h: Header, c: Config)
    requires h.Valid() && h.hlen <= 16
  {
    HwText(h.chaddr[..h.hlen]) in c.hwBlocked
  }

  /** The block-list test as the source builds its key: with the
      character text of the address. */
  predicate BlockedAsWritten(h: Header, c: Config)
    requires h.Valid() && h.hlen <= 16
  {
    HwTextAsWritten(h.chaddr[..h.hlen]) in c.hwBlocked
  }

  /** A block list holding exactly the client's address in hex: the
      corrected gate blocks the client, the gate as written lets it in. */
  lemma BlockedDiffers(h: Header, c: Config)
    requires h.Valid() && 0 < h.hlen <= 16 && c.hwBlocked == [HwText(h.chaddr[..h.hlen])]
    ensures Blocked(h, c) && !BlockedAsWritten(h, c)
  {
    HwTextAsWrittenNeverHex(h.chaddr[..h.hlen]);
  }

  // ---------------------------------------------------------------------
  // The broadcast flag
  // ---------------------------------------------------------------------

  /** The flags field read as a 16-bit integer in host order on a
      little-endian host, as the source reads it. */
  function HostFlags(flags: seq<byte>): (v: nat)
    requires |flags| == 2
    ensures v < 0x1_0000
  {
    flags[0] as int + 256 * flags[1] as int
  }

  /** The source's test `(flags & 0x8000) != 0`. */
  predicate BroadcastAsWritten(flags: seq<byte>)
    requires |flags| == 2
  {
    HostFlags(flags) >= 0x8000
  }

  /** The broadcast bit of section 2 of RFC 2131: the leftmost bit of the
      field in network order, the top bit of its first byte. */
  predicate BroadcastBit(flags: seq<byte>)
    requires |flags| == 2
  {
    flags[0] >= 128
  }

  /** As written the test looks at the top bit of the second byte. */
  lemma BroadcastAsWrittenTestsSecondByte(flags: seq<byte>)
    requires |flags| == 2
    ensures BroadcastAsWritten(flags) <==> flags[1] >= 128
  {
  }

  /** A RENEW with the broadcast bit set (flags 0x80 0x00): the client asks
      for a broadcast, the test as written sees none and unicasts. */
  lemma BroadcastMissed()
    ensures BroadcastBit([0x80, 0x00]) && !BroadcastAsWritten([0x80, 0x00])
  {
  }

  // ---------------------------------------------------------------------
  // The address counter
  // ---------------------------------------------------------------------

  /** `find_last_of`: the position of the last `c`. */
  function LastIndexOf(s: string, c: char): (r: Option<nat>)
    ensures r.Some? ==> r.value < |s| && s[r.value] == c && c !in s[r.value + 1..]
    ensures r.None? ==> c !in s
    decreases |s|
  {
    if |s| == 0 then None
    else if s[|s| - 1] == c then Some(|s| - 1)
    else
      var r := LastIndexOf(s[..|s| - 1], c);
      assert s == s[..|s| - 1] + [s[|s| - 1]];
      if r.Some? then
        assert s[r.value + 1..] == s[..|s| - 1][r.value + 1..] + [s[|s| - 1]];
        r
      else r
  }

  /** The interface address up to and including its last '.'; empty when
      it has none (`npos + 1` wraps to 0). */
  function Prefix(addr: string): string
  {
    match LastIndexOf(addr, '.')
    case None => ""
    case Some(i) => addr[..i + 1]
  }

  /** The address handed out next: the prefix followed by the counter. */
  function NewAddress(addr: string, n: byte): string
  {
    Prefix(addr) + Decimal(n)
  }

  lemma LastDotBefore(x: string, y: string)
    requires '.' !in y
    ensures LastIndexOf(x + "." + y, '.') == Some(|x|)
  {
    var s := x + "." + y;
    assert s[|x|] == '.';
    assert s[|x| + 1..] == y;
    var i := LastIndexOf(s, '.').value;
    assert i >= |x| by {
      assert '.' !in s[i + 1..];
      assert forall j :: i < j < |s| ==> s[j] != '.';
    }
    assert i <= |x| by {
      assert forall j :: |x| < j < |s| ==> s[j] == y[j - |x| - 1];
    }
  }

  /** On an interface with a dotted-quad address, the new address is in
      the same /24 with the counter as its last byte. */
  lemma NewAddressInSubnet(a: seq<byte>, n: byte)
    requires |a| == 4
    ensures NewAddress(Ntop(a), n) == Ntop(a[..3] + [n])
    ensures Pton(NewAddress(Ntop(a), n)) == Some(a[..3] + [n])
  {
    var d0, d1, d2, d3 := Decimal(a[0]), Decimal(a[1]), Decimal(a[2]), Decimal(a[3]);
    var x := d0 + "." + d1 + "." + d2;
    JoinFour(d0, d1, d2, d3);
    OctetOfDecimal(a[3]);
    LastDotBefore(x, d3);
    assert Prefix(Ntop(a)) == x + ".";
    var b := a[..3] + [n];
    assert b[0] == a[0] && b[1] == a[1] && b[2] == a[2] && b[3] == n;
    JoinFour(d0, d1, d2, Decimal(n));
    PtonNtop(b);
  }

  lemma JoinFour(d0: string, d1: string, d2: string, d3: string)
    ensures Join([d0, d1, d2, d3], '.') == d0 + "." + d1 + "." + d2 + "." + d3
  {
    assert [d0, d1, d2, d3][1..] == [d1, d2, d3];
    assert [d1, d2, d3][1..] == [d2, d3];
    assert [d2, d3][1..] == [d3];
    var tail := d2 + "." + d3;
    assert Join([d2, d3], '.') == tail;
    assert Join([d1, d2, d3], '.') == d1 + "." + tail;
    assert Join([d0, d1, d2, d3], '.') == d0 + "." + (d1 + "." + tail);
    assert d0 + "." + (d1 + "." + tail) == d0 + "." + d1 + "." + d2 + "." + d3;
  }

  /** The counter after an allocation: `uint8_t` wraps from 255 to 0. */
  function Bump(n: byte): (r: byte)
    ensures r == if n == 255 then 0 else n + 1
  {
    (n + 1) % 256
  }

  // ---------------------------------------------------------------------
  // Reply options
  // ---------------------------------------------------------------------

  /** The configuration values the reply copies as bytes are byte strings. */
  predicate ByteConfig(c: Config)
  {
    IsByteString(c.domainName)
  }

  /** Option 15: the length byte is the name's length cut to 8 bits, then
      15 bytes are copied from the name and the write position moves on by
      the full length. Past a name longer than 15 the buffer stays zero;
      what a shorter name's storage holds past its terminator is taken to
      be zero too. */
  function DomainOption(dn: string): (b: seq<byte>)
    requires IsByteString(dn)
    ensures |b| == 2 + |dn|
  {
    var k := if |dn| < 15 then |dn| else 15;
    [DOMAIN_NAME, |dn| % 256] + Bytes(dn)[..k] + Zeros(|dn| - k)
  }

  /** The option written for one requested code: subnet mask, router and
      DNS server as four address bytes (zero when the configured text is
      not a dotted quad), the domain name, nothing for any other code. */
  function EchoOption(code: byte, c: Config): seq<byte>
    requires ByteConfig(c)
  {
    if code == SUBNET_MASK then [SUBNET_MASK, 4] + PtonOrZero(c.subnet)
    else if code == DOMAIN_NAME then DomainOption(c.domainName)
    else if code == ROUTER then [ROUTER, 4] + PtonOrZero(c.router)
    else if code == DNS_SERVER then [DNS_SERVER, 4] + PtonOrZero(c.dns)
    else []
  }

  /** `fnSetOptionFromRequestList`: the options for the requested codes,
      in request order, repeats included. */
  function Echo(requests: seq<byte>, c: Config): seq<byte>
    requires ByteConfig(c)
    decreases |requests|
  {
    if |requests| == 0 then []
    else Echo(requests[..|requests| - 1], c) + EchoOption(requests[|requests| - 1], c)
  }

  /** Option 54 with the interface address. */
  function ServerIdOption(addr: string): seq<byte>
  {
    [SERVER_IDENT, 4] + PtonOrZero(addr)
  }

  /** Option 51 with the lease time in network byte order (`htonl`). */
  function LeaseTimeOption(t: uint32): seq<byte>
  {
    [LEASE_TIME, 4, t / 0x100_0000, t / 0x1_0000 % 256, t / 0x100 % 256, t % 256]
  }

  function TypeOption(t: byte): seq<byte>
  {
    [MESSAGE_TYPE, 1, t]
  }

  // ---------------------------------------------------------------------
  // The reply
  // ---------------------------------------------------------------------

  /** `sname`: "lap-88" in a zeroed 64-byte field. */
  const SERVER_NAME: seq<byte> := [108, 97, 112, 45, 56, 56] + Zeros(58)

  /** The reply header written into the zeroed buffer: a BOOTREPLY with the
      request's htype, hlen, xid, flags, giaddr, first hlen bytes of chaddr
      and cookie; siaddr is the interface address; hops, secs and file
      stay zero. */
  function ReplyHeader(h: Header, addr: string, ciaddr: seq<byte>, yiaddr: seq<byte>): (r: Header)
    requires h.Valid() && h.hlen <= 16 && |ciaddr| == 4 && |yiaddr| == 4
    ensures r.Valid()
  {
    Header(BOOTREPLY, h.htype, h.hlen, 0, h.xid, Zeros(2), h.flags, ciaddr, yiaddr,
           PtonOrZero(addr), h.giaddr, h.chaddr[..h.hlen] + Zeros(16 - h.hlen),
           SERVER_NAME, Zeros(128), h.cookie)
  }

  /** What is sent of a buffer holding `image`: at least 300 bytes. */
  function Padded(image: seq<byte>): (b: seq<byte>)
    ensures |b| >= 300 && |b| >= |image| && b[..|image|] == image
  {
    if |image| < 300 then image + Zeros(300 - |image|) else image
  }

  /** The options of an OFFER or an ACK that hands out an address. */
  function AddressOptions(m: Message, addr: string, c: Config, t: byte): seq<byte>
    requires ByteConfig(c)
  {
    ServerIdOption(addr) + LeaseTimeOption(c.leaseTime) + TypeOption(t) + Echo(m.optionRequest, c) + [END]
  }

  /** An OFFER or an ACK handing out `ip`. */
  function AddressReply(m: Message, addr: string, c: Config, ip: string, ciaddr: seq<byte>, t: byte, dest: string): Reply
    requires m.header.Valid() && m.header.hlen <= 16 && |ciaddr| == 4 && ByteConfig(c)
  {
    var hdr := ReplyHeader(m.header, addr, ciaddr, PtonOrZero(ip));
    Reply(Padded(HeaderBytes(hdr) + AddressOptions(m, addr, c, t)), dest)
  }

  /** The options of the ACK to an INFORM: no lease time. */
  function InformOptions(m: Message, addr: string, c: Config): seq<byte>
    requires ByteConfig(c)
  {
    ServerIdOption(addr) + TypeOption(ACK) + Echo(m.optionRequest, c) + [END]
  }

  /** The ACK to an INFORM, sent to the client's own address. */
  function InformReply(m: Message, addr: string, c: Config): Reply
    requires m.header.Valid() && m.header.hlen <= 16 && ByteConfig(c)
  {
    var h := m.header;
    var hdr := ReplyHeader(h, addr, h.ciaddr, Zeros(4));
    Reply(Padded(HeaderBytes(hdr) + InformOptions(m, addr, c)), Ntop(h.ciaddr))
  }

  // ---------------------------------------------------------------------
  // The lease table
  // ---------------------------------------------------------------------

  /** The client's usable record (`itIp`): a declined record counts as none. */
  function Own(leases: Leases, hw: seq<byte>): (r: Option<Lease>)
    ensures r.Some? <==> hw in leases && leases[hw].flag != DECLINED
    ensures r.Some? ==> r.value == leases[hw]
  {
    if hw in leases && leases[hw].flag != DECLINED then Some(leases[hw]) else None
  }

  /** The result of `emplace`: the table, the counter, and the new record
      when one was added. */
  datatype Placed = Placed(leases: Leases, nextIp: byte, added: Option<Lease>)

  /** `emplace(hw, {client id, prefix + to_string(nextIp++), IP_OFFERT, now})`:
      the record goes in only when the key is absent; the counter moves on
      either way, because the argument is built first. */
  function Emplace(leases: Leases, hw: seq<byte>, m: Message, addr: string, nextIp: byte, now: int): (r: Placed)
    ensures r.nextIp == Bump(nextIp)
    ensures hw in leases ==> r.leases == leases && r.added.None?
    ensures hw !in leases ==> r.added == Some(Lease(m.clientIdent, NewAddress(addr, nextIp), OFFERED, now))
                              && r.leases == leases[hw := r.added.value]
  {
    var l := Lease(m.clientIdent, NewAddress(addr, nextIp), OFFERED, now);
    if hw in leases then Placed(leases, Bump(nextIp), None) else Placed(leases[hw := l], Bump(nextIp), Some(l))
  }

  /** The first record in key order (`map` iteration order) holding `ip`. */
  ghost function FirstWithIp(leases: Leases, ip: string): (r: Option<seq<byte>>)
    ensures r.Some? ==> r.value in leases && leases[r.value].ip == ip
                        && forall k :: k in leases && leases[k].ip == ip ==> LexLe(r.value, k)
    ensures r.None? ==> forall k :: k in leases ==> leases[k].ip != ip
  {
    var holders := set k | k in leases && leases[k].ip == ip;
    assert forall k :: k in leases && leases[k].ip == ip ==> k in holders;
    if holders == {} then None
    else
      LeastExists(holders);
      var k :| IsLeast(k, holders);
      Some(k)
  }

  /** DECLINE: the first record holding the declined address is marked
      declined; its time stays. */
  ghost function Decline(leases: Leases, ip: string): (r: Leases)
    ensures r.Keys == leases.Keys
    ensures ip == "" ==> r == leases
    ensures forall k :: k in leases && FirstWithIp(leases, ip) != Some(k) ==> r[k] == leases[k]
    ensures ip != "" && FirstWithIp(leases, ip).Some? ==>
              var k := FirstWithIp(leases, ip).value;
              r[k] == leases[k].(flag := DECLINED)
  {
    if ip == "" then leases
    else
      match FirstWithIp(leases, ip)
      case None => leases
      case Some(k) => leases[k := leases[k].(flag := DECLINED)]
  }

  /** RELEASE: the client's usable record is marked released at `now`. */
  function Release(leases: Leases, hw: seq<byte>, now: int): (r: Leases)
    ensures r.Keys == leases.Keys
    ensures forall k :: k in leases && k != hw ==> r[k] == leases[k]
    ensures Own(leases, hw).Some? ==> r[hw] == leases[hw].(flag := RELEASED, time := now)
    ensures Own(leases, hw).None? ==> r == leases
  {
    if Own(leases, hw).Some? then leases[hw := leases[hw].(flag := RELEASED, time := now)] else leases
  }

  // ---------------------------------------------------------------------
  // Handling one message
  // ---------------------------------------------------------------------

  /** The REQUEST sub-mode of section 4.3.2 of RFC 2131, with the source's
      later tests overriding earlier ones: 1 answers an OFFER of this
      server, 2 is INIT-REBOOT, 3 is RENEWING or REBINDING, 0 is none. */
  function RequestMode(m: Message, addr: string): (mode: nat)
    requires m.header.Valid()
    ensures mode <= 3
    ensures mode == 1 <==> m.serverIdent == addr && addr != "" && m.header.ciaddr == Zeros(4) && m.requestIp != ""
    ensures mode == 2 <==> m.serverIdent == "" && m.header.ciaddr == Zeros(4) && m.requestIp != ""
    ensures mode == 3 <==> m.serverIdent == "" && m.header.ciaddr != Zeros(4) && m.requestIp == ""
  {
    var unset := m.header.ciaddr == Zeros(4);
    if m.serverIdent == "" && !unset && m.requestIp == "" then 3
    else if m.serverIdent == "" && unset && m.requestIp != "" then 2
    else if m.serverIdent == addr && unset && m.requestIp != "" then 1
    else 0
  }

  /** Where an ACK to a REQUEST goes: to the client's own address (without
      a port) in mode 3 when it did not ask for a broadcast, to the
      broadcast address otherwise. */
  function RequestDest(m: Message, mode: nat): (dest: string)
    requires m.header.Valid()
    ensures dest != BROADCAST ==> mode == 3 && !BroadcastBit(m.header.flags)
  {
    if mode == 3 && !BroadcastBit(m.header.flags) then
      var d := Ntop(m.header.ciaddr);
      assert |d| < |BROADCAST| by { NtopShort(m.header.ciaddr); }
      d
    else BROADCAST
  }

  /** The destination as written: the same choice, with the broadcast
      flag tested as the source tests it. */
  function RequestDestAsWritten(m: Message, mode: nat): (dest: string)
    requires m.header.Valid()
    ensures dest != BROADCAST ==> mode == 3 && !BroadcastAsWritten(m.header.flags)
  {
    if mode == 3 && !BroadcastAsWritten(m.header.flags) then
      var d := Ntop(m.header.ciaddr);
      assert |d| < |BROADCAST| by { NtopShort(m.header.ciaddr); }
      d
    else BROADCAST
  }

  /** The two destinations differ exactly for a mode-3 REQUEST whose two
      flag bytes disagree in their top bits. */
  lemma RequestDestDiffers(m: Message, mode: nat)
    requires m.header.Valid()
    ensures RequestDest(m, mode) != RequestDestAsWritten(m, mode)
            <==> mode == 3 && (m.header.flags[0] >= 128) != (m.header.flags[1] >= 128)
  {
    NtopShort(m.header.ciaddr);
    assert |Ntop(m.header.ciaddr)| < |BROADCAST|;
  }

  lemma NtopShort(a: seq<byte>)
    requires |a| == 4
    ensures |Ntop(a)| <= 15
  {
    DecimalOfByte(a[0]);
    DecimalOfByte(a[1]);
    DecimalOfByte(a[2]);
    DecimalOfByte(a[3]);
    JoinFour(Decimal(a[0]), Decimal(a[1]), Decimal(a[2]), Decimal(a[3]));
  }

  predicate Servable(m: Message, c: Config)
  {
    m.header.Valid() && Ethernet(m.header) && ByteConfig(c)
  }

  /** DISCOVER: offer the client's usable record, or a new one from the
      counter; nothing when the client's own record is declined (the
      `emplace` fails). The OFFER is broadcast. */
  function Discover(m: Message, addr: string, c: Config, leases: Leases, nextIp: byte, now: int): (r: Outcome)
    requires Servable(m, c)
    ensures Own(leases, m.header.chaddr).Some? ==> r.leases == leases && r.nextIp == nextIp
    ensures Own(leases, m.header.chaddr).None? ==> r.nextIp == Bump(nextIp)
    ensures r.reply.Some? ==> r.reply.value.dest == BROADCAST
  {
    var hw := m.header.chaddr;
    match Own(leases, hw)
    case Some(l) =>
      Outcome(leases, nextIp, Some(AddressReply(m, addr, c, l.ip, Zeros(4), OFFER, BROADCAST)))
    case None =>
      var e := Emplace(leases, hw, m, addr, nextIp, now);
      match e.added
      case None => Outcome(e.leases, e.nextIp, None)
      case Some(l) => Outcome(e.leases, e.nextIp, Some(AddressReply(m, addr, c, l.ip, Zeros(4), OFFER, BROADCAST)))
  }

  /** The table steps of a REQUEST in a mode other than 0: in mode 1 a
      record for another address is erased and a missing record is
      allocated from the counter (`emplace`, which fails on a declined
      record); the result names the record then present. Other clients'
      records are untouched. */
  function RequestPlace(m: Message, addr: string, leases: Leases, nextIp: byte, now: int, mode: nat): (e: Placed)
    requires m.header.Valid()
    ensures mode != 1 ==> e == Placed(leases, nextIp, Own(leases, m.header.chaddr))
    ensures e.nextIp == nextIp || e.nextIp == Bump(nextIp)
    ensures e.leases - {m.header.chaddr} == leases - {m.header.chaddr}
    ensures e.added.None? ==> e.leases == leases
  {
    var hw := m.header.chaddr;
    var own := Own(leases, hw);
    var stale := mode == 1 && own.Some? && own.value.ip != m.requestIp;
    var leases1 := if stale then leases - {hw} else leases;
    var own1 := if stale then None else own;
    assert leases1 - {hw} == leases - {hw};
    if mode == 1 && own1.None? then Emplace(leases1, hw, m, addr, nextIp, now)
    else Placed(leases1, nextIp, own1)
  }

  /** REQUEST: the record `RequestPlace` leaves becomes leased at `now` and
      is acknowledged. Mode 0 does nothing. */
  function Request(m: Message, addr: string, c: Config, leases: Leases, nextIp: byte, now: int): (r: Outcome)
    requires Servable(m, c)
    ensures RequestMode(m, addr) == 0 ==> r == Outcome(leases, nextIp, None)
    ensures RequestMode(m, addr) != 1 ==> r.nextIp == nextIp && r.leases.Keys == leases.Keys
  {
    var hw := m.header.chaddr;
    var mode := RequestMode(m, addr);
    if mode == 0 then Outcome(leases, nextIp, None)
    else
      var e := RequestPlace(m, addr, leases, nextIp, now, mode);
      match e.added
      case None => Outcome(e.leases, e.nextIp, None)
      case Some(l) =>
        Outcome(e.leases[hw := l.(flag := LEASED, time := now)], e.nextIp,
                Some(AddressReply(m, addr, c, l.ip, m.header.ciaddr, ACK, RequestDest(m, mode))))
  }

  /** INFORM: an ACK to the client's address when it gave one. */
  function Inform(m: Message, addr: string, c: Config): (r: Option<Reply>)
    requires Servable(m, c)
    ensures r.Some? <==> m.header.ciaddr != Zeros(4)
  {
    if m.header.ciaddr != Zeros(4) then Some(InformReply(m, addr, c)) else None
  }

  /** A message that reached a configured interface and is not blocked. */
  ghost function Serve(m: Message, addr: string, c: Config, leases: Leases, nextIp: byte, now: int): (r: Outcome)
    requires Servable(m, c) && m.msgType.Some?
  {
    var t := m.msgType.value;
    if t == DISCOVER then Discover(m, addr, c, leases, nextIp, now)
    else if t == REQUEST then Request(m, addr, c, leases, nextIp, now)
    else if m.serverIdent == addr && t == DECLINE then Outcome(Decline(leases, m.requestIp), nextIp, None)
    else if m.serverIdent == addr && t == RELEASE then Outcome(Release(leases, m.header.chaddr, now), nextIp, None)
    else if t == INFORM then Outcome(leases, nextIp, Inform(m, addr, c))
    else Outcome(leases, nextIp, None)
  }

  /** The configured interface a message came in on, when it passes the
      gate: Ethernet, a known socket, a configured address, a client not on
      the block list. */
  function Admitted(m: Message, socket: Option<SocketEntry>, configs: map<string, Config>): (r: Option<string>)
    requires m.header.Valid()
    ensures r.Some? ==> && Ethernet(m.header) && socket.Some? && r.value == socket.value.addr
                        && r.value in configs && !Blocked(m.header, configs[r.value])
    ensures r.None? ==> || !Ethernet(m.header) || socket.None? || socket.value.addr !in configs
                        || Blocked(m.header, configs[socket.value.addr])
  {
    if !Ethernet(m.header) || socket.None? || socket.value.addr !in configs then None
    else if Blocked(m.header, configs[socket.value.addr]) then None
    else Some(socket.value.addr)
  }

  predicate ByteConfigs(configs: map<string, Config>)
  {
    forall a :: a in configs ==> ByteConfig(configs[a])
  }

  /** `DatenEmpfangen` after the read: the outcome of one decoded message.
      A message that does not pass the gate changes nothing and gets no
      reply. */
  ghost function Handle(m: Message, socket: Option<SocketEntry>, configs: map<string, Config>,
                        leases: Leases, nextIp: byte, now: int): (r: Outcome)
    requires m.header.Valid() && ByteConfigs(configs)
    requires Ethernet(m.header) ==> m.msgType.Some?
    ensures Admitted(m, socket, configs).None? ==> r == Outcome(leases, nextIp, None)
  {
    match Admitted(m, socket, configs)
    case None => Outcome(leases, nextIp, None)
    case Some(addr) => Serve(m, addr, configs[addr], leases, nextIp, now)
  }
}
