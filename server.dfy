/** `DhcpServer`: the configuration, the listening sockets, the lease table
    and the address counter, and the handlers that change them step by
    step. Each handler is proved against the function of `Engine` or
    `LeaseFile` that states what it does. */
module Server {
  import opened Common
  import opened Conf
  import opened ServerConfig
  import opened Message
  import opened Engine
  import EngineProperties
  import LeaseFile

  /** `UdpSocket`: the server keeps its sockets by identity only; creating,
      binding, reading, writing and closing them is the socket library's
      business. */
  class UdpSocket {
    constructor ()
    {
    }
  }

  /** What a listener event asks of the socket library: a socket to create
      and bind to port 67, a socket to close, or nothing. */
  datatype SocketEffect = Opened(socket: UdpSocket) | Closed(socket: UdpSocket) | NoEffect

  // ---------------------------------------------------------------------
  // The 500-byte reply buffer
  // ---------------------------------------------------------------------

  const BUFFER_SIZE: nat := 500

  /** The longest the options of a reply to `m` can be: options 54, 51 and
      53, the echoed options and the end code. */
  function OptionsBound(m: Message, c: Config): nat
    requires ByteConfig(c)
  {
    16 + |Echo(m.optionRequest, c)|
  }

  /** The reply to `m` fits the buffer. The source does not check this. */
  predicate Fits(m: Message, c: Config)
  {
    ByteConfig(c) && HEADER_SIZE + OptionsBound(m, c) <= BUFFER_SIZE
  }

  /** Writing `b` at the write position `pos`, behind which the buffer is
      still zero: what was written grows by `b`, the rest stays zero. */
  method Append(buf: array<byte>, pos: nat, b: seq<byte>) returns (next: nat)
    requires pos + |b| <= buf.Length
    requires forall j :: pos <= j < buf.Length ==> buf[j] == 0
    modifies buf
    ensures next == pos + |b| && buf[..next] == old(buf[..pos]) + b
    ensures forall j :: next <= j < buf.Length ==> buf[j] == 0
  {
    var i := 0;
    while i < |b|
      invariant i <= |b|
      invariant forall j :: 0 <= j < pos ==> buf[j] == old(buf[j])
      invariant forall j :: pos <= j < pos + i ==> buf[j] == b[j - pos]
      invariant forall j :: pos + i <= j < buf.Length ==> buf[j] == 0
    {
      buf[pos + i] := b[i];
      i := i + 1;
    }
    next := pos + |b|;
    assert buf[..next] == old(buf[..pos]) + b;
  }

  /** `fnSetOptionFromRequestList`: the option for each requested code, in
      request order, written behind `pos`. */
  method AppendEcho(buf: array<byte>, pos: nat, requests: seq<byte>, c: Config) returns (next: nat)
    requires ByteConfig(c) && pos + |Echo(requests, c)| <= buf.Length
    requires forall j :: pos <= j < buf.Length ==> buf[j] == 0
    modifies buf
    ensures next == pos + |Echo(requests, c)| && buf[..next] == old(buf[..pos]) + Echo(requests, c)
    ensures forall j :: next <= j < buf.Length ==> buf[j] == 0
  {
    ghost var front := buf[..pos];
    next := pos;
    var i := 0;
    while i < |requests|
      invariant i <= |requests| && next == pos + |Echo(requests[..i], c)| <= buf.Length
      invariant buf[..next] == front + Echo(requests[..i], c)
      invariant forall j :: next <= j < buf.Length ==> buf[j] == 0
    {
      EchoSnoc(requests, i, c);
      var option := EchoOption(requests[i], c);
      assert next + |option| <= buf.Length;
      next := Append(buf, next, option);
      AppendAssoc(front, Echo(requests[..i], c), EchoOption(requests[i], c));
      i := i + 1;
    }
    assert requests[..i] == requests;
  }

  /** The echoed options of one more requested code. */
  lemma EchoSnoc(requests: seq<byte>, i: nat, c: Config)
    requires ByteConfig(c) && i < |requests|
    ensures Echo(requests[..i + 1], c) == Echo(requests[..i], c) + EchoOption(requests[i], c)
    ensures |Echo(requests[..i + 1], c)| <= |Echo(requests, c)|
  {
    assert requests[..i + 1][..i] == requests[..i];
    EchoPrefix(requests, i + 1, c);
  }

  /** The echoed options of a prefix of the requests are no longer than
      those of all of them. */
  lemma {:induction false} EchoPrefix(requests: seq<byte>, n: nat, c: Config)
    requires ByteConfig(c) && n <= |requests|
    ensures |Echo(requests[..n], c)| <= |Echo(requests, c)|
    decreases |requests| - n
  {
    if n < |requests| {
      EchoPrefix(requests, n + 1, c);
      assert requests[..n + 1][..n] == requests[..n];
    } else {
      assert requests[..n] == requests;
    }
  }

  lemma AppendAssoc(a: seq<byte>, b: seq<byte>, c: seq<byte>)
    ensures (a + b) + c == a + (b + c)
  {
  }

  /** The header and option 54, written into a zeroed 500-byte buffer
      before the message type is looked at. */
  method StartReply(hdr: Header, addr: string) returns (buf: array<byte>, pos: nat)
    requires hdr.Valid()
    ensures fresh(buf) && buf.Length == BUFFER_SIZE && pos == HEADER_SIZE + 6
    ensures buf[..pos] == HeaderBytes(hdr) + ServerIdOption(addr)
    ensures forall j :: pos <= j < buf.Length ==> buf[j] == 0
  {
    buf := new byte[BUFFER_SIZE](_ => 0);
    var start := Append(buf, 0, HeaderBytes(hdr));
    assert buf[..0] == [];
    pos := Append(buf, start, ServerIdOption(addr));
  }

  /** The echoed options and the end code, then the length sent: what was
      written, but at least 300 bytes. */
  method FinishReply(buf: array<byte>, pos: nat, m: Message, c: Config) returns (bytes: seq<byte>)
    requires ByteConfig(c) && pos + |Echo(m.optionRequest, c)| + 1 <= buf.Length && 300 <= buf.Length
    requires forall j :: pos <= j < buf.Length ==> buf[j] == 0
    modifies buf
    ensures bytes == Padded(old(buf[..pos]) + Echo(m.optionRequest, c) + [END])
  {
    var next := AppendEcho(buf, pos, m.optionRequest, c);
    next := Append(buf, next, [END]);
    var len := if next < 300 then 300 else next;
    bytes := buf[..len];
    if next < 300 {
      assert buf[next..len] == Zeros(300 - next);
      assert bytes == buf[..next] + buf[next..len];
    }
  }

  /** An OFFER or an ACK handing out `ip`: the header, option 54, the lease
      time, the message type, the echoed options and the end code. */
  method WriteAddressReply(m: Message, addr: string, c: Config, ip: string, ciaddr: seq<byte>, t: byte, dest: string)
    returns (r: Reply)
    requires m.header.Valid() && m.header.hlen <= 16 && |ciaddr| == 4 && Fits(m, c)
    ensures r == AddressReply(m, addr, c, ip, ciaddr, t, dest)
  {
    var hdr := ReplyHeader(m.header, addr, ciaddr, PtonOrZero(ip));
    var buf, pos := StartReply(hdr, addr);
    pos := Append(buf, pos, LeaseTimeOption(c.leaseTime));
    pos := Append(buf, pos, TypeOption(t));
    var bytes := FinishReply(buf, pos, m, c);
    AddressRegroup(HeaderBytes(hdr), ServerIdOption(addr), LeaseTimeOption(c.leaseTime), TypeOption(t),
                   Echo(m.optionRequest, c));
    r := Reply(bytes, dest);
  }

  /** The ACK to an INFORM: the header with the client's address, option
      54, the message type, the echoed options and the end code. */
  method WriteInformReply(m: Message, addr: string, c: Config) returns (r: Reply)
    requires m.header.Valid() && m.header.hlen <= 16 && Fits(m, c)
    ensures r == InformReply(m, addr, c)
  {
    var h := m.header;
    var hdr := ReplyHeader(h, addr, h.ciaddr, Zeros(4));
    var buf, pos := StartReply(hdr, addr);
    pos := Append(buf, pos, TypeOption(ACK));
    var bytes := FinishReply(buf, pos, m, c);
    InformRegroup(HeaderBytes(hdr), ServerIdOption(addr), TypeOption(ACK), Echo(m.optionRequest, c));
    r := Reply(bytes, Ntop(h.ciaddr));
  }

  /** The options of an address reply, written one after another behind
      the header. */
  lemma AddressRegroup(h: seq<byte>, s: seq<byte>, l: seq<byte>, t: seq<byte>, e: seq<byte>)
    ensures (h + s) + l + t + e + [END] == h + (s + l + t + e + [END])
  {
  }

  /** The options of the ACK to an INFORM, written one after another behind
      the header. */
  lemma InformRegroup(h: seq<byte>, s: seq<byte>, t: seq<byte>, e: seq<byte>)
    ensures (h + s) + t + e + [END] == h + (s + t + e + [END])
  {
  }

  // ---------------------------------------------------------------------
  // The server
  // ---------------------------------------------------------------------

  /** `find_if` over the block list. */
  method Contains(list: seq<string>, s: string) returns (found: bool)
    ensures found <==> s in list
  {
    var i := 0;
    while i < |list|
      invariant i <= |list| && s !in list[..i]
    {
      if list[i] == s {
        return true;
      }
      assert list[..i + 1] == list[..i] + [list[i]];
      i := i + 1;
    }
    assert list[..i] == list;
    return false;
  }

  class DhcpServer {
    /** `m_maConfig`: interface address to its configuration. */
    var configs: map<string, Config>
    /** `m_maSockets`: the listening sockets. */
    var sockets: map<UdpSocket, SocketEntry>
    /** `m_maIpLeases`. */
    var leases: Leases
    /** The allocator `nextIp`, a `uint8_t` starting at 100. */
    var nextIp: byte

    /** The constructor: the configuration mapped from the configuration
        file, the lease table loaded from the snapshot lines, no sockets. */
    constructor (conf: ConfFile, lines: seq<string>)
      requires AllReadable(conf.sections) && LeaseFile.LinesOk(lines)
      ensures configs == ConfigsOf(conf.sections) && sockets == map[]
      ensures leases == LeaseFile.Load(map[], lines) && nextIp == 100
    {
      var built := BuildConfigs(conf);
      var loaded := LeaseFile.LoadSnapshot(lines);
      configs := built;
      sockets := map[];
      leases := loaded;
      nextIp := 100;
    }

    /** The destructor's snapshot: the lines written for the table. */
    method Save() returns (out: seq<string>)
      requires LeaseFile.Writable(leases)
      ensures out == LeaseFile.Snapshot(leases)
    {
      out := LeaseFile.WriteSnapshot(leases);
    }

    /** `CbIdAddrChanges`: an added configured address gets a new socket;
        a removed configured address loses the first socket found on it;
        any other address changes nothing. */
    method AddrChanged(add: bool, addr: string, family: int, ifIndex: int) returns (effect: SocketEffect)
      modifies this
      ensures configs == old(configs) && leases == old(leases) && nextIp == old(nextIp)
      ensures addr !in configs ==> effect == NoEffect && sockets == old(sockets)
      ensures addr in configs && add ==>
                effect.Opened? && effect.socket !in old(sockets)
                && sockets == old(sockets)[effect.socket := SocketEntry(family, addr, ifIndex)]
      ensures addr in configs && !add ==> !effect.Opened?
      ensures effect.Closed? ==>
                effect.socket in old(sockets) && old(sockets)[effect.socket].addr == addr
                && sockets == old(sockets) - {effect.socket}
      ensures addr in configs && !add && effect == NoEffect ==>
                sockets == old(sockets) && forall s :: s in sockets ==> sockets[s].addr != addr
    {
      if addr !in configs {
        return NoEffect;
      }
      if add {
        var s := new UdpSocket();
        sockets := sockets[s := SocketEntry(family, addr, ifIndex)];
        return Opened(s);
      }
      var pending := sockets.Keys;
      while pending != {}
        invariant pending <= sockets.Keys && sockets == old(sockets)
        invariant configs == old(configs) && leases == old(leases) && nextIp == old(nextIp)
        invariant forall s :: s in sockets && s !in pending ==> sockets[s].addr != addr
        decreases |pending|
      {
        var s :| s in pending;
        if sockets[s].addr == addr {
          sockets := sockets - {s};
          return Closed(s);
        }
        pending := pending - {s};
      }
      return NoEffect;
    }

    /** `Stop`: every socket is closed and forgotten. */
    method Stop() returns (closed: set<UdpSocket>)
      modifies this
      ensures sockets == map[] && closed == old(sockets).Keys
      ensures configs == old(configs) && leases == old(leases) && nextIp == old(nextIp)
    {
      closed := {};
      var open := sockets;
      while open != map[]
        invariant closed !! open.Keys && closed + open.Keys == sockets.Keys
        decreases |open|
      {
        var s :| s in open;
        closed := closed + {s};
        open := open - {s};
      }
      sockets := open;
    }

    /** The socket table entry of `sock`, if it is one of ours. */
    function SocketOf(sock: UdpSocket): (r: Option<SocketEntry>)
      reads this
      ensures r.Some? <==> sock in sockets
      ensures r.Some? ==> r.value == sockets[sock]
    {
      if sock in sockets then Some(sockets[sock]) else None
    }

    /** `DatenEmpfangen`: decode the datagram, pass the gate, then handle
        the message by type. */
    method Receive(sock: UdpSocket, buf: seq<byte>, now: int) returns (reply: Option<Reply>)
      requires Decodable(buf) && ByteConfigs(configs)
      requires Ethernet(ParseHeader(buf)) ==> Decode(buf).msgType.Some?
      requires forall a :: a in configs ==> Fits(Decode(buf), configs[a])
      modifies this
      ensures configs == old(configs) && sockets == old(sockets)
      ensures var r := Handle(Decode(buf), old(SocketOf(sock)), configs, old(leases), old(nextIp), now);
              leases == r.leases && nextIp == r.nextIp && reply == r.reply
      ensures ValidLeases(old(leases)) ==>
                EngineProperties.Evolves(old(leases), Decode(buf).header.chaddr, old(nextIp),
                                         Outcome(leases, nextIp, reply), Decode(buf).msgType == Some(DECLINE))
    {
      ghost var before := Outcome(leases, nextIp, None);
      ghost var socket := SocketOf(sock);
      var m := DecodeDatagram(buf);
      if !Ethernet(m.header) || sock !in sockets || sockets[sock].addr !in configs {
        reply := None;
      } else {
        var addr := sockets[sock].addr;
        var c := configs[addr];
        var hwText := LeaseFile.WriteHwText(m.header.chaddr);
        var blocked := Contains(c.hwBlocked, hwText);
        if blocked {
          reply := None;
        } else {
          reply := Dispatch(m, addr, c, now);
        }
      }
      if ValidLeases(before.leases) {
        EngineProperties.HandleEvolves(m, socket, configs, before.leases, before.nextIp, now);
      }
    }

    /** The handling of an admitted message, by type. */
    method Dispatch(m: Message, addr: string, c: Config, now: int) returns (reply: Option<Reply>)
      requires Servable(m, c) && m.msgType.Some? && Fits(m, c)
      modifies this
      ensures configs == old(configs) && sockets == old(sockets)
      ensures Outcome(leases, nextIp, reply) == Engine.Serve(m, addr, c, old(leases), old(nextIp), now)
    {
      var t := m.msgType.value;
      if t == DISCOVER {
        reply := Offer(m, addr, c, now);
      } else if t == REQUEST {
        reply := Acknowledge(m, addr, c, now);
      } else if m.serverIdent == addr && t == DECLINE {
        DeclineAddress(m.requestIp);
        reply := None;
      } else if m.serverIdent == addr && t == RELEASE {
        ReleaseOwn(m.header.chaddr, now);
        reply := None;
      } else if t == INFORM && m.header.ciaddr != Zeros(4) {
        var r := WriteInformReply(m, addr, c);
        reply := Some(r);
      } else {
        reply := None;
      }
    }

    /** `emplace` of a new record from the counter: the counter moves on
        whether or not the key was free. Returns the record added. */
    method Allocate(hw: seq<byte>, m: Message, addr: string, now: int) returns (added: Option<Lease>)
      modifies this
      ensures configs == old(configs) && sockets == old(sockets)
      ensures Placed(leases, nextIp, added) == Emplace(old(leases), hw, m, addr, old(nextIp), now)
    {
      var ip := NewAddress(addr, nextIp);
      nextIp := Bump(nextIp);
      if hw in leases {
        return None;
      }
      var l := Lease(m.clientIdent, ip, OFFERED, now);
      leases := leases[hw := l];
      return Some(l);
    }

    /** DISCOVER: the client's usable record, or a new one, is offered. */
    method Offer(m: Message, addr: string, c: Config, now: int) returns (reply: Option<Reply>)
      requires Servable(m, c) && Fits(m, c)
      modifies this
      ensures configs == old(configs) && sockets == old(sockets)
      ensures Outcome(leases, nextIp, reply) == Discover(m, addr, c, old(leases), old(nextIp), now)
    {
      var own := Own(leases, m.header.chaddr);
      if own.None? {
        own := Allocate(m.header.chaddr, m, addr, now);
      }
      if own.None? {
        return None;
      }
      var r := WriteAddressReply(m, addr, c, own.value.ip, Zeros(4), OFFER, BROADCAST);
      return Some(r);
    }

    /** REQUEST: in mode 1 a record for another address is erased and a
        missing one allocated; the record then present is leased at `now`
        and acknowledged. */
    method Acknowledge(m: Message, addr: string, c: Config, now: int) returns (reply: Option<Reply>)
      requires Servable(m, c) && Fits(m, c)
      modifies this
      ensures configs == old(configs) && sockets == old(sockets)
      ensures Outcome(leases, nextIp, reply) == Request(m, addr, c, old(leases), old(nextIp), now)
    {
      var mode := RequestMode(m, addr);
      if mode == 0 {
        return None;
      }
      var dest := RequestDest(m, mode);
      var hw := m.header.chaddr;
      var own := Own(leases, hw);
      if mode == 1 && own.Some? && own.value.ip != m.requestIp {
        leases := leases - {hw};
        own := None;
      }
      if mode == 1 && own.None? {
        own := Allocate(hw, m, addr, now);
      }
      if own.None? {
        return None;
      }
      leases := leases[hw := own.value.(flag := LEASED, time := now)];
      var r := WriteAddressReply(m, addr, c, own.value.ip, m.header.ciaddr, ACK, dest);
      return Some(r);
    }

    /** DECLINE: the records are visited in key order and the first one
        holding `ip` is marked declined. */
    method DeclineAddress(ip: string)
      modifies this
      ensures configs == old(configs) && sockets == old(sockets) && nextIp == old(nextIp)
      ensures leases == Decline(old(leases), ip)
    {
      if ip == "" {
        return;
      }
      var pending := leases.Keys;
      while pending != {}
        invariant pending <= leases.Keys && leases == old(leases)
        invariant configs == old(configs) && sockets == old(sockets) && nextIp == old(nextIp)
        invariant forall k :: k in leases && k !in pending ==> leases[k].ip != ip
        decreases |pending|
      {
        LeastExists(pending);
        var k :| IsLeast(k, pending);
        if leases[k].ip == ip {
          FirstHolder(leases, ip, k, pending);
          leases := leases[k := leases[k].(flag := DECLINED)];
          return;
        }
        pending := pending - {k};
      }
      assert FirstWithIp(leases, ip).None?;
    }

    /** RELEASE: the client's usable record is released at `now`. */
    method ReleaseOwn(hw: seq<byte>, now: int)
      modifies this
      ensures configs == old(configs) && sockets == old(sockets) && nextIp == old(nextIp)
      ensures leases == Release(old(leases), hw, now)
    {
      var own := Own(leases, hw);
      if own.Some? {
        leases := leases[hw := leases[hw].(flag := RELEASED, time := now)];
      }
    }
  }

  /** The least pending key holding `ip`, when no key already passed holds
      it, is the first holder in key order. */
  lemma FirstHolder(leases: Leases, ip: string, k: seq<byte>, pending: set<seq<byte>>)
    requires pending <= leases.Keys && IsLeast(k, pending) && leases[k].ip == ip
    requires forall k' :: k' in leases && k' !in pending ==> leases[k'].ip != ip
    ensures FirstWithIp(leases, ip) == Some(k)
  {
    var first := FirstWithIp(leases, ip);
    assert first.Some?;
    LexAntisymmetric(first.value, k);
  }
}
