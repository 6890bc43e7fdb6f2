/** What the engine promises: its replies are DHCP messages the decoder
    reads back, and each message type changes the lease table and the
    counter as the protocol handling intends. */
module EngineProperties {
  import opened Common
  import opened Message
  import opened ServerConfig
  import opened Engine

  // ---------------------------------------------------------------------
  // Replies read back
  // ---------------------------------------------------------------------

  /** The options echoed for the requested codes, as options. */
  function EchoOpts(requests: seq<byte>, c: Config): (r: seq<Opt>)
    requires ByteConfig(c)
    decreases |requests|
  {
    if |requests| == 0 then []
    else EchoOpts(requests[..|requests| - 1], c) + EchoOpt(requests[|requests| - 1], c)
  }

  function EchoOpt(code: byte, c: Config): seq<Opt>
    requires ByteConfig(c)
  {
    if code == SUBNET_MASK then [Opt(SUBNET_MASK, PtonOrZero(c.subnet))]
    else if code == DOMAIN_NAME then [Opt(DOMAIN_NAME, DomainOption(c.domainName)[2..])]
    else if code == ROUTER then [Opt(ROUTER, PtonOrZero(c.router))]
    else if code == DNS_SERVER then [Opt(DNS_SERVER, PtonOrZero(c.dns))]
    else []
  }

  /** A configuration whose domain name fits a length byte. */
  predicate ShortName(c: Config)
  {
    ByteConfig(c) && |c.domainName| < 256
  }

  lemma {:induction false} EncodeOptionsAppend(a: seq<Opt>, b: seq<Opt>)
    requires AllWellFormed(a) && AllWellFormed(b)
    ensures AllWellFormed(a + b)
    ensures EncodeOptions(a + b) == EncodeOptions(a) + EncodeOptions(b)
    decreases |a|
  {
    assert AllWellFormed(a + b);
    if a == [] {
      assert a + b == b;
    } else {
      assert (a + b)[0] == a[0];
      assert (a + b)[1..] == a[1..] + b;
      assert AllWellFormed(a[1..]);
      EncodeOptionsAppend(a[1..], b);
    }
  }

  lemma {:induction false} ApplyAllAppend(m: Message, a: seq<Opt>, b: seq<Opt>)
    requires AllWellFormed(a) && AllWellFormed(b) && AllWellFormed(a + b)
    ensures ApplyAll(m, a + b) == ApplyAll(ApplyAll(m, a), b)
    decreases |a|
  {
    if a == [] {
      assert a + b == b;
    } else {
      assert (a + b)[0] == a[0];
      assert (a + b)[1..] == a[1..] + b;
      assert AllWellFormed(a[1..]);
      ApplyAllAppend(ApplyOpt(m, a[0]), a[1..], b);
    }
  }

  /** An option the server echoes: subnet mask, domain name, router or DNS
      server. */
  predicate Echoed(o: Opt)
  {
    o.Opt? && (o.code == SUBNET_MASK || o.code == DOMAIN_NAME || o.code == ROUTER || o.code == DNS_SERVER)
  }

  /** One echoed option is a well-formed option that the decoder does not
      store, and is written as such. */
  lemma EchoOptWritten(code: byte, c: Config)
    requires ShortName(c)
    ensures AllWellFormed(EchoOpt(code, c))
    ensures EncodeOptions(EchoOpt(code, c)) == EchoOption(code, c)
    ensures forall i :: 0 <= i < |EchoOpt(code, c)| ==> Echoed(EchoOpt(code, c)[i])
  {
    var o := EchoOpt(code, c);
    if o != [] {
      assert o[1..] == [];
      assert EncodeOptions(o) == EncodeOpt(o[0]);
    }
  }

  /** The echoed codes are written as well-formed options, in request
      order. */
  lemma {:induction false} EchoWritten(requests: seq<byte>, c: Config)
    requires ShortName(c)
    ensures AllWellFormed(EchoOpts(requests, c))
    ensures EncodeOptions(EchoOpts(requests, c)) == Echo(requests, c)
    ensures forall i :: 0 <= i < |EchoOpts(requests, c)| ==> Echoed(EchoOpts(requests, c)[i])
    decreases |requests|
  {
    if |requests| > 0 {
      var init := requests[..|requests| - 1];
      var code := requests[|requests| - 1];
      EchoWritten(init, c);
      EchoOptWritten(code, c);
      EncodeOptionsAppend(EchoOpts(init, c), EchoOpt(code, c));
    }
  }

  /** The decoder stores none of the echoed options. */
  lemma EchoNotStored(m: Message, requests: seq<byte>, c: Config)
    requires ShortName(c)
    ensures AllWellFormed(EchoOpts(requests, c))
    ensures ApplyAll(m, EchoOpts(requests, c)) == m
  {
    EchoWritten(requests, c);
    var e := EchoOpts(requests, c);
    forall i | 0 <= i < |e| ensures e[i].Pad? || FieldOf(m, e[i].code) == NoField {
      EchoedNoField(m, e[i]);
    }
    UnhandledOptionsIgnored(m, e);
  }

  lemma EchoedNoField(m: Message, o: Opt)
    requires Echoed(o)
    ensures FieldOf(m, o.code) == NoField
  {
  }

  /** The options ahead of the echoed ones in a reply. */
  function LeadOpts(addr: string, lease: Option<uint32>, t: byte): (r: seq<Opt>)
    ensures AllWellFormed(r)
  {
    var lt := match lease
      case Some(v) => [Opt(LEASE_TIME, LeaseTimeOption(v)[2..])]
      case None => [];
    [Opt(SERVER_IDENT, PtonOrZero(addr))] + lt + [Opt(MESSAGE_TYPE, [t])]
  }

  lemma LeadWritten(addr: string, lease: Option<uint32>, t: byte)
    ensures EncodeOptions(LeadOpts(addr, lease, t)) ==
      ServerIdOption(addr) + (if lease.Some? then LeaseTimeOption(lease.value) else []) + TypeOption(t)
  {
    var o := LeadOpts(addr, lease, t);
    if lease.Some? {
      assert o[1..][1..][1..] == [];
      assert o[1..][1..] == [o[2]];
      assert EncodeOptions(o[1..][1..]) == TypeOption(t);
      assert EncodeOptions(o[1..]) == LeaseTimeOption(lease.value) + TypeOption(t);
    } else {
      assert o[1..][1..] == [];
      assert EncodeOptions(o[1..]) == TypeOption(t);
    }
  }

  /** The lead options give the decoder the server identifier and the type. */
  lemma LeadApplied(m: Message, addr: string, lease: Option<uint32>, t: byte)
    ensures ApplyAll(m, LeadOpts(addr, lease, t)) == m.(msgType := Some(t), serverIdent := Ntop(PtonOrZero(addr)))
  {
    var o := LeadOpts(addr, lease, t);
    var m1 := ApplyOpt(m, o[0]);
    assert PtonOrZero(addr)[..4] == PtonOrZero(addr);
    assert m1 == m.(serverIdent := Ntop(PtonOrZero(addr)));
    ApplyAllFirst(m, o);
    if lease.Some? {
      assert ApplyOpt(m1, o[1]) == m1;
      ApplyAllFirst(m1, o[1..]);
      assert o[1..][1..] == [o[2]];
      ApplyAllFirst(m1, o[1..][1..]);
    } else {
      assert o[1..] == [o[1]];
      ApplyAllFirst(m1, o[1..]);
    }
  }

  /** A reply laid out as header, options and end code, padded with zeros,
      reads back as its header with the options applied. */
  lemma PaddedDecodes(hdr: Header, opts: seq<Opt>)
    requires hdr.Valid() && AllWellFormed(opts)
    ensures var b := Padded(HeaderBytes(hdr) + (EncodeOptions(opts) + [END]));
            Decodable(b) && Decode(b) == ApplyAll(Blank(hdr), opts)
  {
    var image := HeaderBytes(hdr) + (EncodeOptions(opts) + [END]);
    var rest := if |image| < 300 then Zeros(300 - |image|) else [];
    assert Padded(image) == HeaderBytes(hdr) + EncodeOptions(opts) + [END] + rest;
    DecodeEncoded(hdr, opts, rest);
  }

  /** An OFFER or an ACK that hands out an address reads back as a DHCP
      message of that type, identifying the server by the interface
      address, with the reply header the server wrote. */
  lemma AddressReplyDecodes(m: Message, addr: string, c: Config, ip: string, ciaddr: seq<byte>, t: byte, dest: string)
    requires m.header.Valid() && m.header.hlen <= 16 && |ciaddr| == 4 && ShortName(c)
    ensures var r := AddressReply(m, addr, c, ip, ciaddr, t, dest);
            var hdr := ReplyHeader(m.header, addr, ciaddr, PtonOrZero(ip));
            && Decodable(r.bytes)
            && Decode(r.bytes) == Blank(hdr).(msgType := Some(t), serverIdent := Ntop(PtonOrZero(addr)))
  {
    var hdr := ReplyHeader(m.header, addr, ciaddr, PtonOrZero(ip));
    var lead := LeadOpts(addr, Some(c.leaseTime), t);
    var echo := EchoOpts(m.optionRequest, c);
    EchoWritten(m.optionRequest, c);
    LeadWritten(addr, Some(c.leaseTime), t);
    EncodeOptionsAppend(lead, echo);
    assert EncodeOptions(lead + echo) + [END] == AddressOptions(m, addr, c, t);
    PaddedDecodes(hdr, lead + echo);
    ApplyAllAppend(Blank(hdr), lead, echo);
    LeadApplied(Blank(hdr), addr, Some(c.leaseTime), t);
    EchoNotStored(Blank(hdr).(msgType := Some(t), serverIdent := Ntop(PtonOrZero(addr))), m.optionRequest, c);
  }

  /** The ACK to an INFORM reads back as an ACK from the interface address
      carrying the client's own address in ciaddr. */
  lemma InformReplyDecodes(m: Message, addr: string, c: Config)
    requires m.header.Valid() && m.header.hlen <= 16 && ShortName(c)
    ensures var r := InformReply(m, addr, c);
            var hdr := ReplyHeader(m.header, addr, m.header.ciaddr, Zeros(4));
            && Decodable(r.bytes)
            && Decode(r.bytes) == Blank(hdr).(msgType := Some(ACK), serverIdent := Ntop(PtonOrZero(addr)))
            && Decode(r.bytes).header.ciaddr == m.header.ciaddr
  {
    var hdr := ReplyHeader(m.header, addr, m.header.ciaddr, Zeros(4));
    var lead := LeadOpts(addr, None, ACK);
    var echo := EchoOpts(m.optionRequest, c);
    EchoWritten(m.optionRequest, c);
    LeadWritten(addr, None, ACK);
    EncodeOptionsAppend(lead, echo);
    assert EncodeOptions(lead + echo) + [END] == InformOptions(m, addr, c);
    PaddedDecodes(hdr, lead + echo);
    ApplyAllAppend(Blank(hdr), lead, echo);
    LeadApplied(Blank(hdr), addr, None, ACK);
    EchoNotStored(Blank(hdr).(msgType := Some(ACK), serverIdent := Ntop(PtonOrZero(addr))), m.optionRequest, c);
  }

  // ---------------------------------------------------------------------
  // What a client reads in a reply
  // ---------------------------------------------------------------------

  predicate ShortNames(configs: map<string, Config>)
  {
    forall a :: a in configs ==> ShortName(configs[a])
  }

  /** A reply to `m` that reads back as a BOOTREPLY of type `t` from the
      interface `addr`, for the same transaction, flags and hardware
      address, handing out `yiaddr`; at least 300 bytes long. */
  predicate ReadsAs(r: Reply, m: Message, addr: string, t: byte, yiaddr: seq<byte>)
    requires m.header.Valid() && m.header.hlen <= 16
  {
    && |r.bytes| >= 300 && Decodable(r.bytes)
    && var d := Decode(r.bytes);
    && d.msgType == Some(t) && d.serverIdent == Ntop(PtonOrZero(addr))
    && d.header.op == BOOTREPLY && d.header.xid == m.header.xid && d.header.flags == m.header.flags
    && |d.header.chaddr| == 16 && d.header.chaddr[..m.header.hlen] == m.header.chaddr[..m.header.hlen]
    && d.header.siaddr == PtonOrZero(addr) && d.header.yiaddr == yiaddr
  }

  lemma AddressReplyReads(m: Message, addr: string, c: Config, ip: string, ciaddr: seq<byte>, t: byte, dest: string)
    requires m.header.Valid() && m.header.hlen <= 16 && |ciaddr| == 4 && ShortName(c)
    ensures ReadsAs(AddressReply(m, addr, c, ip, ciaddr, t, dest), m, addr, t, PtonOrZero(ip))
    ensures Decode(AddressReply(m, addr, c, ip, ciaddr, t, dest).bytes).header.ciaddr == ciaddr
  {
    AddressReplyDecodes(m, addr, c, ip, ciaddr, t, dest);
  }

  lemma InformReplyReads(m: Message, addr: string, c: Config)
    requires m.header.Valid() && m.header.hlen <= 16 && ShortName(c)
    ensures ReadsAs(InformReply(m, addr, c), m, addr, ACK, Zeros(4))
    ensures Decode(InformReply(m, addr, c).bytes).header.ciaddr == m.header.ciaddr
  {
    InformReplyDecodes(m, addr, c);
  }

  // ---------------------------------------------------------------------
  // Each message type
  // ---------------------------------------------------------------------

  /** DISCOVER: a client with a usable record is offered its address and
      nothing changes; a new client gets a record offered at `now` with the
      counter's address, and the counter moves on; a client whose record
      is declined gets no answer, but the counter still moves on. */
  lemma DiscoverOutcome(m: Message, addr: string, c: Config, leases: Leases, nextIp: byte, now: int)
    requires Servable(m, c) && ShortName(c)
    ensures var r := Discover(m, addr, c, leases, nextIp, now);
            var hw := m.header.chaddr;
            && (Own(leases, hw).Some? ==>
                  && r.leases == leases && r.nextIp == nextIp && r.reply.Some?
                  && ReadsAs(r.reply.value, m, addr, OFFER, PtonOrZero(leases[hw].ip)))
            && (hw !in leases ==>
                  && r.leases == leases[hw := Lease(m.clientIdent, NewAddress(addr, nextIp), OFFERED, now)]
                  && r.nextIp == Bump(nextIp) && r.reply.Some?
                  && ReadsAs(r.reply.value, m, addr, OFFER, PtonOrZero(NewAddress(addr, nextIp))))
            && (hw in leases && leases[hw].flag == DECLINED ==> r == Outcome(leases, Bump(nextIp), None))
  {
    var hw := m.header.chaddr;
    if Own(leases, hw).Some? {
      AddressReplyReads(m, addr, c, leases[hw].ip, Zeros(4), OFFER, BROADCAST);
    } else if hw !in leases {
      AddressReplyReads(m, addr, c, NewAddress(addr, nextIp), Zeros(4), OFFER, BROADCAST);
    }
  }

  /** On an interface with a dotted-quad address, a new client is offered
      the address in the interface's /24 whose last byte is the counter. */
  lemma DiscoverOffersFromCounter(m: Message, a: seq<byte>, c: Config, leases: Leases, nextIp: byte, now: int)
    requires Servable(m, c) && ShortName(c) && |a| == 4 && m.header.chaddr !in leases
    ensures var r := Discover(m, Ntop(a), c, leases, nextIp, now);
            && r.reply.Some?
            && ReadsAs(r.reply.value, m, Ntop(a), OFFER, a[..3] + [nextIp])
            && r.leases[m.header.chaddr].ip == Ntop(a[..3] + [nextIp])
  {
    DiscoverOutcome(m, Ntop(a), c, leases, nextIp, now);
    NewAddressInSubnet(a, nextIp);
  }

  /** REQUEST after an OFFER of this server (mode 1): a record holding the
      requested address is leased at `now` and acknowledged; a client
      without a record, or whose record holds another address, gets a
      fresh record from the counter, leased at `now` and acknowledged; a
      declined client gets no answer, though the counter moves on. The ACK
      is broadcast. */
  lemma RequestAfterOffer(m: Message, addr: string, c: Config, leases: Leases, nextIp: byte, now: int)
    requires Servable(m, c) && ShortName(c) && RequestMode(m, addr) == 1
    ensures var r := Request(m, addr, c, leases, nextIp, now);
            var hw := m.header.chaddr;
            && (Own(leases, hw).Some? && leases[hw].ip == m.requestIp ==>
                  && r.leases == leases[hw := leases[hw].(flag := LEASED, time := now)]
                  && r.nextIp == nextIp && r.reply.Some? && r.reply.value.dest == BROADCAST
                  && ReadsAs(r.reply.value, m, addr, ACK, PtonOrZero(m.requestIp)))
            && (hw !in leases || (Own(leases, hw).Some? && leases[hw].ip != m.requestIp) ==>
                  && r.leases == leases[hw := Lease(m.clientIdent, NewAddress(addr, nextIp), LEASED, now)]
                  && r.nextIp == Bump(nextIp) && r.reply.Some? && r.reply.value.dest == BROADCAST
                  && ReadsAs(r.reply.value, m, addr, ACK, PtonOrZero(NewAddress(addr, nextIp))))
            && (hw in leases && leases[hw].flag == DECLINED ==> r == Outcome(leases, Bump(nextIp), None))
  {
    var hw := m.header.chaddr;
    if Own(leases, hw).Some? && leases[hw].ip == m.requestIp {
      RequestKept(m, addr, c, leases, nextIp, now);
    } else if hw !in leases || Own(leases, hw).Some? {
      RequestFresh(m, addr, c, leases, nextIp, now);
    }
  }

  /** Mode 1 for a client whose usable record holds the requested address. */
  lemma RequestKept(m: Message, addr: string, c: Config, leases: Leases, nextIp: byte, now: int)
    requires Servable(m, c) && ShortName(c) && RequestMode(m, addr) == 1
    requires var hw := m.header.chaddr; Own(leases, hw).Some? && leases[hw].ip == m.requestIp
    ensures var r := Request(m, addr, c, leases, nextIp, now);
            var hw := m.header.chaddr;
            && r.leases == leases[hw := leases[hw].(flag := LEASED, time := now)]
            && r.nextIp == nextIp && r.reply.Some? && r.reply.value.dest == BROADCAST
            && ReadsAs(r.reply.value, m, addr, ACK, PtonOrZero(m.requestIp))
  {
    var hw := m.header.chaddr;
    assert RequestPlace(m, addr, leases, nextIp, now, 1) == Placed(leases, nextIp, Some(leases[hw]));
    AddressReplyReads(m, addr, c, m.requestIp, m.header.ciaddr, ACK, BROADCAST);
  }

  /** Mode 1 for a client without a record for the requested address. */
  lemma RequestFresh(m: Message, addr: string, c: Config, leases: Leases, nextIp: byte, now: int)
    requires Servable(m, c) && ShortName(c) && RequestMode(m, addr) == 1
    requires var hw := m.header.chaddr; hw !in leases || (Own(leases, hw).Some? && leases[hw].ip != m.requestIp)
    ensures var r := Request(m, addr, c, leases, nextIp, now);
            var hw := m.header.chaddr;
            && r.leases == leases[hw := Lease(m.clientIdent, NewAddress(addr, nextIp), LEASED, now)]
            && r.nextIp == Bump(nextIp) && r.reply.Some? && r.reply.value.dest == BROADCAST
            && ReadsAs(r.reply.value, m, addr, ACK, PtonOrZero(NewAddress(addr, nextIp)))
  {
    var hw := m.header.chaddr;
    var ip := NewAddress(addr, nextIp);
    var e := RequestPlace(m, addr, leases, nextIp, now, 1);
    assert e.added == Some(Lease(m.clientIdent, ip, OFFERED, now)) && e.nextIp == Bump(nextIp);
    SameElsewhere(e.leases, leases, hw, Lease(m.clientIdent, ip, LEASED, now));
    AddressReplyReads(m, addr, c, ip, m.header.ciaddr, ACK, BROADCAST);
  }

  /** REQUEST in INIT-REBOOT (mode 2) or while renewing or rebinding
      (mode 3): a client with a usable record has it leased at `now` and
      acknowledged, whatever address it asked for; any other client gets
      no answer and nothing changes. */
  lemma RequestConfirm(m: Message, addr: string, c: Config, leases: Leases, nextIp: byte, now: int)
    requires Servable(m, c) && ShortName(c) && (RequestMode(m, addr) == 2 || RequestMode(m, addr) == 3)
    ensures var r := Request(m, addr, c, leases, nextIp, now);
            var hw := m.header.chaddr;
            && (Own(leases, hw).Some? ==>
                  && r.leases == leases[hw := leases[hw].(flag := LEASED, time := now)]
                  && r.nextIp == nextIp && r.reply.Some?
                  && r.reply.value.dest == RequestDest(m, RequestMode(m, addr))
                  && ReadsAs(r.reply.value, m, addr, ACK, PtonOrZero(leases[hw].ip))
                  && Decode(r.reply.value.bytes).header.ciaddr == m.header.ciaddr)
            && (Own(leases, hw).None? ==> r == Outcome(leases, nextIp, None))
  {
    var hw := m.header.chaddr;
    if Own(leases, hw).Some? {
      AddressReplyReads(m, addr, c, leases[hw].ip, m.header.ciaddr, ACK, RequestDest(m, RequestMode(m, addr)));
    }
  }

  /** The ACK to a REQUEST goes to the client's own address exactly when it
      is renewing or rebinding (mode 3) and did not set the broadcast bit. */
  lemma RequestDestCases(m: Message, mode: nat)
    requires m.header.Valid()
    ensures RequestDest(m, mode) == BROADCAST <==> mode != 3 || BroadcastBit(m.header.flags)
    ensures RequestDest(m, mode) != BROADCAST ==> RequestDest(m, mode) == Ntop(m.header.ciaddr)
  {
    NtopShort(m.header.ciaddr);
    assert |Ntop(m.header.ciaddr)| < |BROADCAST|;
  }

  /** The other types: DECLINE and RELEASE for this server are never
      answered and leave the counter alone; INFORM changes nothing and is
      answered exactly when the client gave its address; anything else is
      ignored. */
  lemma ServeOthers(m: Message, addr: string, c: Config, leases: Leases, nextIp: byte, now: int)
    requires Servable(m, c) && ShortName(c) && m.msgType.Some?
    requires m.msgType.value != DISCOVER && m.msgType.value != REQUEST
    ensures var r := Serve(m, addr, c, leases, nextIp, now);
            var t := m.msgType.value;
            && r.nextIp == nextIp
            && (t == DECLINE && m.serverIdent == addr ==> r.leases == Decline(leases, m.requestIp) && r.reply.None?)
            && (t == RELEASE && m.serverIdent == addr ==> r.leases == Release(leases, m.header.chaddr, now) && r.reply.None?)
            && (t == INFORM ==>
                  && r.leases == leases
                  && (r.reply.Some? <==> m.header.ciaddr != Zeros(4))
                  && (r.reply.Some? ==> && r.reply.value.dest == Ntop(m.header.ciaddr)
                                        && ReadsAs(r.reply.value, m, addr, ACK, Zeros(4))))
            && (t != DECLINE && t != RELEASE && t != INFORM ==> r == Outcome(leases, nextIp, None))
            && ((t == DECLINE || t == RELEASE) && m.serverIdent != addr ==> r == Outcome(leases, nextIp, None))
  {
    if m.msgType.value == INFORM && m.header.ciaddr != Zeros(4) {
      InformReplyReads(m, addr, c);
    }
  }

  // ---------------------------------------------------------------------
  // Whole messages
  // ---------------------------------------------------------------------

  /** How one message may change the table and the counter: the table
      stays well formed, the counter moves by at most one allocation, no
      client is dropped and only the sender `hw` may be added, and another
      client's record changes only when a DECLINE marks it declined. */
  predicate Evolves(leases: Leases, hw: seq<byte>, nextIp: byte, r: Outcome, declining: bool)
  {
    && ValidLeases(r.leases)
    && (r.nextIp == nextIp || r.nextIp == Bump(nextIp))
    && leases.Keys <= r.leases.Keys <= leases.Keys + {hw}
    && forall k :: k in leases && k != hw && r.leases[k] != leases[k] ==>
         declining && r.leases[k] == leases[k].(flag := DECLINED)
  }

  /** A table that is kept, or changed only at `hw` to a record with a
      valid flag, evolves as allowed. */
  lemma UpdateEvolves(leases: Leases, hw: seq<byte>, nextIp: byte, r: Outcome, l: Lease)
    requires ValidLeases(leases) && |hw| == 16 && IsFlag(l.flag)
    requires r.leases == leases || r.leases == leases[hw := l]
    requires r.nextIp == nextIp || r.nextIp == Bump(nextIp)
    ensures Evolves(leases, hw, nextIp, r, false)
  {
  }

  lemma DiscoverEvolves(m: Message, addr: string, c: Config, leases: Leases, nextIp: byte, now: int)
    requires Servable(m, c) && ValidLeases(leases)
    ensures Evolves(leases, m.header.chaddr, nextIp, Discover(m, addr, c, leases, nextIp, now), false)
  {
    var hw := m.header.chaddr;
    var r := Discover(m, addr, c, leases, nextIp, now);
    var l := Lease(m.clientIdent, NewAddress(addr, nextIp), OFFERED, now);
    if Own(leases, hw).None? {
      var e := Emplace(leases, hw, m, addr, nextIp, now);
      assert r.leases == e.leases;
    }
    UpdateEvolves(leases, hw, nextIp, r, l);
  }

  lemma RequestEvolves(m: Message, addr: string, c: Config, leases: Leases, nextIp: byte, now: int)
    requires Servable(m, c) && ValidLeases(leases)
    ensures Evolves(leases, m.header.chaddr, nextIp, Request(m, addr, c, leases, nextIp, now), false)
  {
    var hw := m.header.chaddr;
    var r := Request(m, addr, c, leases, nextIp, now);
    var mode := RequestMode(m, addr);
    if mode == 0 {
      UpdateEvolves(leases, hw, nextIp, r, Lease("", "", LEASED, now));
    } else {
      var e := RequestPlace(m, addr, leases, nextIp, now, mode);
      match e.added
      case None =>
        UpdateEvolves(leases, hw, nextIp, r, Lease("", "", LEASED, now));
      case Some(l) =>
        var leased := l.(flag := LEASED, time := now);
        SameElsewhere(e.leases, leases, hw, leased);
        UpdateEvolves(leases, hw, nextIp, r, leased);
    }
  }

  /** Two tables that agree away from `hw` agree once `hw` is set. */
  lemma SameElsewhere(a: Leases, b: Leases, hw: seq<byte>, l: Lease)
    requires a - {hw} == b - {hw}
    ensures a[hw := l] == b[hw := l]
  {
    forall k | k in a && k != hw ensures k in b && a[k] == b[k] {
      assert k in a - {hw};
      assert a[k] == (a - {hw})[k];
    }
    forall k | k in b && k != hw ensures k in a {
      assert k in b - {hw};
    }
  }

  lemma DeclineEvolves(leases: Leases, hw: seq<byte>, ip: string, nextIp: byte)
    requires ValidLeases(leases)
    ensures Evolves(leases, hw, nextIp, Outcome(Decline(leases, ip), nextIp, None), true)
  {
  }

  lemma ReleaseEvolves(leases: Leases, hw: seq<byte>, nextIp: byte, now: int)
    requires ValidLeases(leases)
    ensures Evolves(leases, hw, nextIp, Outcome(Release(leases, hw, now), nextIp, None), false)
  {
  }

  /** Handling any message keeps the table well formed and changes it and
      the counter only as `Evolves` allows. */
  lemma HandleEvolves(m: Message, socket: Option<SocketEntry>, configs: map<string, Config>,
                      leases: Leases, nextIp: byte, now: int)
    requires m.header.Valid() && ByteConfigs(configs) && (Ethernet(m.header) ==> m.msgType.Some?)
    requires ValidLeases(leases)
    ensures Evolves(leases, m.header.chaddr, nextIp, Handle(m, socket, configs, leases, nextIp, now),
                    m.msgType == Some(DECLINE))
  {
    match Admitted(m, socket, configs)
    case None =>
    case Some(addr) =>
      var c := configs[addr];
      var t := m.msgType.value;
      if t == DISCOVER {
        DiscoverEvolves(m, addr, c, leases, nextIp, now);
      } else if t == REQUEST {
        RequestEvolves(m, addr, c, leases, nextIp, now);
      } else if m.serverIdent == addr && t == DECLINE {
        DeclineEvolves(leases, m.header.chaddr, m.requestIp, nextIp);
      } else if m.serverIdent == addr && t == RELEASE {
        ReleaseEvolves(leases, m.header.chaddr, nextIp, now);
      }
  }

  /** Every reply answers an admitted DISCOVER, REQUEST or INFORM, and reads
      back as an OFFER or an ACK from the receiving interface; an address
      reply hands out the address of the sender's record, which after a
      REQUEST is leased at `now`; an OFFER is broadcast. */
  lemma HandleReplies(m: Message, socket: Option<SocketEntry>, configs: map<string, Config>,
                      leases: Leases, nextIp: byte, now: int)
    requires m.header.Valid() && ShortNames(configs) && (Ethernet(m.header) ==> m.msgType.Some?)
    ensures var r := Handle(m, socket, configs, leases, nextIp, now);
            var hw := m.header.chaddr;
            r.reply.Some? ==>
              && Admitted(m, socket, configs).Some?
              && var addr := Admitted(m, socket, configs).value;
              && var t := m.msgType.value;
              && (t == DISCOVER || t == REQUEST || t == INFORM)
              && (t == INFORM ==> ReadsAs(r.reply.value, m, addr, ACK, Zeros(4)))
              && (t != INFORM ==> hw in r.leases && ReadsAs(r.reply.value, m, addr, if t == DISCOVER then OFFER else ACK, PtonOrZero(r.leases[hw].ip)))
              && (t == DISCOVER ==> r.reply.value.dest == BROADCAST)
              && (t == REQUEST ==> r.leases[hw].flag == LEASED && r.leases[hw].time == now)
  {
    assert ByteConfigs(configs);
    match Admitted(m, socket, configs)
    case None =>
    case Some(addr) =>
      var c := configs[addr];
      var t := m.msgType.value;
      if t == DISCOVER {
        DiscoverOutcome(m, addr, c, leases, nextIp, now);
      } else if t == REQUEST {
        var mode := RequestMode(m, addr);
        if mode == 1 {
          RequestAfterOffer(m, addr, c, leases, nextIp, now);
        } else if mode != 0 {
          RequestConfirm(m, addr, c, leases, nextIp, now);
        }
      } else {
        ServeOthers(m, addr, c, leases, nextIp, now);
      }
  }
}
