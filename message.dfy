/** The DHCP message as the server decodes it (`DhcpProtokol`): the fixed
    BOOTP header of RFC 2131 section 2 with the magic cookie, followed by
    the code/length/value options of RFC 2132. */
module Message {
  import opened Common

  /** Size of the fixed header including the four cookie bytes. */
  const HEADER_SIZE: nat := 240

  // Option codes the decoder reads (RFC 2132).
  const PAD: byte := 0
  const HOST_NAME: byte := 12
  const REQUESTED_IP: byte := 50
  const MESSAGE_TYPE: byte := 53
  const SERVER_IDENT: byte := 54
  const PARAMETER_LIST: byte := 55
  const CLASS_IDENT: byte := 60
  const CLIENT_IDENT: byte := 61
  const END: byte := 255

  /** `DHCPHEADER`, each multi-byte field kept as its wire bytes. */
  datatype Header = Header(
    op: byte, htype: byte, hlen: byte, hops: byte,
    xid: seq<byte>, secs: seq<byte>, flags: seq<byte>,
    ciaddr: seq<byte>, yiaddr: seq<byte>, siaddr: seq<byte>, giaddr: seq<byte>,
    chaddr: seq<byte>, sname: seq<byte>, file: seq<byte>, cookie: seq<byte>)
  {
    /** Every field has its width in the wire layout. */
    predicate Valid()
    {
      |xid| == 4 && |secs| == 2 && |flags| == 2
      && |ciaddr| == 4 && |yiaddr| == 4 && |siaddr| == 4 && |giaddr| == 4
      && |chaddr| == 16 && |sname| == 64 && |file| == 128 && |cookie| == 4
    }
  }

  /** The `copy` of the first 240 bytes into the header structure. */
  function ParseHeader(b: seq<byte>): (h: Header)
    requires |b| >= HEADER_SIZE
    ensures h.Valid()
  {
    Header(b[0], b[1], b[2], b[3], b[4..8], b[8..10], b[10..12],
      b[12..16], b[16..20], b[20..24], b[24..28],
      b[28..44], b[44..108], b[108..236], b[236..240])
  }

  /** The header laid out in wire order. */
  function HeaderBytes(h: Header): (b: seq<byte>)
    requires h.Valid()
    ensures |b| == HEADER_SIZE
  {
    [h.op, h.htype, h.hlen, h.hops] + h.xid + h.secs + h.flags
    + h.ciaddr + h.yiaddr + h.siaddr + h.giaddr
    + h.chaddr + h.sname + h.file + h.cookie
  }

  /** Reading a laid-out header gives the header back, whatever follows it. */
  lemma ParseHeaderBytes(h: Header, rest: seq<byte>)
    requires h.Valid()
    ensures ParseHeader(HeaderBytes(h) + rest) == h
  {
    var b := HeaderBytes(h) + rest;
    assert b[4..8] == h.xid;
    assert b[8..10] == h.secs;
    assert b[10..12] == h.flags;
    assert b[12..16] == h.ciaddr;
    assert b[16..20] == h.yiaddr;
    assert b[20..24] == h.siaddr;
    assert b[24..28] == h.giaddr;
    assert b[28..44] == h.chaddr;
    assert b[44..108] == h.sname;
    assert b[108..236] == h.file;
    assert b[236..240] == h.cookie;
  }

  /** Laying out a read header gives the 240 bytes it was read from. */
  lemma HeaderBytesParse(b: seq<byte>)
    requires |b| >= HEADER_SIZE
    ensures HeaderBytes(ParseHeader(b)) == b[..HEADER_SIZE]
  {
    var h := ParseHeader(b);
    assert b[..HEADER_SIZE] == [b[0], b[1], b[2], b[3]] + b[4..8] + b[8..10] + b[10..12]
      + b[12..16] + b[16..20] + b[20..24] + b[24..28]
      + b[28..44] + b[44..108] + b[108..236] + b[236..240];
  }

  /** The decoded message (`DhcpProtokol`'s members). The message type is
      None when no option 53 was seen: the source leaves that member
      uninitialised then. */
  datatype Message = Message(
    header: Header,
    msgType: Option<byte>,
    hostName: string,
    optionRequest: seq<byte>,
    classIdent: string,
    clientIdent: string,
    requestIp: string,
    serverIdent: string)

  /** The message before any option has been read. */
  function Blank(h: Header): Message
  {
    Message(h, None, "", [], "", "", "", "")
  }

  // ---------------------------------------------------------------------
  // One option
  // ---------------------------------------------------------------------

  /** How many bytes from the start of the value the decoder reads for an
      option: the value itself, and for 50/54 the four address bytes and
      for 53 the first byte, whatever the length byte says. */
  function ReadWidth(code: byte, len: byte): nat
  {
    if (code == REQUESTED_IP || code == SERVER_IDENT) && len < 4 then 4
    else if code == MESSAGE_TYPE && len < 1 then 1
    else len
  }

  /** The effect of one option on the message; `data` holds the bytes from
      the start of the value on. Codes other than 12, 50, 53, 54, 55, 60
      and 61 (43 and 81 among them) change nothing. */
  function ApplyOption(m: Message, code: byte, len: byte, data: seq<byte>): Message
    requires |data| >= ReadWidth(code, len)
  {
    if code == HOST_NAME then m.(hostName := Chars(data[..len]))
    else if code == REQUESTED_IP then m.(requestIp := Ntop(data[..4]))
    else if code == MESSAGE_TYPE then m.(msgType := Some(data[0]))
    else if code == SERVER_IDENT then m.(serverIdent := Ntop(data[..4]))
    else if code == PARAMETER_LIST then m.(optionRequest := data[..len])
    else if code == CLASS_IDENT then m.(classIdent := Chars(data[..len]))
    else if code == CLIENT_IDENT then m.(clientIdent := Chars(data[..len]))
    else m
  }

  /** An option only depends on the bytes the decoder reads of it. */
  lemma ApplyOptionPrefix(m: Message, code: byte, len: byte, data: seq<byte>, k: nat)
    requires ReadWidth(code, len) <= k <= |data|
    ensures ApplyOption(m, code, len, data) == ApplyOption(m, code, len, data[..k])
  {
    assert data[..k][..len] == data[..len] by {
      if len <= k { }
    }
    assert (code == REQUESTED_IP || code == SERVER_IDENT) ==> data[..k][..4] == data[..4];
  }

  // ---------------------------------------------------------------------
  // The option walk
  // ---------------------------------------------------------------------

  /** The byte at `i` of the receive buffer. That buffer is one byte longer
      than the datagram and zero-filled, so the byte just past the datagram
      reads as 0. */
  function At(buf: seq<byte>, i: nat): (r: byte)
    ensures i < |buf| ==> r == buf[i]
  {
    if i < |buf| then buf[i] else 0
  }

  /** The option (not a pad) at the start of `s`, the rest of the datagram,
      and what the decoder reads of its value lie inside the datagram. */
  predicate OptionFits(s: seq<byte>)
  {
    2 <= |s| && 2 + ReadWidth(s[0], s[1]) <= |s| && 2 + s[1] <= |s|
  }

  /** The walk of the decoder over the rest `s` of the datagram never reads
      outside the receive buffer: every option it visits fits. */
  predicate WalkInBounds(s: seq<byte>)
    decreases |s|
  {
    if s == [] || s[0] == END then true
    else if s[0] == PAD then WalkInBounds(s[1..])
    else OptionFits(s) && WalkInBounds(s[2 + s[1]..])
  }

  /** The message after the options in `s` have been applied to `m`: a pad
      takes one byte, any other option two bytes plus its length, and the
      walk ends at code 255 or at the end of the datagram. An option that
      does not fit also ends it here; `WalkInBounds` rules that case out
      for the datagrams the decoder is given. */
  function OptionsOf(s: seq<byte>, m: Message): Message
    decreases |s|
  {
    if s == [] || s[0] == END then m
    else if s[0] == PAD then OptionsOf(s[1..], m)
    else if !OptionFits(s) then m
    else OptionsOf(s[2 + s[1]..], ApplyOption(m, s[0], s[1], s[2..]))
  }

  /** A datagram the decoder can read without running past its buffer:
      the full header is present and the option walk stays inside. */
  predicate Decodable(buf: seq<byte>)
  {
    |buf| >= HEADER_SIZE && WalkInBounds(buf[HEADER_SIZE..])
  }

  /** The decoded datagram. */
  function Decode(buf: seq<byte>): (m: Message)
    requires Decodable(buf)
    ensures m.header == ParseHeader(buf) && m.header.Valid()
  {
    WalkKeepsHeader(buf[HEADER_SIZE..], Blank(ParseHeader(buf)));
    OptionsOf(buf[HEADER_SIZE..], Blank(ParseHeader(buf)))
  }

  /** A pad at offset `p` takes one byte. */
  lemma WalkPad(buf: seq<byte>, p: nat, q: nat, m: Message)
    requires p < |buf| && buf[p] == PAD && WalkInBounds(buf[p..]) && q == p + 1
    ensures WalkInBounds(buf[q..]) && OptionsOf(buf[p..], m) == OptionsOf(buf[q..], m)
  {
    assert buf[p..][0] == buf[p];
    assert buf[p..][1..] == buf[q..];
  }

  /** Any other option at offset `p` fits: its length byte, the bytes the
      decoder reads of its value and the value itself lie in the datagram. */
  lemma OptionAtFits(buf: seq<byte>, p: nat)
    requires p < |buf| && buf[p] != PAD && buf[p] != END && WalkInBounds(buf[p..])
    ensures p + 2 <= |buf| && p + 2 + ReadWidth(buf[p], buf[p + 1]) <= |buf|
    ensures p + 2 + buf[p + 1] <= |buf|
  {
    var s := buf[p..];
    assert s[0] == buf[p] && s[1] == buf[p + 1];
  }

  /** Such an option takes two bytes plus its length, and the walk goes on
      with the message it produced. */
  lemma WalkOption(buf: seq<byte>, p: nat, q: nat, m: Message, m': Message)
    requires p < |buf| && buf[p] != PAD && buf[p] != END && WalkInBounds(buf[p..])
    requires p + 2 + ReadWidth(buf[p], buf[p + 1]) <= |buf| && q == p + 2 + buf[p + 1] <= |buf|
    requires m' == ApplyOption(m, buf[p], buf[p + 1], buf[p + 2..])
    ensures WalkInBounds(buf[q..]) && OptionsOf(buf[p..], m) == OptionsOf(buf[q..], m')
  {
    var s := buf[p..];
    assert s[0] == buf[p] && s[1] == buf[p + 1];
    assert s[2..] == buf[p + 2..];
    assert s[2 + s[1]..] == buf[q..];
  }

  /** The walk ends at code 255 and at the end of the datagram. */
  lemma WalkEnd(buf: seq<byte>, p: nat, m: Message)
    requires p <= |buf| && (p == |buf| || buf[p] == END)
    ensures OptionsOf(buf[p..], m) == m
  {
    if p < |buf| {
      assert buf[p..][0] == buf[p];
    }
  }

  /** `DhcpProtokol(szBuffer, nBytInBuf)`: copy the header, then walk the
      options with a pointer, storing the ones the server uses. */
  method DecodeDatagram(buf: seq<byte>) returns (m: Message)
    requires Decodable(buf)
    ensures m == Decode(buf)
  {
    m := Blank(ParseHeader(buf));
    var p: nat := HEADER_SIZE;
    while At(buf, p) != END && p < |buf|
      invariant p <= |buf| && WalkInBounds(buf[p..])
      invariant OptionsOf(buf[p..], m) == Decode(buf)
      decreases |buf| - p
    {
      ghost var p0, m0 := p, m;
      var code := buf[p];
      var len := At(buf, p + 1);
      p := p + 2;
      if code == PAD {
        p := p - 1;
        WalkPad(buf, p0, p, m0);
      } else {
        OptionAtFits(buf, p0);
        m := StoreOption(m, code, len, buf, p);
        p := p + len;
        WalkOption(buf, p0, p, m0, m);
      }
    }
    WalkEnd(buf, p, m);
  }

  /** The `switch` on the option code: store the value the cursor points
      at in the member the code names. */
  method StoreOption(m: Message, code: byte, len: byte, buf: seq<byte>, p: nat) returns (r: Message)
    requires p <= |buf| && ReadWidth(code, len) <= |buf| - p
    ensures r == ApplyOption(m, code, len, buf[p..])
  {
    ghost var data := buf[p..];
    r := m;
    if code == HOST_NAME {
      r := r.(hostName := Chars(buf[p..p + len]));
      assert data[..len] == buf[p..p + len];
    } else if code == REQUESTED_IP {
      r := r.(requestIp := Ntop(buf[p..p + 4]));
      assert data[..4] == buf[p..p + 4];
    } else if code == MESSAGE_TYPE {
      r := r.(msgType := Some(buf[p]));
      assert data[0] == buf[p];
    } else if code == SERVER_IDENT {
      r := r.(serverIdent := Ntop(buf[p..p + 4]));
      assert data[..4] == buf[p..p + 4];
    } else if code == PARAMETER_LIST {
      r := r.(optionRequest := buf[p..p + len]);
      assert data[..len] == buf[p..p + len];
    } else if code == CLASS_IDENT {
      r := r.(classIdent := Chars(buf[p..p + len]));
      assert data[..len] == buf[p..p + len];
    } else if code == CLIENT_IDENT {
      r := r.(clientIdent := Chars(buf[p..p + len]));
      assert data[..len] == buf[p..p + len];
    }
  }

  // ---------------------------------------------------------------------
  // Options as a client writes them
  // ---------------------------------------------------------------------

  /** An option of a request: a pad byte, or a code with its value. */
  datatype Opt = Pad | Opt(code: byte, value: seq<byte>)

  /** An option that can be written: the code is neither pad nor end, the
      length fits its byte, and the value is as long as the decoder reads. */
  predicate WellFormed(o: Opt)
  {
    o.Pad? || (o.code != PAD && o.code != END && |o.value| < 256
               && ReadWidth(o.code, |o.value|) <= |o.value|)
  }

  predicate AllWellFormed(opts: seq<Opt>)
  {
    forall i :: 0 <= i < |opts| ==> WellFormed(opts[i])
  }

  function EncodeOpt(o: Opt): (b: seq<byte>)
    requires WellFormed(o)
  {
    if o.Pad? then [PAD] else [o.code, |o.value| as byte] + o.value
  }

  /** The options written one after the other. */
  function EncodeOptions(opts: seq<Opt>): seq<byte>
    requires AllWellFormed(opts)
    decreases |opts|
  {
    if opts == [] then [] else EncodeOpt(opts[0]) + EncodeOptions(opts[1..])
  }

  /** The effect of one written option on the message. */
  function ApplyOpt(m: Message, o: Opt): Message
    requires WellFormed(o)
  {
    if o.Pad? then m else ApplyOption(m, o.code, |o.value|, o.value)
  }

  /** The options applied in order. */
  function ApplyAll(m: Message, opts: seq<Opt>): Message
    requires AllWellFormed(opts)
    decreases |opts|
  {
    if opts == [] then m else ApplyAll(ApplyOpt(m, opts[0]), opts[1..])
  }

  /** The walk reads a written option (a pad included) as that option and
      continues right after it. */
  lemma WalkFirst(o: Opt, tail: seq<byte>, m: Message)
    requires WellFormed(o)
    ensures WalkInBounds(tail) ==> WalkInBounds(EncodeOpt(o) + tail)
    ensures OptionsOf(EncodeOpt(o) + tail, m) == OptionsOf(tail, ApplyOpt(m, o))
  {
    var s := EncodeOpt(o) + tail;
    if o.Pad? {
      assert s[1..] == tail;
    } else {
      var len := |o.value|;
      assert s[0] == o.code && s[1] == len;
      assert s[2 + len..] == tail;
      assert s[2..][..len] == o.value;
      ApplyOptionPrefix(m, o.code, len as byte, s[2..], len);
    }
  }

  /** The walk over written options, closed by code 255, stays in bounds
      and applies exactly those options in order, whatever follows. */
  lemma {:induction false} WalkOverEncoded(opts: seq<Opt>, tail: seq<byte>, m: Message)
    requires AllWellFormed(opts)
    ensures WalkInBounds(EncodeOptions(opts) + [END] + tail)
    ensures OptionsOf(EncodeOptions(opts) + [END] + tail, m) == ApplyAll(m, opts)
    decreases |opts|
  {
    if opts == [] {
      assert (EncodeOptions(opts) + [END] + tail)[0] == END;
    } else {
      var o := opts[0];
      var after := EncodeOptions(opts[1..]) + [END] + tail;
      EncodedFirst(opts, tail);
      WalkOverEncoded(opts[1..], tail, ApplyOpt(m, o));
      WalkFirst(o, after, m);
      ApplyAllFirst(m, opts);
    }
  }

  lemma EncodedFirst(opts: seq<Opt>, tail: seq<byte>)
    requires AllWellFormed(opts) && opts != []
    ensures AllWellFormed(opts[1..])
    ensures EncodeOptions(opts) + [END] + tail == EncodeOpt(opts[0]) + (EncodeOptions(opts[1..]) + [END] + tail)
  {
    assert AllWellFormed(opts[1..]);
    assert EncodeOptions(opts) == EncodeOpt(opts[0]) + EncodeOptions(opts[1..]);
    Regroup(EncodeOpt(opts[0]), EncodeOptions(opts[1..]), [END], tail);
  }

  lemma Regroup(a: seq<byte>, b: seq<byte>, c: seq<byte>, d: seq<byte>)
    ensures (a + b) + c + d == a + (b + c + d)
  {
  }

  lemma ApplyAllFirst(m: Message, opts: seq<Opt>)
    requires AllWellFormed(opts) && opts != []
    ensures ApplyAll(m, opts) == ApplyAll(ApplyOpt(m, opts[0]), opts[1..])
  {
  }

  /** A request laid out as header, options, end code and anything after
      decodes to its header with the options applied in order. */
  lemma DecodeEncoded(h: Header, opts: seq<Opt>, rest: seq<byte>)
    requires h.Valid() && AllWellFormed(opts)
    ensures var buf := HeaderBytes(h) + EncodeOptions(opts) + [END] + rest;
            Decodable(buf) && Decode(buf) == ApplyAll(Blank(h), opts)
  {
    var e := EncodeOptions(opts) + [END] + rest;
    var buf := HeaderBytes(h) + EncodeOptions(opts) + [END] + rest;
    assert buf == HeaderBytes(h) + e;
    ParseHeaderBytes(h, e);
    assert buf[HEADER_SIZE..] == e;
    WalkOverEncoded(opts, rest, Blank(h));
  }

  // ---------------------------------------------------------------------
  // What an option stores
  // ---------------------------------------------------------------------

  /** The member an option code sets, with its current value. */
  datatype Field = TypeField(t: Option<byte>) | TextField(s: string) | ListField(b: seq<byte>) | NoField

  function FieldOf(m: Message, code: byte): Field
  {
    if code == HOST_NAME then TextField(m.hostName)
    else if code == REQUESTED_IP then TextField(m.requestIp)
    else if code == MESSAGE_TYPE then TypeField(m.msgType)
    else if code == SERVER_IDENT then TextField(m.serverIdent)
    else if code == PARAMETER_LIST then ListField(m.optionRequest)
    else if code == CLASS_IDENT then TextField(m.classIdent)
    else if code == CLIENT_IDENT then TextField(m.clientIdent)
    else NoField
  }

  /** What one option with this value leaves in its member: the raw bytes
      as text for 12, 60 and 61; the dotted quad of the first four bytes
      for 50 and 54; the first byte for 53; the bytes themselves for 55. */
  function Stored(code: byte, value: seq<byte>): Field
    requires |value| < 256 && ReadWidth(code, |value|) <= |value|
  {
    if code == HOST_NAME || code == CLASS_IDENT || code == CLIENT_IDENT then TextField(Chars(value))
    else if code == REQUESTED_IP || code == SERVER_IDENT then TextField(Ntop(value[..4]))
    else if code == MESSAGE_TYPE then TypeField(Some(value[0]))
    else if code == PARAMETER_LIST then ListField(value)
    else NoField
  }

  /** The value of the last option in the list with the given code. */
  function LastValueOf(opts: seq<Opt>, code: byte): (r: Option<seq<byte>>)
    ensures r.Some? ==> exists i :: 0 <= i < |opts| && opts[i] == Opt(code, r.value)
  {
    if opts == [] then None
    else match LastValueOf(opts[1..], code)
      case Some(v) =>
        var i :| 0 <= i < |opts[1..]| && opts[1..][i] == Opt(code, v);
        assert opts[i + 1] == Opt(code, v);
        Some(v)
      case None => if opts[0].Opt? && opts[0].code == code then Some(opts[0].value) else None
  }

  /** One option sets its own member to what it stores and leaves every
      other member as it was. */
  lemma OptionSetsOneField(m: Message, o: Opt, code: byte)
    requires WellFormed(o) && o.Opt?
    ensures FieldOf(ApplyOpt(m, o), code) ==
      if code == o.code then Stored(code, o.value) else FieldOf(m, code)
  {
    assert o.value[..|o.value|] == o.value;
  }

  /** A repeated option overwrites the earlier one: after the options are
      applied, each member holds what the last option with its code stores,
      or its earlier value when no option has that code. */
  lemma {:induction false} LastOptionWins(m: Message, opts: seq<Opt>, code: byte)
    requires AllWellFormed(opts)
    ensures var last := LastValueOf(opts, code);
            FieldOf(ApplyAll(m, opts), code) ==
              if last.Some? then Stored(code, last.value) else FieldOf(m, code)
    decreases |opts|
  {
    if opts != [] {
      var o := opts[0];
      assert AllWellFormed(opts[1..]);
      LastOptionWins(ApplyOpt(m, o), opts[1..], code);
      if o.Opt? {
        OptionSetsOneField(m, o, code);
      }
    }
  }

  /** Options with a code the decoder does not store (43 and 81 among
      them) and pads leave the message as it was. */
  lemma {:induction false} UnhandledOptionsIgnored(m: Message, opts: seq<Opt>)
    requires AllWellFormed(opts)
    requires forall i :: 0 <= i < |opts| ==> opts[i].Pad? || FieldOf(m, opts[i].code) == NoField
    ensures ApplyAll(m, opts) == m
    decreases |opts|
  {
    if opts != [] {
      assert ApplyOpt(m, opts[0]) == m;
      UnhandledOptionsIgnored(m, opts[1..]);
    }
  }

  /** Decoding a written request: each member the decoder fills holds what
      the last option with its code stores, and the header is the one
      written. */
  lemma DecodedFields(h: Header, opts: seq<Opt>, rest: seq<byte>, code: byte)
    requires h.Valid() && AllWellFormed(opts)
    ensures var buf := HeaderBytes(h) + EncodeOptions(opts) + [END] + rest;
            var last := LastValueOf(opts, code);
            Decodable(buf) && Decode(buf).header == h
            && FieldOf(Decode(buf), code) ==
                 if last.Some? then Stored(code, last.value) else FieldOf(Blank(h), code)
  {
    DecodeEncoded(h, opts, rest);
    LastOptionWins(Blank(h), opts, code);
    HeaderUnchanged(Blank(h), opts);
  }

  lemma {:induction false} HeaderUnchanged(m: Message, opts: seq<Opt>)
    requires AllWellFormed(opts)
    ensures ApplyAll(m, opts).header == m.header
    decreases |opts|
  {
    if opts != [] {
      HeaderUnchanged(ApplyOpt(m, opts[0]), opts[1..]);
    }
  }

  /** The option walk leaves the header as it is. */
  lemma {:induction false} WalkKeepsHeader(s: seq<byte>, m: Message)
    ensures OptionsOf(s, m).header == m.header
    decreases |s|
  {
    if s == [] || s[0] == END {
    } else if s[0] == PAD {
      WalkKeepsHeader(s[1..], m);
    } else if OptionFits(s) {
      WalkKeepsHeader(s[2 + s[1]..], ApplyOption(m, s[0], s[1], s[2..]));
    }
  }

}
