/** The lease snapshot `DhcpServ.ini`: the text the server writes when it
    shuts down, one line per lease record in key order, and the loader that
    reads such a text back into the lease table when it starts. */
module LeaseFile {
  import opened Common
  import opened ServerConfig
  import opened Engine

  /** The header line, without its final line feed: a comment naming the
      columns, spelled here in four runs. */
  const HEADER_TEXT: string := "#" + HEADER_HW + HEADER_IDENT + HEADER_IP + HEADER_REST
  const HEADER_HW: string := " HW Addr , "
  const HEADER_IDENT: string := "\"Client IDent\", "
  const HEADER_IP: string := "Ip Address, "
  const HEADER_REST: string := "Flag, Time\r"

  /** The characters a line is cut at: comments and line ends. */
  const STOPS: set<char> := {'#', ';', '\r', '\n'}

  /** The characters trimmed off each field: quotes, blanks and tabs. */
  const TRIM: set<char> := {'"', ' ', '\t'}

  // ---------------------------------------------------------------------
  // Writing
  // ---------------------------------------------------------------------

  /** A `char` read as the signed integer `to_string` prints. */
  function SignedChar(c: char): (v: int)
    requires c as int < 256
    ensures -128 <= v < 128 && v % 256 == c as int
  {
    if c as int < 128 then c as int else c as int - 256
  }

  /** The client identifier as written: its first character as a signed
      number (the terminating NUL, 0, for an empty identifier), then '='
      and the remaining bytes as hex pairs separated by ':'. */
  function ClientIdText(id: string): string
    requires IsByteString(id)
  {
    var first := if |id| == 0 then 0 else SignedChar(id[0]);
    SignedDecimal(first) + (if |id| <= 1 then "" else "=" + HwText(Bytes(id[1..])))
  }

  /** Five fields as written, each but the first after the blank that
      follows the preceding comma, the second in quotes. */
  function Padded(hw: string, ci: string, ip: string, fl: string, tm: string): (r: seq<string>)
    ensures |r| == 5
  {
    [hw, " \"" + ci + "\"", " " + ip, " " + fl, " " + tm]
  }

  /** The fields of a record as written: the first six key bytes in hex,
      the client identifier, the address, the flag and the time in
      seconds. */
  function RecordParts(k: seq<byte>, l: Lease): (r: seq<string>)
    requires |k| >= 6 && IsByteString(l.clientId)
    ensures |r| == 5
  {
    Padded(HwText(k[..6]), ClientIdText(l.clientId), l.ip, Decimal(l.flag), SignedDecimal(l.time))
  }

  /** One record: its fields separated by commas. */
  function RecordText(k: seq<byte>, l: Lease): string
    requires |k| >= 6 && IsByteString(l.clientId)
  {
    Join(RecordParts(k, l), ',')
  }

  /** One record line, ended by CR LF. */
  function RecordLine(k: seq<byte>, l: Lease): string
    requires |k| >= 6 && IsByteString(l.clientId)
  {
    RecordText(k, l) + "\r\n"
  }

  /** A table the writer can write: full keys and byte-string identifiers. */
  predicate Writable(leases: Leases)
  {
    forall k :: k in leases ==> |k| == 16 && IsByteString(leases[k].clientId)
  }

  /** The keys in ascending order, as a `std::map` of byte arrays iterates. */
  ghost function SortedKeys(keys: set<seq<byte>>): (r: seq<seq<byte>>)
    ensures |r| == |keys|
    ensures forall i :: 0 <= i < |r| ==> r[i] in keys
    decreases |keys|
  {
    if keys == {} then []
    else
      LeastExists(keys);
      var k :| IsLeast(k, keys);
      [k] + SortedKeys(keys - {k})
  }

  /** The first sorted key is the least, the rest are the others sorted. */
  lemma SortedKeysCons(keys: set<seq<byte>>)
    requires keys != {}
    ensures var r := SortedKeys(keys);
            IsLeast(r[0], keys) && r == [r[0]] + SortedKeys(keys - {r[0]})
  {
  }

  /** The sorted keys hold every key. */
  lemma {:induction false} SortedKeysCover(keys: set<seq<byte>>)
    ensures forall k :: k in keys ==> k in SortedKeys(keys)
    decreases |keys|
  {
    if keys != {} {
      var r := SortedKeys(keys);
      SortedKeysCons(keys);
      SortedKeysCover(keys - {r[0]});
    }
  }

  /** The sorted keys are distinct and ascending. */
  lemma {:induction false} SortedKeysAscending(keys: set<seq<byte>>)
    ensures var r := SortedKeys(keys);
            forall i, j :: 0 <= i < j < |r| ==> r[i] != r[j] && LexLe(r[i], r[j])
    decreases |keys|
  {
    if keys != {} {
      var r := SortedKeys(keys);
      var k := r[0];
      SortedKeysCons(keys);
      var rest := SortedKeys(keys - {k});
      SortedKeysAscending(keys - {k});
      forall j | 0 < j < |r| ensures r[0] != r[j] && LexLe(r[0], r[j]) {
        assert r[j] == rest[j - 1] && rest[j - 1] in keys - {k};
      }
    }
  }

  /** The sorted keys hold each key once, in ascending order. */
  lemma SortedKeysOrdered(keys: set<seq<byte>>)
    ensures var r := SortedKeys(keys);
            && (forall k :: k in keys ==> k in r)
            && (forall i, j :: 0 <= i < j < |r| ==> r[i] != r[j] && LexLe(r[i], r[j]))
  {
    SortedKeysCover(keys);
    SortedKeysAscending(keys);
  }

  /** The record lines for the keys `ks`, in that order. */
  function RecordLines(leases: Leases, ks: seq<seq<byte>>): (r: seq<string>)
    requires Writable(leases) && forall i :: 0 <= i < |ks| ==> ks[i] in leases
    ensures |r| == |ks|
    decreases |ks|
  {
    if ks == [] then [] else [RecordLine(ks[0], leases[ks[0]])] + RecordLines(leases, ks[1..])
  }

  /** The line at position `i` is the line of the `i`-th key. */
  lemma {:induction false} RecordLineAt(leases: Leases, ks: seq<seq<byte>>, i: nat)
    requires Writable(leases) && forall j :: 0 <= j < |ks| ==> ks[j] in leases
    requires i < |ks|
    ensures RecordLines(leases, ks)[i] == RecordLine(ks[i], leases[ks[i]])
    decreases i
  {
    if i > 0 {
      RecordLineAt(leases, ks[1..], i - 1);
    }
  }

  /** The lines of the snapshot: the header, then one line per record in
      key order. */
  ghost function Snapshot(leases: Leases): seq<string>
    requires Writable(leases)
  {
    [HEADER_TEXT + "\n"] + RecordLines(leases, SortedKeys(leases.Keys))
  }

  /** The file text: the lines one after another. */
  function Concat(lines: seq<string>): string
  {
    if lines == [] then "" else lines[0] + Concat(lines[1..])
  }

  // ---------------------------------------------------------------------
  // Reading
  // ---------------------------------------------------------------------

  /** A field trimmed of quotes, blanks and tabs, right first. */
  function Trim(s: string): string
  {
    TrimLeft(TrimRight(s, TRIM), TRIM)
  }

  /** The fields of a line: nothing when the line is empty once cut at the
      first comment or line-end character, otherwise the comma-separated
      parts, each trimmed. */
  function Fields(line: string): (r: seq<string>)
  {
    var cut := CutAt(line, STOPS);
    if cut == "" then []
    else
      var t := Tokens(cut, ',');
      seq(|t|, i requires 0 <= i < |t| => Trim(t[i]))
  }

  /** The chunks the hex loop reads: a ':' is skipped, any other position
      starts a chunk of up to two characters. */
  function Chunks(s: string): (r: seq<string>)
    ensures forall i :: 0 <= i < |r| ==> 1 <= |r[i]| <= 2
    decreases |s|
  {
    if |s| == 0 then []
    else if s[0] == ':' then Chunks(s[1..])
    else
      var n := if |s| < 2 then |s| else 2;
      [s[..n]] + Chunks(s[n..])
  }

  predicate AllHexChunks(cs: seq<string>)
  {
    forall i :: 0 <= i < |cs| ==> IsHexChunk(cs[i])
  }

  function ChunkValues(cs: seq<string>): (r: seq<byte>)
    requires AllHexChunks(cs)
    ensures |r| == |cs|
    ensures forall i :: 0 <= i < |cs| ==> r[i] == HexChunkValue(cs[i])
  {
    seq(|cs|, i requires 0 <= i < |cs| => HexChunkValue(cs[i]))
  }

  /** What the hardware-address loop needs: its 8-bit position counter
      reaches the end without wrapping (a piece starting at position 254
      would carry it past 255 back to 0), every chunk starts with a hex
      digit, and at most 16 bytes are stored. */
  predicate HwFieldOk(s: string)
  {
    |s| < 255 && AllHexChunks(Chunks(s)) && |Chunks(s)| <= 16
  }

  /** The 16-byte key: the bytes read, then the zeros the array started
      with. */
  function HwKey(s: string): (k: seq<byte>)
    requires HwFieldOk(s)
    ensures |k| == 16
  {
    ChunkValues(Chunks(s)) + Zeros(16 - |Chunks(s)|)
  }

  /** `find`: the first position of `c`. */
  function IndexOf(s: string, c: char): (r: Option<nat>)
    ensures r.Some? ==> r.value < |s| && s[r.value] == c && c !in s[..r.value]
    ensures r.None? ==> c !in s
    decreases |s|
  {
    if |s| == 0 then None
    else if s[0] == c then Some(0)
    else
      match IndexOf(s[1..], c)
      case None => None
      case Some(i) =>
        assert s[..i + 1] == [s[0]] + s[1..][..i];
        Some(i + 1)
  }

  /** What the client-identifier rewrite needs: a number `stoi` reads
      before the first '=', and chunks starting with hex digits after it. */
  predicate ClientIdOk(f: string)
  {
    match IndexOf(f, '=')
    case None => true
    case Some(p) => IsIntText(f[..p]) && AllHexChunks(Chunks(f[p + 1..]))
  }

  /** The client identifier read back: without '=' the field itself;
      otherwise the number before '=' as the first character (cut to 8
      bits) followed by the hex bytes after it. */
  function ClientId(f: string): string
    requires ClientIdOk(f)
  {
    match IndexOf(f, '=')
    case None => f
    case Some(p) => [(SignedValue(f[..p]) % 256) as char] + Chars(ChunkValues(Chunks(f[p + 1..])))
  }

  /** A flag `stoul` reads and that fits the 32-bit flag type. */
  predicate FlagOk(f: string)
  {
    IsNumeral(f) && DigitsValue(f) < 0x1_0000_0000
  }

  /** What the loader needs of a line: a line of five fields has fields
      the number conversions accept. */
  predicate LineOk(line: string)
  {
    var fs := Fields(line);
    |fs| == 5 ==> HwFieldOk(fs[0]) && ClientIdOk(fs[1]) && FlagOk(fs[3]) && IsIntText(fs[4])
  }

  datatype Record = Record(key: seq<byte>, lease: Lease)

  /** The record a line holds: lines without exactly five fields hold none. */
  function ParseLine(line: string): (r: Option<Record>)
    requires LineOk(line)
    ensures r.Some? ==> |r.value.key| == 16
    ensures r.Some? <==> |Fields(line)| == 5
  {
    var fs := Fields(line);
    if |fs| != 5 then None
    else Some(Record(HwKey(fs[0]), Lease(ClientId(fs[1]), fs[2], DigitsValue(fs[3]), SignedValue(fs[4]))))
  }

  predicate LinesOk(lines: seq<string>)
  {
    forall i :: 0 <= i < |lines| ==> LineOk(lines[i])
  }

  /** `emplace` of a record, if any: the first record for a key stays. */
  function Emplace(table: Leases, rec: Option<Record>): (r: Leases)
    ensures table.Keys <= r.Keys
    ensures forall k :: k in table ==> r[k] == table[k]
  {
    match rec
    case None => table
    case Some(rec) => if rec.key in table then table else table[rec.key := rec.lease]
  }

  /** The table after `emplace` of each record in turn. */
  function LoadRecords(table: Leases, recs: seq<Option<Record>>): Leases
    decreases |recs|
  {
    if recs == [] then table else LoadRecords(Emplace(table, recs[0]), recs[1..])
  }

  /** The records the lines hold, line by line. */
  function Parsed(lines: seq<string>): (r: seq<Option<Record>>)
    requires LinesOk(lines)
    ensures |r| == |lines|
  {
    seq(|lines|, i requires 0 <= i < |lines| => ParseLine(lines[i]))
  }

  /** The table after loading `lines` into `table`: each line's record,
      if any, is placed in turn. */
  function Load(table: Leases, lines: seq<string>): (r: Leases)
    requires LinesOk(lines)
  {
    LoadRecords(table, Parsed(lines))
  }

  /** The lines `getline` reads from a text: the pieces between line feeds
      (the last one empty when the text ends with a line feed). */
  function TextLines(text: string): seq<string>
  {
    Pieces(text, '\n')
  }

  // ---------------------------------------------------------------------
  // What the loader drops and keeps
  // ---------------------------------------------------------------------

  /** The header line is a comment: it holds no record. */
  lemma HeaderSkipped()
    ensures LineOk(HEADER_TEXT) && ParseLine(HEADER_TEXT) == None
  {
    assert HEADER_TEXT[0] == '#';
    assert CutAt(HEADER_TEXT, STOPS) == "";
  }

  /** Placing records never replaces one already in the table. */
  lemma {:induction false} RecordsKeepFirst(table: Leases, recs: seq<Option<Record>>)
    ensures var r := LoadRecords(table, recs);
            table.Keys <= r.Keys && forall k :: k in table ==> r[k] == table[k]
    decreases |recs|
  {
    if recs != [] {
      RecordsKeepFirst(Emplace(table, recs[0]), recs[1..]);
    }
  }

  /** Loading never replaces a record already in the table: on a repeated
      key the first record stays. */
  lemma LoadKeepsFirst(table: Leases, lines: seq<string>)
    requires LinesOk(lines)
    ensures var r := Load(table, lines);
            table.Keys <= r.Keys && forall k :: k in table ==> r[k] == table[k]
  {
    RecordsKeepFirst(table, Parsed(lines));
  }

  /** Placing two runs of records is placing the first, then the second. */
  lemma {:induction false} RecordsAppend(table: Leases, a: seq<Option<Record>>, b: seq<Option<Record>>)
    ensures LoadRecords(table, a + b) == LoadRecords(LoadRecords(table, a), b)
    decreases |a|
  {
    if a == [] {
      assert a + b == b;
    } else {
      assert (a + b)[0] == a[0];
      assert (a + b)[1..] == a[1..] + b;
      RecordsAppend(Emplace(table, a[0]), a[1..], b);
    }
  }

  /** Two runs of loadable lines make one. */
  lemma LinesOkAppend(a: seq<string>, b: seq<string>)
    requires LinesOk(a) && LinesOk(b)
    ensures LinesOk(a + b)
  {
    forall i | 0 <= i < |a + b| ensures LineOk((a + b)[i]) {
      if i < |a| {
        assert (a + b)[i] == a[i];
      } else {
        assert (a + b)[i] == b[i - |a|];
      }
    }
  }

  /** The records of two runs of lines are those of the first, then those
      of the second. */
  lemma ParsedAppend(a: seq<string>, b: seq<string>)
    requires LinesOk(a) && LinesOk(b)
    ensures LinesOk(a + b) && Parsed(a + b) == Parsed(a) + Parsed(b)
  {
    LinesOkAppend(a, b);
    forall i | 0 <= i < |a + b| ensures Parsed(a + b)[i] == (Parsed(a) + Parsed(b))[i] {
      if i < |a| {
        assert (a + b)[i] == a[i];
      } else {
        assert (a + b)[i] == b[i - |a|];
      }
    }
  }

  /** Loading two runs of lines is loading the first, then the second. */
  lemma LoadAppend(table: Leases, a: seq<string>, b: seq<string>)
    requires LinesOk(a) && LinesOk(b)
    ensures LinesOk(a + b) && Load(table, a + b) == Load(Load(table, a), b)
  {
    ParsedAppend(a, b);
    RecordsAppend(table, Parsed(a), Parsed(b));
  }

  // ---------------------------------------------------------------------
  // The pieces of the written text
  // ---------------------------------------------------------------------

  predicate Avoids(s: string, bad: set<char>)
  {
    forall i :: 0 <= i < |s| ==> s[i] !in bad
  }

  /** The characters no field may hold: cut characters and the comma. */
  const BAD: set<char> := {'#', ';', '\r', '\n', ','}

  /** An address the line format carries unchanged: no comma, comment or
      line-end character, and no quote, blank or tab at either end. */
  predicate IpOk(ip: string)
  {
    Avoids(ip, BAD) && (|ip| > 0 ==> ip[0] !in TRIM && ip[|ip| - 1] !in TRIM)
  }

  /** A record the snapshot restores: a hardware address within the first
      six bytes, a client identifier of at least two bytes, an address the
      format carries and a time `stoi` reads. */
  predicate Restorable(k: seq<byte>, l: Lease)
  {
    && |k| == 16 && k[6..] == Zeros(10)
    && IsByteString(l.clientId) && |l.clientId| >= 2
    && IpOk(l.ip) && INT_MIN <= l.time <= INT_MAX
  }

  /** Characters the writer's numbers and hex texts are made of. */
  predicate AllWritten(s: string)
  {
    forall i :: 0 <= i < |s| ==> IsHexDigit(s[i]) || s[i] == ':' || s[i] == '=' || s[i] == '-'
  }

  /** The front of the hex text: the first byte, then ':' and the rest. */
  lemma {:induction false} HwTextCons(x: byte, b: seq<byte>)
    ensures HwText([x] + b) == Hex2(x) + (if |b| > 0 then ":" + HwText(b) else "")
    decreases |b|
  {
    var c := [x] + b;
    if |b| == 0 {
      assert c[..0] == [];
    } else {
      var b' := b[..|b| - 1];
      assert c[..|c| - 1] == [x] + b';
      assert c[|c| - 1] == b[|b| - 1];
      HwTextCons(x, b');
      if |b'| > 0 {
        assert HwText(b) == HwText(b') + ":" + Hex2(b[|b| - 1]);
        assert HwText(c) == Hex2(x) + ":" + HwText(b') + ":" + Hex2(b[|b| - 1]);
      } else {
        assert b'[..0] == b';
        assert HwText(b) == Hex2(b[|b| - 1]);
      }
    }
  }

  lemma {:induction false} HwTextWritten(b: seq<byte>)
    ensures AllWritten(HwText(b))
    decreases |b|
  {
    if |b| > 0 {
      HwTextWritten(b[..|b| - 1]);
    }
  }

  /** The hex loop reads the hex text back in two-digit chunks, one per
      byte. */
  lemma {:induction false} ChunksOfHwText(b: seq<byte>)
    ensures |Chunks(HwText(b))| == |b|
    ensures forall i :: 0 <= i < |b| ==> Chunks(HwText(b))[i] == Hex2(b[i])
    decreases |b|
  {
    if |b| > 0 {
      var x, rest := b[0], b[1..];
      assert b == [x] + rest;
      HwTextCons(x, rest);
      ChunksOfHwText(rest);
      var s := HwText(b);
      assert s[..2] == Hex2(x);
      if |rest| > 0 {
        assert s[2..] == ":" + HwText(rest);
        assert Chunks(s[2..]) == Chunks(HwText(rest));
      } else {
        assert s[2..] == [];
      }
      assert Chunks(s) == [Hex2(x)] + Chunks(s[2..]);
    }
  }

  /** Reading the chunks of a hex text gives the bytes back. */
  lemma HwTextValues(b: seq<byte>)
    ensures AllHexChunks(Chunks(HwText(b))) && ChunkValues(Chunks(HwText(b))) == b
  {
    ChunksOfHwText(b);
    forall i | 0 <= i < |b| ensures HexChunkValue(Chunks(HwText(b))[i]) == b[i] {
      HexChunkOfHex2(b[i]);
    }
  }

  /** The key read from the written hex text is the key written, when its
      last ten bytes are zero. */
  lemma HwKeyOfText(k: seq<byte>)
    requires |k| == 16 && k[6..] == Zeros(10)
    ensures HwFieldOk(HwText(k[..6])) && HwKey(HwText(k[..6])) == k
  {
    HwTextValues(k[..6]);
    assert k == k[..6] + k[6..];
  }

  lemma IndexOfAfter(a: string, c: char, b: string)
    requires c !in a
    ensures IndexOf(a + [c] + b, c) == Some(|a|)
  {
    var s := a + [c] + b;
    assert s[|a|] == c;
  }

  lemma SignedDecimalWritten(v: int)
    ensures AllWritten(SignedDecimal(v)) && '=' !in SignedDecimal(v)
  {
    var d := Decimal(if v < 0 then -v else v);
    assert AllDigits(d);
    if v < 0 {
      assert SignedDecimal(v) == "-" + d;
    }
  }

  /** The client identifier read back from its written text is the
      identifier written, when it has at least two bytes. */
  lemma ClientIdOfText(id: string)
    requires IsByteString(id) && |id| >= 2
    ensures ClientIdOk(ClientIdText(id)) && ClientId(ClientIdText(id)) == id
  {
    var v := SignedChar(id[0]);
    var d := SignedDecimal(v);
    var b := Bytes(id[1..]);
    var hex := HwText(b);
    assert ClientIdText(id) == d + "=" + hex;
    SignedDecimalWritten(v);
    SignedDecimalValue(v);
    assert IsIntText(d);
    HwTextValues(b);
    ClientIdSplit(d, hex);
    var c := (SignedValue(d) % 256) as char;
    assert c == id[0];
    assert Chars(ChunkValues(Chunks(hex))) == id[1..];
    assert id == [id[0]] + id[1..];
  }

  /** The written identifier is made of digits, signs, hex digits, '=' and
      ':'. */
  lemma ClientIdWritten(id: string)
    requires IsByteString(id)
    ensures AllWritten(ClientIdText(id))
  {
    var v := if |id| == 0 then 0 else SignedChar(id[0]);
    SignedDecimalWritten(v);
    if |id| > 1 {
      HwTextWritten(Bytes(id[1..]));
    }
  }

  /** A written identifier splits at its '=' into the number and the hex
      bytes. */
  lemma ClientIdSplit(d: string, hex: string)
    requires '=' !in d && IsIntText(d) && AllHexChunks(Chunks(hex))
    ensures ClientIdOk(d + "=" + hex)
    ensures ClientId(d + "=" + hex) == [(SignedValue(d) % 256) as char] + Chars(ChunkValues(Chunks(hex)))
  {
    var f := d + "=" + hex;
    IndexOfAfter(d, '=', hex);
    assert f[..|d|] == d && f[|d| + 1..] == hex;
  }

  // ---------------------------------------------------------------------
  // Trimming and cutting the written line
  // ---------------------------------------------------------------------

  lemma {:induction false} TrimRightPadding(s: string, post: string)
    requires forall i :: 0 <= i < |post| ==> post[i] in TRIM
    ensures TrimRight(s + post, TRIM) == TrimRight(s, TRIM)
    decreases |post|
  {
    if |post| > 0 {
      var p' := post[..|post| - 1];
      assert (s + post)[..|s + post| - 1] == s + p';
      TrimRightPadding(s, p');
    } else {
      assert s + post == s;
    }
  }

  lemma {:induction false} TrimLeftPadding(pre: string, s: string)
    requires forall i :: 0 <= i < |pre| ==> pre[i] in TRIM
    ensures TrimLeft(pre + s, TRIM) == TrimLeft(s, TRIM)
    decreases |pre|
  {
    if |pre| > 0 {
      assert (pre + s)[1..] == pre[1..] + s;
      TrimLeftPadding(pre[1..], s);
    } else {
      assert pre + s == s;
    }
  }

  /** A field padded with quotes, blanks or tabs is trimmed back to itself
      when its own ends are none of those. */
  lemma TrimPadded(pre: string, x: string, post: string)
    requires forall i :: 0 <= i < |pre| ==> pre[i] in TRIM
    requires forall i :: 0 <= i < |post| ==> post[i] in TRIM
    requires |x| > 0 ==> x[0] !in TRIM && x[|x| - 1] !in TRIM
    ensures Trim(pre + x + post) == x
  {
    TrimRightPadding(pre + x, post);
    if |x| == 0 {
      assert pre + x == "" + pre;
      TrimRightPadding("", pre);
      assert TrimRight("", TRIM) == "";
    } else {
      TrimRightNoop(pre + x, TRIM);
      TrimLeftPadding(pre, x);
      TrimLeftNoop(x, TRIM);
    }
  }

  lemma {:induction false} CutBefore(s: string, t: string, stops: set<char>)
    requires Avoids(s, stops) && |t| > 0 && t[0] in stops
    ensures CutAt(s + t, stops) == s
    decreases |s|
  {
    if |s| == 0 {
      assert s + t == t;
    } else {
      assert (s + t)[1..] == s[1..] + t;
      CutBefore(s[1..], t, stops);
      assert s == [s[0]] + s[1..];
    }
  }

  // ---------------------------------------------------------------------
  // Round trip
  // ---------------------------------------------------------------------

  lemma WrittenClean(s: string)
    requires AllWritten(s)
    ensures Avoids(s, BAD) && (|s| > 0 ==> s[0] !in TRIM && s[|s| - 1] !in TRIM)
  {
  }

  lemma DecimalWritten(n: nat)
    ensures AllWritten(Decimal(n))
  {
    assert AllDigits(Decimal(n));
  }

  lemma {:induction false} JoinAvoids(parts: seq<string>)
    requires |parts| >= 1 && forall i :: 0 <= i < |parts| ==> Avoids(parts[i], BAD)
    ensures Avoids(Join(parts, ','), STOPS)
    decreases |parts|
  {
    if |parts| > 1 {
      JoinAvoids(parts[1..]);
    }
  }

  lemma AvoidsConcat(a: string, b: string)
    requires Avoids(a, BAD) && Avoids(b, BAD)
    ensures Avoids(a + b, BAD)
  {
  }

  /** Each written field is one the format carries unchanged. */
  lemma WrittenFieldsClean(k: seq<byte>, l: Lease)
    requires Restorable(k, l)
    ensures IpOk(HwText(k[..6])) && IpOk(ClientIdText(l.clientId))
    ensures IpOk(Decimal(l.flag)) && IpOk(SignedDecimal(l.time))
  {
    HwTextWritten(k[..6]);
    WrittenClean(HwText(k[..6]));
    ClientIdWritten(l.clientId);
    WrittenClean(ClientIdText(l.clientId));
    DecimalWritten(l.flag);
    WrittenClean(Decimal(l.flag));
    SignedDecimalWritten(l.time);
    WrittenClean(SignedDecimal(l.time));
  }

  /** Padded fields hold no cut character and no comma. */
  lemma PaddedClean(hw: string, ci: string, ip: string, fl: string, tm: string)
    requires IpOk(hw) && IpOk(ci) && IpOk(ip) && IpOk(fl) && IpOk(tm)
    ensures forall i :: 0 <= i < 5 ==> Avoids(Padded(hw, ci, ip, fl, tm)[i], BAD)
  {
    AvoidsConcat(" \"", ci);
    AvoidsConcat(" \"" + ci, "\"");
    AvoidsConcat(" ", ip);
    AvoidsConcat(" ", fl);
    AvoidsConcat(" ", tm);
  }

  /** Nothing of a line of padded fields is cut off, and its commas split
      it back into the padded fields. */
  lemma PaddedTokens(hw: string, ci: string, ip: string, fl: string, tm: string)
    requires IpOk(hw) && IpOk(ci) && IpOk(ip) && IpOk(fl) && IpOk(tm)
    ensures var text := Join(Padded(hw, ci, ip, fl, tm), ',');
            && CutAt(text + "\r", STOPS) == text != ""
            && Tokens(text, ',') == Padded(hw, ci, ip, fl, tm)
            && '\n' !in text + "\r"
  {
    var parts := Padded(hw, ci, ip, fl, tm);
    var text := Join(parts, ',');
    PaddedClean(hw, ci, ip, fl, tm);
    JoinAvoids(parts);
    CutBefore(text, "\r", STOPS);
    assert text == parts[0] + [','] + Join(parts[1..], ',');
    PiecesJoin(parts, ',');
    assert (text + "\r")[|text|] == '\r';
  }

  lemma TrimBare(x: string)
    requires IpOk(x)
    ensures Trim(x) == x
  {
    TrimPadded("", x, "");
    assert "" + x + "" == x;
  }

  lemma TrimSpaced(x: string)
    requires IpOk(x)
    ensures Trim(" " + x) == x
  {
    TrimPadded(" ", x, "");
    assert " " + x + "" == " " + x;
  }

  lemma TrimQuoted(x: string)
    requires IpOk(x)
    ensures Trim(" \"" + x + "\"") == x
  {
    TrimPadded(" \"", x, "\"");
  }

  /** The loader splits a line of padded fields back into the fields. */
  lemma PaddedFields(hw: string, ci: string, ip: string, fl: string, tm: string)
    requires IpOk(hw) && IpOk(ci) && IpOk(ip) && IpOk(fl) && IpOk(tm)
    ensures Fields(Join(Padded(hw, ci, ip, fl, tm), ',') + "\r") == [hw, ci, ip, fl, tm]
  {
    PaddedTokens(hw, ci, ip, fl, tm);
    TrimBare(hw);
    TrimQuoted(ci);
    TrimSpaced(ip);
    TrimSpaced(fl);
    TrimSpaced(tm);
  }

  /** The loader splits a written record line back into the written
      fields. */
  lemma RecordFields(k: seq<byte>, l: Lease)
    requires Restorable(k, l)
    ensures Fields(RecordText(k, l) + "\r") ==
              [HwText(k[..6]), ClientIdText(l.clientId), l.ip, Decimal(l.flag), SignedDecimal(l.time)]
  {
    WrittenFieldsClean(k, l);
    PaddedFields(HwText(k[..6]), ClientIdText(l.clientId), l.ip, Decimal(l.flag), SignedDecimal(l.time));
  }

  /** A written record line, as the loader reads it, holds the record
      written. */
  lemma LineRoundTrip(k: seq<byte>, l: Lease)
    requires Restorable(k, l)
    ensures LineOk(RecordText(k, l) + "\r") && ParseLine(RecordText(k, l) + "\r") == Some(Record(k, l))
  {
    RecordFields(k, l);
    HwKeyOfText(k);
    ClientIdOfText(l.clientId);
    DecimalValue(l.flag);
    SignedDecimalValue(l.time);
  }

  /** The lines the loader reads back from the record lines: each
      without its line feed. */
  function Bodies(leases: Leases, ks: seq<seq<byte>>): (r: seq<string>)
    requires Writable(leases) && forall i :: 0 <= i < |ks| ==> ks[i] in leases
    ensures |r| == |ks|
  {
    seq(|ks|, i requires 0 <= i < |ks| => RecordText(ks[i], leases[ks[i]]) + "\r")
  }

  /** Lines joined, each followed by a line feed. */
  function Unlines(bodies: seq<string>): string
  {
    if bodies == [] then "" else bodies[0] + "\n" + Unlines(bodies[1..])
  }

  /** Lines that each end in a line feed are their bodies, unlined. */
  lemma {:induction false} ConcatTerminated(lines: seq<string>, bodies: seq<string>)
    requires |lines| == |bodies| && forall i :: 0 <= i < |lines| ==> lines[i] == bodies[i] + "\n"
    ensures Concat(lines) == Unlines(bodies)
    decreases |lines|
  {
    if lines != [] {
      ConcatTerminated(lines[1..], bodies[1..]);
    }
  }

  /** Reading back unlined bodies without line feeds gives the bodies,
      then an empty last piece. */
  lemma {:induction false} PiecesOfUnlines(bodies: seq<string>)
    requires forall i :: 0 <= i < |bodies| ==> '\n' !in bodies[i]
    ensures TextLines(Unlines(bodies)) == bodies + [""]
    decreases |bodies|
  {
    if bodies == [] {
      assert Pieces("", '\n') == [""];
    } else {
      PiecesOfUnlines(bodies[1..]);
      assert Unlines(bodies) == bodies[0] + ['\n'] + Unlines(bodies[1..]);
      PiecesAppend(bodies[0], '\n', Unlines(bodies[1..]));
      assert bodies == [bodies[0]] + bodies[1..];
    }
  }

  lemma HeaderOneLine()
    ensures '\n' !in HEADER_TEXT
  {
    assert '\n' !in "#";
    assert '\n' !in HEADER_HW;
    assert '\n' !in HEADER_IDENT;
    assert '\n' !in HEADER_IP;
    assert '\n' !in HEADER_REST;
  }

  /** A record line is the record and its carriage return, then a line
      feed, the only one. */
  lemma RecordLineShape(k: seq<byte>, l: Lease)
    requires Restorable(k, l)
    ensures RecordLine(k, l) == (RecordText(k, l) + "\r") + "\n"
    ensures '\n' !in RecordText(k, l) + "\r"
  {
    WrittenFieldsClean(k, l);
    PaddedTokens(HwText(k[..6]), ClientIdText(l.clientId), l.ip, Decimal(l.flag), SignedDecimal(l.time));
  }

  /** Each record line is its body and a line feed, the only one. */
  lemma RecordLinesShape(leases: Leases, ks: seq<seq<byte>>)
    requires forall k :: k in leases ==> Restorable(k, leases[k])
    requires forall i :: 0 <= i < |ks| ==> ks[i] in leases
    ensures Writable(leases)
    ensures forall i :: 0 <= i < |ks| ==>
              RecordLines(leases, ks)[i] == Bodies(leases, ks)[i] + "\n" && '\n' !in Bodies(leases, ks)[i]
  {
    forall i | 0 <= i < |ks|
      ensures RecordLines(leases, ks)[i] == Bodies(leases, ks)[i] + "\n" && '\n' !in Bodies(leases, ks)[i]
    {
      RecordLineAt(leases, ks, i);
      RecordLineShape(ks[i], leases[ks[i]]);
    }
  }

  /** The snapshot text is the header and the record lines, unlined. */
  lemma SnapshotUnlined(leases: Leases)
    requires forall k :: k in leases ==> Restorable(k, leases[k])
    ensures Writable(leases)
    ensures var bodies := [HEADER_TEXT] + Bodies(leases, SortedKeys(leases.Keys));
            && Concat(Snapshot(leases)) == Unlines(bodies)
            && forall i :: 0 <= i < |bodies| ==> '\n' !in bodies[i]
  {
    var ks := SortedKeys(leases.Keys);
    var recs := RecordLines(leases, ks);
    var b := Bodies(leases, ks);
    RecordLinesShape(leases, ks);
    HeaderOneLine();
    var snap := [HEADER_TEXT + "\n"] + recs;
    var bodies := [HEADER_TEXT] + b;
    forall i | 0 <= i < |snap|
      ensures snap[i] == bodies[i] + "\n" && '\n' !in bodies[i]
    {
      if i > 0 {
        assert snap[i] == recs[i - 1] && bodies[i] == b[i - 1];
      }
    }
    ConcatTerminated(snap, bodies);
  }

  /** The snapshot text reads back as the header, the record lines and an
      empty last piece. */
  lemma SnapshotLines(leases: Leases)
    requires forall k :: k in leases ==> Restorable(k, leases[k])
    ensures Writable(leases)
    ensures TextLines(Concat(Snapshot(leases))) ==
              [HEADER_TEXT] + Bodies(leases, SortedKeys(leases.Keys)) + [""]
  {
    SnapshotUnlined(leases);
    PiecesOfUnlines([HEADER_TEXT] + Bodies(leases, SortedKeys(leases.Keys)));
  }

  /** Loading records with keys in neither the table nor another record
      adds exactly those records. */
  lemma {:induction false} LoadDistinct(table: Leases, recs: seq<Option<Record>>)
    requires forall i :: 0 <= i < |recs| ==> recs[i].Some? && recs[i].value.key !in table
    requires forall i, j :: 0 <= i < j < |recs| ==> recs[i].value.key != recs[j].value.key
    ensures var r := LoadRecords(table, recs);
            && (forall k :: k in r ==> k in table || exists i :: 0 <= i < |recs| && recs[i].value.key == k)
            && (forall k :: k in table ==> k in r && r[k] == table[k])
            && (forall i :: 0 <= i < |recs| ==> recs[i].value.key in r && r[recs[i].value.key] == recs[i].value.lease)
    decreases |recs|
  {
    if recs != [] {
      var rec := recs[0].value;
      var t := table[rec.key := rec.lease];
      var rest := recs[1..];
      assert Emplace(table, recs[0]) == t;
      assert forall i :: 0 <= i < |rest| ==> rest[i] == recs[i + 1];
      LoadDistinct(t, rest);
      var r := LoadRecords(table, recs);
      assert r == LoadRecords(t, rest);
      forall k | k in r ensures k in table || exists i :: 0 <= i < |recs| && recs[i].value.key == k {
        if k !in table && k != rec.key {
          var i :| 0 <= i < |rest| && rest[i].value.key == k;
          assert recs[i + 1].value.key == k;
        }
      }
      forall i | 0 <= i < |recs| ensures recs[i].value.key in r && r[recs[i].value.key] == recs[i].value.lease {
        if i > 0 {
          assert recs[i] == rest[i - 1];
        }
      }
    }
  }

  /** The records of the given keys, as written. */
  function Records(leases: Leases, ks: seq<seq<byte>>): (r: seq<Option<Record>>)
    requires forall i :: 0 <= i < |ks| ==> ks[i] in leases
    ensures |r| == |ks|
  {
    seq(|ks|, i requires 0 <= i < |ks| => Some(Record(ks[i], leases[ks[i]])))
  }

  /** Each record line parses back as its record. */
  lemma BodiesParse(leases: Leases, ks: seq<seq<byte>>)
    requires forall k :: k in leases ==> Restorable(k, leases[k])
    requires forall i :: 0 <= i < |ks| ==> ks[i] in leases
    ensures Writable(leases)
    ensures LinesOk(Bodies(leases, ks)) && Parsed(Bodies(leases, ks)) == Records(leases, ks)
  {
    var b := Bodies(leases, ks);
    forall i | 0 <= i < |ks|
      ensures LineOk(b[i]) && ParseLine(b[i]) == Records(leases, ks)[i]
    {
      LineRoundTrip(ks[i], leases[ks[i]]);
    }
  }

  /** The records of every key of a table, each once, load into the
      table. */
  lemma LoadEveryKey(leases: Leases, ks: seq<seq<byte>>)
    requires forall k :: k in leases <==> k in ks
    requires forall i, j :: 0 <= i < j < |ks| ==> ks[i] != ks[j]
    ensures LoadRecords(map[], Records(leases, ks)) == leases
  {
    var recs := Records(leases, ks);
    LoadDistinct(map[], recs);
    var r := LoadRecords(map[], recs);
    forall k | k in leases ensures k in r && r[k] == leases[k] {
      var i :| 0 <= i < |ks| && ks[i] == k;
      assert recs[i].value.key == k;
    }
    assert r == leases;
  }

  /** An empty line holds no record. */
  lemma EmptySkipped()
    ensures LineOk("") && ParseLine("") == None
  {
    assert CutAt("", STOPS) == "";
  }

  /** Lines framed by two lines without a record hold the records of the
      inner lines. */
  lemma ParsedFramed(h: string, b: seq<string>, e: string)
    requires LineOk(h) && ParseLine(h) == None && LineOk(e) && ParseLine(e) == None
    requires LinesOk(b)
    ensures LinesOk([h] + b + [e])
    ensures Parsed([h] + b + [e]) == [None] + Parsed(b) + [None]
  {
    assert Parsed([h]) == [None];
    assert Parsed([e]) == [None];
    ParsedAppend([h], b);
    ParsedAppend([h] + b, [e]);
  }

  /** Around the record lines, the header and the empty last piece hold
      no record. */
  lemma FramedParsed(b: seq<string>)
    requires LinesOk(b)
    ensures LinesOk([HEADER_TEXT] + b + [""])
    ensures Parsed([HEADER_TEXT] + b + [""]) == [None] + Parsed(b) + [None]
  {
    HeaderSkipped();
    EmptySkipped();
    ParsedFramed(HEADER_TEXT, b, "");
  }

  /** Placing nothing before and after a run of records. */
  lemma RecordsFramed(table: Leases, p: seq<Option<Record>>)
    ensures LoadRecords(table, [None] + p + [None]) == LoadRecords(table, p)
  {
    RecordsAppend(table, [None], p + [None]);
    RecordsAppend(table, p, [None]);
    assert [None] + p + [None] == [None] + (p + [None]);
  }

  /** Around the record lines, the header and the empty last piece load
      nothing. */
  lemma LoadFramed(b: seq<string>)
    requires LinesOk(b)
    ensures LinesOk([HEADER_TEXT] + b + [""])
    ensures Load(map[], [HEADER_TEXT] + b + [""]) == Load(map[], b)
  {
    FramedParsed(b);
    RecordsFramed(map[], Parsed(b));
  }

  /** The record lines, in key order, load back into the table they were
      written from. */
  lemma RecordsLoad(leases: Leases)
    requires forall k :: k in leases ==> Restorable(k, leases[k])
    ensures Writable(leases)
    ensures var b := Bodies(leases, SortedKeys(leases.Keys));
            LinesOk(b) && Load(map[], b) == leases
  {
    var ks := SortedKeys(leases.Keys);
    SortedKeysOrdered(leases.Keys);
    BodiesParse(leases, ks);
    LoadEveryKey(leases, ks);
  }

  /** Round trip: a table whose records are all restorable is written as a
      snapshot the loader reads back, record for record, into an empty
      table. */
  lemma SnapshotRoundTrip(leases: Leases)
    requires forall k :: k in leases ==> Restorable(k, leases[k])
    ensures Writable(leases)
    ensures var lines := TextLines(Concat(Snapshot(leases)));
            LinesOk(lines) && Load(map[], lines) == leases
  {
    SnapshotLines(leases);
    RecordsLoad(leases);
    LoadFramed(Bodies(leases, SortedKeys(leases.Keys)));
  }

  // ---------------------------------------------------------------------
  // The loops of the writer and the reader
  // ---------------------------------------------------------------------

  /** The first six key bytes in hex, joined by ':'. */
  method WriteHwText(k: seq<byte>) returns (s: string)
    requires |k| >= 6
    ensures s == HwText(k[..6])
  {
    s := "";
    var n := 0;
    while n < 6
      invariant 0 <= n <= 6
      invariant s == HwText(k[..n])
    {
      assert k[..n + 1][..n] == k[..n];
      s := s + (if n > 0 then ":" else "") + Hex2(k[n]);
      n := n + 1;
    }
  }

  /** What the writer appends for byte `j` of the client identifier:
      '=' before the second byte, ':' before later ones, then two hex
      digits. */
  function IdPiece(id: string, j: nat): string
    requires IsByteString(id) && 1 <= j < |id|
  {
    (if j > 1 then ":" else "=") + Hex2(id[j] as int)
  }

  /** The part of the written client identifier after its first byte,
      up to byte `n`, piece by piece. */
  function IdTail(id: string, n: nat): string
    requires IsByteString(id) && 1 <= n <= |id|
    decreases n
  {
    if n == 1 then "" else IdTail(id, n - 1) + IdPiece(id, n - 1)
  }

  /** Regrouping the pieces of a concatenation. */
  lemma Regroup(x: string, y: string, z: string, w: string)
    ensures (x + y) + (z + w) == x + ((y + z) + w)
  {
  }

  /** A slice up to the length is the suffix. */
  lemma SliceToEnd(s: string, i: nat)
    requires i <= |s|
    ensures s[i..|s|] == s[i..]
  {
  }

  /** The pieces make '=' and the hex text of the bytes after the first. */
  lemma {:induction false} IdTailHex(id: string, n: nat)
    requires IsByteString(id) && 2 <= n <= |id|
    ensures IdTail(id, n) == "=" + HwText(Bytes(id[1..n]))
    decreases n
  {
    var b := Bytes(id[1..n]);
    var last := Hex2(id[n - 1] as int);
    assert b[..|b| - 1] == Bytes(id[1..n - 1]);
    assert b[|b| - 1] == id[n - 1] as int;
    if n == 2 {
      assert b[..|b| - 1] == [];
      Regroup("", "=", "", last);
    } else {
      IdTailHex(id, n - 1);
      Regroup("=", HwText(Bytes(id[1..n - 1])), ":", last);
    }
  }

  /** The written client identifier: its first byte, then its tail. */
  lemma ClientIdTextTail(id: string)
    requires IsByteString(id) && |id| >= 1
    ensures ClientIdText(id) == SignedDecimal(SignedChar(id[0])) + IdTail(id, |id|)
  {
    var head := SignedDecimal(SignedChar(id[0]));
    if |id| == 1 {
      assert head + "" == head;
    } else {
      IdTailHex(id, |id|);
      SliceToEnd(id, 1);
    }
  }

  /** Appending to a text that follows a head. */
  lemma AppendAfter(head: string, text: string, piece: string)
    ensures (head + text) + piece == head + (text + piece)
  {
  }

  /** The client identifier as the writer streams it. */
  method WriteClientId(id: string) returns (s: string)
    requires IsByteString(id)
    ensures s == ClientIdText(id)
  {
    if |id| == 0 {
      return SignedDecimal(0);
    }
    var head := SignedDecimal(SignedChar(id[0]));
    s := head;
    var n := 1;
    assert s == head + IdTail(id, n);
    while n < |id|
      invariant 1 <= n <= |id| && s == head + IdTail(id, n)
    {
      AppendAfter(head, IdTail(id, n), IdPiece(id, n));
      s := s + IdPiece(id, n);
      n := n + 1;
    }
    ClientIdTextTail(id);
  }

  /** Commas with a blank after them, as the writer streams the fields. */
  lemma JoinPadded(hw: string, ci: string, ip: string, fl: string, tm: string)
    ensures Join(Padded(hw, ci, ip, fl, tm), ',') ==
              hw + ", \"" + ci + "\", " + ip + ", " + fl + ", " + tm
  {
    var parts := Padded(hw, ci, ip, fl, tm);
    assert Join(parts[4..], ',') == " " + tm;
    assert Join(parts[3..], ',') == " " + fl + [','] + (" " + tm);
    assert Join(parts[2..], ',') == " " + ip + [','] + (" " + fl + [','] + (" " + tm));
    assert Join(parts[1..], ',') == " \"" + ci + "\"" + [','] + (" " + ip + [','] + (" " + fl + [','] + (" " + tm)));
  }

  /** One record line as the writer streams it. */
  method WriteRecord(k: seq<byte>, l: Lease) returns (line: string)
    requires |k| >= 6 && IsByteString(l.clientId)
    ensures line == RecordLine(k, l)
  {
    var hw := WriteHwText(k);
    var ci := WriteClientId(l.clientId);
    JoinPadded(hw, ci, l.ip, Decimal(l.flag), SignedDecimal(l.time));
    line := hw + ", \"" + ci + "\", " + l.ip + ", " + Decimal(l.flag) + ", " + SignedDecimal(l.time) + "\r\n";
  }

  /** The fields of a line: cut at a comment or line end, split at commas,
      each trimmed as it is pushed. */
  method ReadFields(line: string) returns (fs: seq<string>)
    ensures fs == Fields(line)
  {
    var cut := CutAt(line, STOPS);
    fs := [];
    if cut != "" {
      var tokens := Tokens(cut, ',');
      var n := 0;
      while n < |tokens|
        invariant 0 <= n <= |tokens|
        invariant |fs| == n && forall j :: 0 <= j < n ==> fs[j] == Trim(tokens[j])
      {
        fs := fs + [Trim(tokens[n])];
        n := n + 1;
      }
    }
  }

  /** Values of chunks read one after another. */
  lemma ChunkValuesSnoc(cs: seq<string>, c: string)
    requires AllHexChunks(cs) && IsHexChunk(c)
    ensures AllHexChunks(cs + [c]) && ChunkValues(cs + [c]) == ChunkValues(cs) + [HexChunkValue(c)]
  {
  }

  /** Chunks of a suffix that starts at ':': those after it. */
  lemma ChunksSkip(f: string, n: nat)
    requires n < |f| && f[n] == ':'
    ensures Chunks(f[n..]) == Chunks(f[n + 1..])
  {
    assert f[n..][1..] == f[n + 1..];
  }

  /** Chunks of a suffix that starts at a chunk: that chunk, then the rest. */
  lemma ChunksAt(f: string, n: nat)
    requires n < |f| && f[n] != ':'
    ensures var w := if |f| - n < 2 then |f| - n else 2;
            Chunks(f[n..]) == [f[n..n + w]] + Chunks(f[n + w..])
  {
    var w := if |f| - n < 2 then |f| - n else 2;
    assert f[n..][..w] == f[n..n + w];
    assert f[n..][w..] == f[n + w..];
  }

  /** The chunk the loop reads at `n`, when the chunks before it have been
      read: it is the next chunk of the field. */
  lemma NextChunk(f: string, cs: seq<string>, taken: seq<string>, n: nat)
    requires n < |f| && f[n] != ':'
    requires cs == taken + Chunks(f[n..])
    ensures var w := if |f| - n < 2 then |f| - n else 2;
            cs == (taken + [f[n..n + w]]) + Chunks(f[n + w..])
  {
    var w := if |f| - n < 2 then |f| - n else 2;
    ChunksAt(f, n);
    var c, rest := f[n..n + w], Chunks(f[n + w..]);
    assert taken + ([c] + rest) == (taken + [c]) + rest;
  }

  /** A prefix of hex chunks is hex chunks. */
  lemma HexPrefix(cs: seq<string>, taken: seq<string>, c: string, rest: seq<string>)
    requires AllHexChunks(cs) && cs == (taken + [c]) + rest
    ensures AllHexChunks(taken) && IsHexChunk(c) && |taken| < |cs|
  {
    assert cs[|taken|] == c;
    forall j | 0 <= j < |taken| ensures IsHexChunk(taken[j]) {
      assert cs[j] == taken[j];
    }
  }

  /** The state of the hardware-address loop at read position `n` of `f`,
      whose chunks are `cs`: the chunks read so far are `taken`. */
  ghost predicate HwRead(f: string, n: nat, cs: seq<string>, taken: seq<string>)
  {
    |f| < 255 && n <= |f| && AllHexChunks(cs) && |cs| <= 16 && cs == taken + Chunks(f[n..]) && AllHexChunks(taken)
  }

  /** Skipping a ':' keeps the loop state. */
  lemma HwSkip(f: string, n: nat, cs: seq<string>, taken: seq<string>)
    requires HwRead(f, n, cs, taken) && n < |f| && f[n] == ':'
    ensures HwRead(f, n + 1, cs, taken)
  {
    ChunksSkip(f, n);
  }

  /** Reading the chunk at `n` takes the next chunk, one of at most 16. */
  lemma HwNext(f: string, n: nat, w: nat, cs: seq<string>, taken: seq<string>)
    requires HwRead(f, n, cs, taken) && n < |f| && f[n] != ':'
    requires w == if |f| - n < 2 then |f| - n else 2
    ensures n + w <= |f| && IsHexChunk(f[n..n + w]) && |taken| < 16
    ensures HwRead(f, n + w, cs, taken + [f[n..n + w]])
  {
    var c := f[n..n + w];
    NextChunk(f, cs, taken, n);
    HexPrefix(cs, taken, c, Chunks(f[n + w..]));
  }

  /** The hardware-address loop: skip a ':', otherwise read up to two hex
      digits into the next byte of a zeroed 16-byte array. The field is
      shorter than 255 characters, so the 8-bit counters `n` and `i` never
      wrap. */
  method ReadHwLoop(f: string, ghost cs: seq<string>) returns (chaddr: array<byte>, ghost taken: seq<string>)
    requires HwRead(f, 0, cs, [])
    ensures fresh(chaddr) && chaddr.Length == 16 && HwRead(f, |f|, cs, taken)
    ensures forall j :: 0 <= j < |taken| ==> chaddr[j] == HexChunkValue(taken[j])
    ensures forall j :: |taken| <= j < 16 ==> chaddr[j] == 0
  {
    chaddr := new byte[16](_ => 0);
    var n := 0;
    var i := 0;
    taken := [];
    while n < |f|
      invariant i == |taken| && HwRead(f, n, cs, taken) && n < 256 && i <= 16
      invariant forall j :: 0 <= j < i ==> chaddr[j] == HexChunkValue(taken[j])
      invariant forall j :: i <= j < 16 ==> chaddr[j] == 0
      decreases |f| - n
    {
      if f[n] == ':' {
        HwSkip(f, n, cs, taken);
        n := n + 1;
      } else {
        var w := if |f| - n < 2 then |f| - n else 2;
        HwNext(f, n, w, cs, taken);
        chaddr[i] := HexChunkValue(f[n..n + w]);
        taken := taken + [f[n..n + w]];
        i := i + 1;
        n := n + w;
      }
    }
  }

  /** The loop reads every chunk of the field. */
  lemma HwReadEnd(f: string, cs: seq<string>, taken: seq<string>)
    requires HwRead(f, |f|, cs, taken)
    ensures taken == cs
  {
    assert f[|f|..] == [];
  }

  /** The hardware address of a line: the 16-byte key its first field
      gives. */
  method ReadHwAddr(f: string) returns (chaddr: array<byte>)
    requires HwFieldOk(f)
    ensures fresh(chaddr) && chaddr[..] == HwKey(f)
  {
    ghost var cs := Chunks(f);
    assert HwRead(f, 0, cs, []) by {
      assert f[0..] == f;
    }
    ghost var taken;
    chaddr, taken := ReadHwLoop(f, cs);
    HwReadEnd(f, cs, taken);
    assert chaddr[..] == HwKey(f);
  }

  /** The state of the client-identifier loop at read position `n` of `f`,
      whose chunks to be read are `cs`: the chunks read so far are `taken`,
      and `written` is the first character followed by their values as
      characters. */
  ghost predicate Rewritten(f: string, first: char, n: nat, cs: seq<string>, taken: seq<string>, written: seq<char>)
  {
    n <= |f| && AllHexChunks(cs) && cs == taken + Chunks(f[n..]) &&
    AllHexChunks(taken) && written == [first] + Chars(ChunkValues(taken))
  }

  /** Skipping a ':' keeps the loop state. */
  lemma RewriteSkip(f: string, first: char, n: nat, cs: seq<string>, taken: seq<string>, written: seq<char>)
    requires Rewritten(f, first, n, cs, taken, written) && n < |f| && f[n] == ':'
    ensures Rewritten(f, first, n + 1, cs, taken, written)
  {
    ChunksSkip(f, n);
  }

  /** Reading the chunk at `n` extends what has been written by its value. */
  lemma RewriteNext(f: string, first: char, n: nat, w: nat, cs: seq<string>, taken: seq<string>, written: seq<char>)
    requires Rewritten(f, first, n, cs, taken, written) && n < |f| && f[n] != ':'
    requires w == if |f| - n < 2 then |f| - n else 2
    ensures n + w <= |f| && IsHexChunk(f[n..n + w])
    ensures Rewritten(f, first, n + w, cs, taken + [f[n..n + w]], written + [HexChunkValue(f[n..n + w]) as char])
  {
    var c := f[n..n + w];
    NextChunk(f, cs, taken, n);
    HexPrefix(cs, taken, c, Chunks(f[n + w..]));
    ChunkValuesSnoc(taken, c);
  }

  /** The loop state once every character has been read. */
  lemma RewriteEnd(f: string, first: char, cs: seq<string>, taken: seq<string>, written: seq<char>)
    requires Rewritten(f, first, |f|, cs, taken, written)
    ensures written == [first] + Chars(ChunkValues(cs))
  {
    assert f[|f|..] == [];
  }

  /** The hex loop of the client-identifier rewrite, on the field `f`:
      from read position `p + 1` on, each chunk is written, as a character,
      over the field from position 1 on. Returns the field so rewritten
      and the length written. */
  method RewriteChunks(f: string, p: nat, ghost cs: seq<string>)
    returns (s: string, len: nat, ghost taken: seq<string>, ghost written: seq<char>)
    requires 1 <= p < |f| && Rewritten(f, f[0], p + 1, cs, [], [f[0]])
    ensures |s| == |f| && len == |written| <= |s| && s[..len] == written
    ensures Rewritten(f, f[0], |f|, cs, taken, written)
  {
    s := f;
    var i := 1;
    var n := p + 1;
    taken, written := [], [f[0]];
    while n < |s|
      invariant |s| == |f| && i == |written| && i + p <= n
      invariant Rewritten(f, f[0], n, cs, taken, written)
      invariant forall j :: 0 <= j < i ==> s[j] == written[j]
      invariant forall j :: i <= j < |s| ==> s[j] == f[j]
      decreases |s| - n
    {
      if s[n] == ':' {
        RewriteSkip(f, f[0], n, cs, taken, written);
        n := n + 1;
      } else {
        var w := if |s| - n < 2 then |s| - n else 2;
        ghost var c := f[n..n + w];
        RewriteNext(f, f[0], n, w, cs, taken, written);
        assert s[n..n + w] == c;
        var v := HexChunkValue(s[n..n + w]) as char;
        assert Rewritten(f, f[0], n + w, cs, taken + [c], written + [v]);
        s := s[i := v];
        taken := taken + [c];
        written := written + [v];
        i := i + 1;
        n := n + w;
      }
    }
    assert s[..i] == written;
    len := i;
  }

  /** The client-identifier rewrite: when the field holds '=', its first
      character becomes the number before '=' (as a `char`, modulo 256),
      the hex chunks after '=' become the following characters, and the
      field is cut to what was written. */
  method DecodeClientId(field: string) returns (id: string)
    requires ClientIdOk(field)
    ensures id == ClientId(field)
  {
    var found := IndexOf(field, '=');
    if found.None? {
      return field;
    }
    var p := found.value;
    assert IsSignedNumeral(field[..p]) && AllHexChunks(Chunks(field[p + 1..]));
    var s := field[0 := (SignedValue(field[..p]) % 256) as char];
    assert s[p + 1..] == field[p + 1..];
    ghost var cs := Chunks(s[p + 1..]);
    assert Rewritten(s, s[0], p + 1, cs, [], [s[0]]);
    var len;
    ghost var taken, written;
    s, len, taken, written := RewriteChunks(s, p, cs);
    RewriteEnd(field[0 := (SignedValue(field[..p]) % 256) as char], (SignedValue(field[..p]) % 256) as char, cs, taken, written);
    id := s[..len];
  }

  /** One line of the loader: the record it holds, if it has five fields. */
  method ReadRecord(line: string) returns (r: Option<Record>)
    requires LineOk(line)
    ensures r == ParseLine(line)
  {
    var fs := ReadFields(line);
    if |fs| != 5 {
      return None;
    }
    var chaddr := ReadHwAddr(fs[0]);
    var id := DecodeClientId(fs[1]);
    r := Some(Record(chaddr[..], Lease(id, fs[2], DigitsValue(fs[3]), SignedValue(fs[4]))));
  }

  // ---------------------------------------------------------------------
  // Loading and saving the whole snapshot
  // ---------------------------------------------------------------------

  /** Loading one more record places it, if there is one. */
  lemma RecordsSnoc(table: Leases, recs: seq<Option<Record>>, r: Option<Record>)
    ensures LoadRecords(table, recs + [r]) == Emplace(LoadRecords(table, recs), r)
  {
    RecordsAppend(table, recs, [r]);
    assert LoadRecords(Emplace(LoadRecords(table, recs), r), []) == Emplace(LoadRecords(table, recs), r);
  }

  /** A prefix one longer is the prefix and the next element. */
  lemma TakeSnoc<T>(s: seq<T>, i: nat)
    requires i < |s|
    ensures s[..i + 1] == s[..i] + [s[i]]
  {
  }

  /** The constructor's loader: every line read, its record placed with
      `emplace`. */
  method LoadSnapshot(lines: seq<string>) returns (table: Leases)
    requires LinesOk(lines)
    ensures table == Load(map[], lines)
  {
    ghost var recs := Parsed(lines);
    table := map[];
    var i := 0;
    assert recs[..0] == [];
    while i < |lines|
      invariant i <= |lines| && table == LoadRecords(map[], recs[..i])
    {
      var r := ReadRecord(lines[i]);
      assert recs[i] == r;
      TakeSnoc(recs, i);
      RecordsSnoc(map[], recs[..i], r);
      table := Emplace(table, r);
      i := i + 1;
    }
    assert recs[..i] == recs;
  }

  /** The record lines for a first key and the keys after it. */
  lemma RecordLinesCons(leases: Leases, k: seq<byte>, ks: seq<seq<byte>>)
    requires Writable(leases) && k in leases && forall i :: 0 <= i < |ks| ==> ks[i] in leases
    ensures RecordLines(leases, [k] + ks) == [RecordLine(k, leases[k])] + RecordLines(leases, ks)
  {
    assert ([k] + ks)[1..] == ks;
  }

  /** Appending one line to what has been written. */
  lemma WrittenSoFar(out: seq<string>, line: string, rest: seq<string>)
    ensures (out + [line]) + rest == out + ([line] + rest)
  {
  }

  /** The destructor's writer: the header, then one line per record in
      ascending key order, as `std::map` iterates. */
  method WriteSnapshot(leases: Leases) returns (out: seq<string>)
    requires Writable(leases)
    ensures out == Snapshot(leases)
  {
    out := [HEADER_TEXT + "\n"];
    var remaining := leases.Keys;
    while remaining != {}
      invariant remaining <= leases.Keys
      invariant out + RecordLines(leases, SortedKeys(remaining)) == Snapshot(leases)
      decreases |remaining|
    {
      LeastExists(remaining);
      var k :| IsLeast(k, remaining);
      SortedKeysCons(remaining);
      LeastUnique(k, SortedKeys(remaining)[0], remaining);
      var rest := SortedKeys(remaining - {k});
      RecordLinesCons(leases, k, rest);
      var line := WriteRecord(k, leases[k]);
      WrittenSoFar(out, line, RecordLines(leases, rest));
      out := out + [line];
      remaining := remaining - {k};
    }
  }
}
