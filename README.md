# DHCPv4 server core, modelled in Dafny

This project models the core of a small DHCPv4 server written in C++
(`DhcpServ.cpp`) together with the configuration reader it relies on
(`ConfFile.cpp`), and proves properties of that model.

- **Configuration reader** (`Conf`): `ConfFile` loads an INI-like file into
  a map from section name to a multimap of key/value entries. It handles
  `#`/`;` comments, `[section]` headers (a duplicate or empty header closes
  the section), `key = value` lines and `@file` includes. Its queries are
  `get()`, `get(section)`, `get(section, key)` and `getUnique`. A
  registry of loaded files stands for `GetInstance`.
- **Interface configuration** (`ServerConfig`): every non-empty section
  becomes a `Config`, keyed by the interface address. `LeaseTime` is read
  with `stoi` and stored as 32 bits. `IP_Blocked` and `HW_Blocked` are
  split at commas.
- **Message decoder** (`Message`): the 240-byte header is copied as raw
  wire bytes, then the option walk runs: pad, end, and the options 12, 50,
  53, 54, 55, 60 and 61 that the server stores. Other codes are skipped by
  their length. An encoder for options proves that the decoder reads back
  what is written.
- **Protocol engine** (`Engine`, `EngineProperties`): `DatenEmpfangen` is
  specified by pure functions. The gate checks Ethernet, the socket
  lookup, the configuration lookup and the hardware-address block list.
  Then DISCOVER, the three REQUEST modes, DECLINE, RELEASE and INFORM each
  have their own function. The function also builds the reply image:
  header, option 54, lease time, message type, the echoed options from the
  parameter-request list, the end byte and padding to 300 bytes.
- **Lease snapshot** (`LeaseFile`): the `DhcpServ.ini` reader and the
  destructor's writer, line by line. Both the byte-level loops and a proved
  round trip (write, then read back, gives the same leases) are included.
- **Server object** (`Server`): `DhcpServer` is a class with fields for
  the configurations, the listener table, the leases and the `nextIp`
  counter. Its methods are the constructor, `Save` (the destructor's
  writer), `AddrChanged` (`CbIdAddrChanges`), `Stop` and `Receive`. The
  reply is built in a 500-byte array, and each method is proved against
  the engine's functions.

Nothing is executed; the Dafny verifier checks every proof.

Where the design description and the code disagree, the model follows
the code. The two exceptions are the source defects listed under
"## Findings" (the broadcast-flag test at `DhcpServ.cpp:600` and the
block-list key at `DhcpServ.cpp:527`). There the engine uses the corrected
behaviour, and the code as written is modelled beside it
(`Engine.RequestDestAsWritten`, `Engine.BlockedAsWritten`) with lemmas
that say exactly when the two differ. The other disagreements are:

- Addresses come from a single wrapping 8-bit counter (`nextIp`, starting
  at 100) appended to the interface's /24 prefix. No configured range,
  exclusion list or per-interface pool is used.
- No lock serialises lease-table access; each event is handled
  atomically, one after another.
- Removing an interface closes the first listener (in map order) that has
  that address.
- A declined record does not keep its address from being handed out
  again. It only stops its own client from being served.

## Model

| member | source | states |
|---|---|---|
| Common.LexReflexive | DhcpServ.cpp:698 | the lease map's key order (lexicographic on the 16 key bytes) is reflexive |
| Common.LexTotal | DhcpServ.cpp:698 | any two keys are ordered one way or the other |
| Common.LexAntisymmetric | DhcpServ.cpp:698 | keys ordered both ways are equal |
| Common.LexTransitive | DhcpServ.cpp:698 | the key order is transitive |
| Common.LeastExists | DhcpServ.cpp:347 | a non-empty key set has a least key, where map iteration starts |
| Common.LeastUnique | DhcpServ.cpp:347 | that least key is unique |
| Common.Decimal | DhcpServ.cpp:564 | `to_string` of a non-negative number: at least one digit, no leading zero except for 0 itself |
| Common.DecimalValue | DhcpServ.cpp:330 | reading back the decimal text of n gives n |
| Common.DecimalOfValue | DhcpServ.cpp:330 | a canonical numeral is the decimal text of its own value |
| Common.DecimalCanonical | DhcpServ.cpp:357 | decimal text is always canonical |
| Common.DecimalOfByte | DhcpServ.cpp:564 | the decimal text of an 8-bit counter has one to three digits |
| Common.SignedDecimalValue | DhcpServ.cpp:330 | `stoi` of the text written for a time value gives that value back, for every sign |
| Common.NegativeDecimalValue | DhcpServ.cpp:330 | the same for negative values |
| Common.Hex2 | DhcpServ.cpp:356 | `setw(2) << hex` of a byte: two hex digits whose value is the byte |
| Common.HexChunkOfHex2 | DhcpServ.cpp:313 | `stoi(…, 16)` of the two-digit text of a byte gives the byte |
| Common.PiecesAppend | DhcpServ.cpp:260-262 | splitting `a + sep + b` at `sep` gives `a` followed by the pieces of `b` |
| Common.PiecesJoin | DhcpServ.cpp:260-262 | splitting a join of separator-free pieces gives the pieces back |
| Common.PiecesHaveNoSeparator | DhcpServ.cpp:260-262 | no split piece contains the separator |
| Common.JoinPieces | DhcpServ.cpp:260-262 | joining the split pieces gives the original text |
| Common.CutAtShape | DhcpServ.cpp:294-295 | cutting at the first comment or line-end character keeps exactly the prefix before it |
| Common.TrimRightShape | DhcpServ.cpp:304 | right trimming keeps a prefix that ends in a non-trimmed character and drops only trimmed characters |
| Common.TrimLeftShape | DhcpServ.cpp:305 | left trimming keeps a suffix that starts with a non-trimmed character and drops only trimmed characters |
| Common.TrimLeftNoop | DhcpServ.cpp:305 | text that does not start with a trimmed character is unchanged |
| Common.TrimRightNoop | DhcpServ.cpp:304 | text that does not end in a trimmed character is unchanged |
| Common.OctetOfDecimal | DhcpServ.cpp:564 | the decimal text of a byte is a valid dotted-quad part with that value |
| Common.PtonNtop | DhcpServ.cpp:129 | `inet_pton` of `inet_ntop(a)` gives `a` back |
| Common.NtopPton | DhcpServ.cpp:550 | `inet_pton(s)` yields `a` exactly when `s` is the text `inet_ntop` writes for `a` |
| Conf.TrimStringShape | ConfFile.cpp:148-155 | `TrimString` drops leading blanks/tabs and trailing blanks/tabs/CR/LF, and nothing else |
| Conf.TrimStringIdempotent | ConfFile.cpp:148-155 | trimming twice is trimming once |
| Conf.CleanLineHasNoComment | ConfFile.cpp:162-164 | a cleaned line holds no `#`, `;`, CR or LF |
| Conf.IndexOfFirst | ConfFile.cpp:182 | `find('=')` returns the first `=`, or none when there is none |
| Conf.Classify | ConfFile.cpp:166-192 | a key line is recognised only while a section is open |
| Conf.Step | ConfFile.cpp:159-192 | after any line, the open section (if any) is a section of the table |
| Conf.Apply | ConfFile.cpp:168-192 | applying one classified line keeps the open section inside the table |
| Conf.ExtendsTransitive | ConfFile.cpp:135-211 | "loading only adds" composes over successive loads |
| Conf.LoadFileExtends | ConfFile.cpp:139-208 | loading a file (with its includes) never removes a section or an entry |
| Conf.LoadLinesExtends | ConfFile.cpp:157-194 | the same for the remaining lines of a file |
| Conf.StepExtends | ConfFile.cpp:159-192 | the same for one line |
| Conf.ApplyExtends | ConfFile.cpp:168-192 | the same for one classified line |
| Conf.CommentLineIgnored | ConfFile.cpp:162-166 | a line starting with `#` or `;` changes neither the table nor the open section |
| Conf.BlankLineIgnored | ConfFile.cpp:164-166 | a line of only blanks, tabs, CR and LF changes nothing |
| Conf.DuplicateHeaderDropsKeys | ConfFile.cpp:168-181 | after a header naming an existing section (or an empty name), the key lines up to the next header are dropped |
| Conf.SkipClosedLines | ConfFile.cpp:182-187 | with no section open, key lines change nothing |
| Conf.NewHeaderCollectsKeys | ConfFile.cpp:168-187 | a header with a new name followed by key lines creates exactly that section, holding exactly those entries in order |
| Conf.CollectKeys | ConfFile.cpp:182-187 | key lines in an open section append their entries in order and add no section |
| Conf.KeyLineStep | ConfFile.cpp:182-187 | one key line appends one trimmed key/value entry to the open section |
| Conf.IncludeClosesSection | ConfFile.cpp:188-192 | an `@file` line loads that file into the table, then leaves no section open |
| Conf.KeysOf | ConfFile.cpp:66-82 | `get(section)`: each key of the section exactly once, and no other key |
| Conf.ValuesOf | ConfFile.cpp:84-101 | `get(section, key)`: exactly the values stored under that key |
| Conf.ValuesOfCount | ConfFile.cpp:93-97 | each value is returned as many times as its entry is stored, so duplicates are kept |
| Conf.LastIndex | ConfFile.cpp:103-123 | the position of the key's last entry, with no later entry for that key, or none when the key is absent |
| Conf.LastValue | ConfFile.cpp:103-123 | `getUnique` is empty exactly when the key has no value, and is otherwise the last of `get(section, key)` |
| Conf.ConfFile.constructor | ConfFile.h:37 | a new reader remembers its file name and holds no sections |
| Conf.ConfFile.LoadFile | ConfFile.cpp:135-211 | the table is cleared and then holds exactly what the line-by-line specification loads from the file |
| Conf.ConfFile.LoadRecursive | ConfFile.cpp:139-208 | the loop over one file's lines (and its includes) is the specification applied to the current table |
| Conf.ConfFile.SectionNames | ConfFile.cpp:52-64 | `get()`: exactly the section names |
| Conf.ConfFile.Keys | ConfFile.cpp:66-82 | distinct keys, exactly those in the section; empty for an unknown section |
| Conf.ConfFile.Values | ConfFile.cpp:84-101 | exactly the values stored under the key, each as often as it is stored; empty for an unknown section |
| Conf.ConfFile.GetUnique | ConfFile.cpp:103-123 | the iterator walk ends on the key's last value; empty for an unknown section or key |
| Conf.Registry.constructor | ConfFile.cpp:32 | the registry starts empty |
| Conf.Registry.GetInstance | ConfFile.cpp:34-44 | returns the registered reader for a known name, otherwise registers and returns a fresh empty reader for it; afterwards the name maps to the returned reader |
| ServerConfig.FieldOfKeyInjective | DhcpServ.cpp:249-275 | each configuration field is set by one key name only |
| ServerConfig.SetKeyFrame | DhcpServ.cpp:249-275 | setting one key leaves every other field unchanged |
| ServerConfig.ApplyKeysField | DhcpServ.cpp:242-278 | after the key loop, a field holds what its own key set, or its earlier value when the key is absent |
| ServerConfig.LeaseTimeField | DhcpServ.cpp:249-250 | the lease time is `stoi` of the key's last value taken modulo 2^32, or 0 when the key is missing |
| ServerConfig.TextFields | DhcpServ.cpp:251-269 | the address, subnet, router, DNS and domain fields are the last values of their keys |
| ServerConfig.BlockListFields | DhcpServ.cpp:257-275 | the two block lists are their keys' values split at commas, or empty |
| ServerConfig.FirstIpList | DhcpServ.cpp:257-262 | `IP_Blocked` alone yields the comma split of its value |
| ServerConfig.FirstHwList | DhcpServ.cpp:270-275 | `HW_Blocked` alone yields the comma split of its value |
| ServerConfig.FieldFromKey | DhcpServ.cpp:242-278 | every field of a section's configuration is what its key's `getUnique` value sets in a default configuration |
| ServerConfig.NoKeyNoValue | DhcpServ.cpp:244-245 | a missing key reads as empty and so leaves its field at the default |
| ServerConfig.ConfigsOfSections | DhcpServ.cpp:233-241 | a configuration exists exactly for each section that has at least one key |
| ServerConfig.BuildSection | DhcpServ.cpp:236-279 | the loop over a section's keys builds that section's configuration |
| ServerConfig.BuildConfigs | DhcpServ.cpp:232-281 | the loop over all sections builds exactly the configuration map |
| Message.ParseHeader | DhcpServ.cpp:108 | the copied header is well-formed (fields of their wire widths) |
| Message.HeaderBytes | DhcpServ.cpp:541-554 | a header image is exactly 240 bytes |
| Message.ParseHeaderBytes | DhcpServ.cpp:108 | copying a written header image back gives the same header, whatever follows |
| Message.HeaderBytesParse | DhcpServ.cpp:108 | writing a copied header gives the first 240 bytes of the buffer back |
| Message.ApplyOptionPrefix | DhcpServ.cpp:122-146 | an option reads no byte past its own data |
| Message.Decode | DhcpServ.cpp:106-155 | the decoded header is the copied header |
| Message.WalkPad | DhcpServ.cpp:121 | a pad byte advances the walk by one byte and changes nothing |
| Message.OptionAtFits | DhcpServ.cpp:112-115 | when the walk stays in bounds, an option's code, length and data fit the buffer |
| Message.WalkOption | DhcpServ.cpp:114-153 | an option stores its field and the walk continues after its declared length |
| Message.WalkEnd | DhcpServ.cpp:112 | the walk stops at the end code or at the end of the buffer |
| Message.DecodeDatagram | DhcpServ.cpp:106-155 | the decoder loop computes the decoded message |
| Message.StoreOption | DhcpServ.cpp:119-151 | the `switch` stores exactly what the option specification stores |
| Message.WalkFirst | DhcpServ.cpp:112-153 | walking over one encoded option applies it, then continues |
| Message.WalkOverEncoded | DhcpServ.cpp:112-153 | walking over encoded options and the end code applies all of them, ignoring the rest |
| Message.DecodeEncoded | DhcpServ.cpp:106-155 | decoding a header image plus encoded options gives the header with the options applied in order |
| Message.OptionSetsOneField | DhcpServ.cpp:119-151 | one option changes at most its own field |
| Message.LastOptionWins | DhcpServ.cpp:119-151 | a field holds the value of the last option with its code, or its blank value when there is none |
| Message.UnhandledOptionsIgnored | DhcpServ.cpp:125-150 | options the decoder does not store (43, 81 and unknown codes) leave the message unchanged |
| Message.DecodedFields | DhcpServ.cpp:106-155 | every stored field of a decoded datagram is the last option with its code |
| Message.HeaderUnchanged | DhcpServ.cpp:119-153 | options never change the header |
| Message.WalkKeepsHeader | DhcpServ.cpp:108-153 | the option walk never changes the header |
| Engine.HwTextAsWritten | DhcpServ.cpp:525-527 | the block-list key as the source writes it, with 3n-1 characters |
| Engine.HwText | DhcpServ.cpp:355-356 | the colon-separated two-digit hex text of the hardware address, with 3n-1 characters |
| Engine.HwTextsStart | DhcpServ.cpp:525-527 | the intended text starts with the byte's two hex digits; the written one with `'0'` and the raw byte |
| Engine.HwTextAsWrittenNeverHex | DhcpServ.cpp:525-527 | the key as written never equals the hex text of any non-empty address |
| Engine.HwTextSnoc | DhcpServ.cpp:355-356 | each further byte appends `:` and its two hex digits |
| Engine.HwTextSix | DhcpServ.cpp:355-356 | the text of a 6-byte address is six hex pairs joined by colons |
| Engine.HwBlockMissed | DhcpServ.cpp:529 | with `HW_Blocked = 00:11:22:33:44:55` that address is listed, yet the key as written is not |
| Engine.SampleText | DhcpServ.cpp:529 | the hex text of 00:11:22:33:44:55 is the block-list entry written that way |
| Engine.HwTextInjective | DhcpServ.cpp:529 | equal texts come from equal addresses, so a block-list entry names one client |
| Engine.BlockedDiffers | DhcpServ.cpp:525-529 | with the client's hex address as the only block-list entry, the corrected gate blocks it and the gate as written does not |
| Engine.HostFlags | DhcpServ.cpp:600 | the flags field read as a host-order 16-bit number is below 2^16 |
| Engine.BroadcastAsWrittenTestsSecondByte | DhcpServ.cpp:600 | the test as written is true exactly when the top bit of the second wire byte is set |
| Engine.BroadcastMissed | DhcpServ.cpp:600 | a client that sets the broadcast bit (flags 80 00) is not seen as broadcasting |
| Engine.LastIndexOf | DhcpServ.cpp:537 | `find_last_of('.')`: the last dot, or none |
| Engine.LastDotBefore | DhcpServ.cpp:537 | in `x.y` where `y` has no dot, the last dot is the one after `x` |
| Engine.NewAddressInSubnet | DhcpServ.cpp:564 | for an interface address a.b.c.d, the new address is a.b.c.n, and it parses back to those four bytes |
| Engine.Bump | DhcpServ.cpp:564 | `nextIp++` on 8 bits wraps from 255 to 0 |
| Engine.DomainOption | DhcpServ.cpp:505 | option 15 takes two bytes plus the name's length in the buffer |
| Engine.ReplyHeader | DhcpServ.cpp:544-554 | the reply header is well-formed |
| Engine.Padded | DhcpServ.cpp:578-579 | a reply is at least 300 bytes and starts with the written image |
| Engine.Own | DhcpServ.cpp:532-534 | the client's usable record is present exactly when it has a record that is not declined, and is that record |
| Engine.Emplace | DhcpServ.cpp:564 | the counter always advances; an existing key keeps its record; otherwise a new offered record with the next address and the current time is added |
| Engine.FirstWithIp | DhcpServ.cpp:647-655 | the least key (in map order) whose record has the address, or none when no record has it |
| Engine.Decline | DhcpServ.cpp:638-656 | the first record holding the declined address is marked declined; nothing else changes; an empty address changes nothing |
| Engine.Release | DhcpServ.cpp:657-667 | the client's usable record becomes released at the current time; every other record is unchanged |
| Engine.RequestMode | DhcpServ.cpp:585-594 | mode 1, 2 or 3 exactly under the source's three conditions (selecting, init-reboot, renewing), else 0 |
| Engine.RequestDest | DhcpServ.cpp:598-605 | the reply is unicast only in mode 3 without the broadcast bit |
| Engine.RequestDestAsWritten | DhcpServ.cpp:598-605 | as written: unicast only in mode 3 when the top bit of the second flags byte is clear |
| Engine.RequestDestDiffers | DhcpServ.cpp:600 | the corrected and the as-written destinations differ exactly in mode 3 when the two flags bytes disagree in their top bits |
| Engine.Discover | DhcpServ.cpp:558-582 | an existing usable record keeps the table and the counter; otherwise the counter advances; an offer is always broadcast |
| Engine.RequestPlace | DhcpServ.cpp:607-618 | only mode 1 replaces or creates a record; only the client's own key can change; the counter advances by at most one |
| Engine.Request | DhcpServ.cpp:583-637 | mode 0 changes nothing and sends nothing; modes 2 and 3 keep the counter and the key set |
| Engine.Inform | DhcpServ.cpp:668-684 | an INFORM is answered exactly when the client address is non-zero |
| Engine.Admitted | DhcpServ.cpp:462-529 | a message is served exactly when it is Ethernet, arrived on a known socket whose address is configured, and its client is not blocked |
| Engine.Handle | DhcpServ.cpp:449-692 | a message that is not admitted changes nothing and gets no reply |
| EngineProperties.EchoOptWritten | DhcpServ.cpp:496-515 | each echoed option is a well-formed option that the decoder does not store |
| EngineProperties.EchoWritten | DhcpServ.cpp:494-518 | the echo writer's output is a sequence of well-formed options |
| EngineProperties.EchoNotStored | DhcpServ.cpp:494-518 | the echoed options change no field a client decodes |
| EngineProperties.LeadWritten | DhcpServ.cpp:558-574 | server id, lease time and message type are written as three options |
| EngineProperties.LeadApplied | DhcpServ.cpp:558-574 | decoding them sets exactly the message type and server id |
| EngineProperties.PaddedDecodes | DhcpServ.cpp:576-579 | a header, options and end byte, padded to 300 bytes, decodes to the header with those options applied |
| EngineProperties.AddressReplyDecodes | DhcpServ.cpp:539-581 | an OFFER/ACK decodes to the reply header with the message type and server id |
| EngineProperties.InformReplyDecodes | DhcpServ.cpp:668-682 | an INFORM ACK decodes to the reply header with ACK and server id, and echoes the client address |
| EngineProperties.AddressReplyReads | DhcpServ.cpp:544-581 | an address reply reads as a BOOTREPLY with the request's xid, flags and hardware address, the offered address and the given type |
| EngineProperties.InformReplyReads | DhcpServ.cpp:670-682 | an INFORM reply reads as an ACK with a zero offered address and the client address echoed |
| EngineProperties.DiscoverOutcome | DhcpServ.cpp:558-582 | a usable record is re-offered unchanged; a new client gets a new offered record from the counter; a declined client bumps the counter and gets no reply |
| EngineProperties.DiscoverOffersFromCounter | DhcpServ.cpp:537-564 | a new client on a.b.c.d is offered a.b.c.nextIp |
| EngineProperties.RequestAfterOffer | DhcpServ.cpp:607-636 | selecting mode: the matching record becomes leased at the current time; a mismatching or missing one is replaced by a fresh leased address from the counter; a declined client gets nothing |
| EngineProperties.RequestKept | DhcpServ.cpp:620-636 | selecting mode with the offered address: leased now, ACK of that address, broadcast |
| EngineProperties.RequestFresh | DhcpServ.cpp:607-636 | selecting mode with another address or none: fresh leased address, counter bumped, ACK broadcast |
| EngineProperties.RequestConfirm | DhcpServ.cpp:590-636 | init-reboot and renewing: a usable record is leased now and ACKed to the mode's destination with the client address echoed; no record means no change and no reply |
| EngineProperties.RequestDestCases | DhcpServ.cpp:598-605 | the destination is broadcast exactly unless mode 3 without the broadcast bit, and then it is the client address |
| EngineProperties.ServeOthers | DhcpServ.cpp:638-684 | DECLINE and RELEASE addressed to this server mark the record and send nothing; other ones change nothing; INFORM answers with ACK to the client address exactly when it is non-zero; any other type is ignored; the counter never moves |
| EngineProperties.DiscoverEvolves | DhcpServ.cpp:558-582 | a DISCOVER adds at most the client's key, keeps the table well-formed and moves the counter by at most one |
| EngineProperties.RequestEvolves | DhcpServ.cpp:583-637 | a REQUEST changes at most the client's record and moves the counter by at most one |
| EngineProperties.DeclineEvolves | DhcpServ.cpp:638-656 | a DECLINE changes other records only by marking them declined |
| EngineProperties.ReleaseEvolves | DhcpServ.cpp:657-667 | a RELEASE changes at most the client's record |
| EngineProperties.HandleEvolves | DhcpServ.cpp:449-692 | any message keeps the table well-formed, adds at most the sender's key, moves the counter by at most one, and changes other clients' records only when declining |
| EngineProperties.HandleReplies | DhcpServ.cpp:449-692 | every reply answers an admitted DISCOVER, REQUEST or INFORM; it reads as OFFER/ACK of the client's recorded address (INFORM: ACK of none); offers are broadcast and an ACKed REQUEST leaves the record leased now |
| LeaseFile.SignedChar | DhcpServ.cpp:350 | a `char` read as signed lies in -128..127 and agrees with the byte modulo 256 |
| LeaseFile.SortedKeys | DhcpServ.cpp:347 | the writer's iteration order lists keys of the map only, as many as there are |
| LeaseFile.SortedKeysCons | DhcpServ.cpp:347 | iteration starts at the least key and continues with the rest |
| LeaseFile.SortedKeysCover | DhcpServ.cpp:347 | every key is visited |
| LeaseFile.SortedKeysAscending | DhcpServ.cpp:347 | keys are visited once each, in ascending order |
| LeaseFile.SortedKeysOrdered | DhcpServ.cpp:347 | the writer visits every key exactly once, ascending |
| LeaseFile.RecordLines | DhcpServ.cpp:347-359 | one line per visited record |
| LeaseFile.RecordLineAt | DhcpServ.cpp:347-359 | the i-th line is the i-th visited record's line |
| LeaseFile.Chunks | DhcpServ.cpp:310-314 | the reader takes pieces of one or two characters between colons |
| LeaseFile.ChunkValues | DhcpServ.cpp:313 | one byte per piece, each the piece's hex value |
| LeaseFile.HwKey | DhcpServ.cpp:309-315 | the key read from the first field is 16 bytes |
| LeaseFile.IndexOf | DhcpServ.cpp:317 | `find("=")`: the first `=`, or none |
| LeaseFile.ParseLine | DhcpServ.cpp:294-331 | a line yields a record exactly when it has five fields, with a 16-byte key |
| LeaseFile.Emplace | DhcpServ.cpp:330 | `emplace` never changes or drops an existing record |
| LeaseFile.HeaderSkipped | DhcpServ.cpp:294-307 | the header line the writer puts first is skipped by the reader |
| LeaseFile.RecordsKeepFirst | DhcpServ.cpp:330 | loading records keeps every earlier record |
| LeaseFile.LoadKeepsFirst | DhcpServ.cpp:289-333 | the first line for a key wins; later lines never change it |
| LeaseFile.RecordsAppend | DhcpServ.cpp:289-333 | loading two batches of records is loading the first, then the second |
| LeaseFile.LoadAppend | DhcpServ.cpp:289-333 | loading two runs of lines is loading the first, then the second |
| LeaseFile.ChunksOfHwText | DhcpServ.cpp:310-314 | reading the written hardware text splits it into the bytes' hex pairs |
| LeaseFile.HwTextValues | DhcpServ.cpp:310-315 | reading the written hardware text gives the bytes back |
| LeaseFile.HwKeyOfText | DhcpServ.cpp:309-315 | a key whose last ten bytes are zero is read back from its written text |
| LeaseFile.ClientIdOfText | DhcpServ.cpp:317-328 | a client id of two or more bytes is read back from its written text |
| LeaseFile.ClientIdSplit | DhcpServ.cpp:317-328 | a `d=hex` field reads as the byte of `stoi(d)` followed by the hex bytes |
| LeaseFile.TrimRightPadding | DhcpServ.cpp:304 | trailing quotes, blanks and tabs are removed |
| LeaseFile.TrimLeftPadding | DhcpServ.cpp:305 | leading quotes, blanks and tabs are removed |
| LeaseFile.TrimPadded | DhcpServ.cpp:304-305 | a field padded with them trims to the field |
| LeaseFile.CutBefore | DhcpServ.cpp:294-295 | the reader drops the `\r` the writer puts at the end of a line |
| LeaseFile.PaddedTokens | DhcpServ.cpp:298-306 | a written record line splits at commas into its five padded fields |
| LeaseFile.TrimBare | DhcpServ.cpp:304-305 | an unpadded field trims to itself |
| LeaseFile.TrimSpaced | DhcpServ.cpp:304-305 | a field after `, ` trims to itself |
| LeaseFile.TrimQuoted | DhcpServ.cpp:304-305 | the quoted client-id field trims to its content |
| LeaseFile.PaddedFields | DhcpServ.cpp:298-306 | the reader recovers the five written fields |
| LeaseFile.RecordFields | DhcpServ.cpp:298-357 | the reader recovers the hardware text, client-id text, address, flag and time that the writer wrote |
| LeaseFile.LineRoundTrip | DhcpServ.cpp:294-357 | a written record line reads back as the same key and lease |
| LeaseFile.ConcatTerminated | DhcpServ.cpp:357-358 | the file is the lines, each ended by `\n` |
| LeaseFile.PiecesOfUnlines | DhcpServ.cpp:289-292 | `getline` splits such a file into the lines and a final empty line |
| LeaseFile.RecordLineShape | DhcpServ.cpp:357 | each record line is its text plus `\r\n`, with no line break before |
| LeaseFile.RecordLinesShape | DhcpServ.cpp:347-359 | the same for every record line the writer emits |
| LeaseFile.SnapshotUnlined | DhcpServ.cpp:339-361 | the snapshot is the header and the record texts, each ended by `\n` |
| LeaseFile.SnapshotLines | DhcpServ.cpp:289-361 | `getline` reads the snapshot back as the header, the record texts and a last empty line |
| LeaseFile.LoadDistinct | DhcpServ.cpp:330 | loading records with distinct new keys adds exactly those records and keeps the rest |
| LeaseFile.BodiesParse | DhcpServ.cpp:294-331 | each record text parses to its record |
| LeaseFile.LoadEveryKey | DhcpServ.cpp:330 | loading one record per key, each key once, rebuilds the map |
| LeaseFile.EmptySkipped | DhcpServ.cpp:296 | an empty line is skipped |
| LeaseFile.ParsedFramed | DhcpServ.cpp:294-307 | lines between two skipped lines parse as they do alone |
| LeaseFile.FramedParsed | DhcpServ.cpp:294-307 | the same with the header line first and an empty line last |
| LeaseFile.RecordsFramed | DhcpServ.cpp:307-330 | skipped lines at both ends add nothing |
| LeaseFile.LoadFramed | DhcpServ.cpp:289-333 | loading the framed lines is loading the record lines |
| LeaseFile.RecordsLoad | DhcpServ.cpp:289-333 | loading the record texts gives the map back |
| LeaseFile.SnapshotRoundTrip | DhcpServ.cpp:283-361 | writing the leases at shutdown and reading them at startup gives the same leases |
| LeaseFile.WriteHwText | DhcpServ.cpp:355-356 | the writer's loop emits the hex text of the first six key bytes |
| LeaseFile.IdTailHex | DhcpServ.cpp:351-352 | the bytes after the first are written as `=` and colon-separated hex pairs |
| LeaseFile.ClientIdTextTail | DhcpServ.cpp:350-352 | the client-id text is the signed first byte in decimal followed by that tail |
| LeaseFile.WriteClientId | DhcpServ.cpp:349-352 | the writer's loop emits the client-id text |
| LeaseFile.WriteRecord | DhcpServ.cpp:349-358 | the writer emits the record's line |
| LeaseFile.ReadFields | DhcpServ.cpp:294-306 | the reader's cut, split and trim yield the fields |
| LeaseFile.HwSkip | DhcpServ.cpp:312 | a colon is skipped |
| LeaseFile.HwNext | DhcpServ.cpp:313 | a piece of one or two hex digits stores one byte and stays within 16 bytes |
| LeaseFile.ReadHwLoop | DhcpServ.cpp:309-315 | the loop fills a fresh 16-byte array with one byte per piece and zeros after them |
| LeaseFile.HwReadEnd | DhcpServ.cpp:310-314 | at the end of the field every piece has been read |
| LeaseFile.ReadHwAddr | DhcpServ.cpp:309-315 | the array holds the key the field denotes |
| LeaseFile.RewriteSkip | DhcpServ.cpp:324 | a colon in the client-id field is skipped |
| LeaseFile.RewriteNext | DhcpServ.cpp:325 | a piece becomes one more byte of the rewritten id |
| LeaseFile.RewriteEnd | DhcpServ.cpp:322-326 | at the end the rewritten bytes are the first byte and the pieces' values |
| LeaseFile.RewriteChunks | DhcpServ.cpp:321-327 | the in-string rewrite leaves the id in the first `i` characters |
| LeaseFile.DecodeClientId | DhcpServ.cpp:317-328 | the client id read from the field |
| LeaseFile.ReadRecord | DhcpServ.cpp:294-331 | the reader's handling of one line is the line parser |
| LeaseFile.RecordsSnoc | DhcpServ.cpp:330 | loading one more record is one more `emplace` |
| LeaseFile.LoadSnapshot | DhcpServ.cpp:283-336 | the reader's loop loads exactly the specified leases |
| LeaseFile.RecordLinesCons | DhcpServ.cpp:347-359 | the writer emits the first record's line and then the others' |
| LeaseFile.WriteSnapshot | DhcpServ.cpp:339-361 | the writer's loop emits exactly the snapshot: header, then one line per record in key order |
| Server.Append | DhcpServ.cpp:558-576 | writing bytes at the write position appends them and leaves the rest of the zeroed buffer zero |
| Server.AppendEcho | DhcpServ.cpp:494-518 | the echo loop appends exactly the options for the requested codes, in order |
| Server.EchoSnoc | DhcpServ.cpp:496-516 | one more requested code appends its option |
| Server.EchoPrefix | DhcpServ.cpp:496-516 | the echo of part of the list is never longer than the whole |
| Server.StartReply | DhcpServ.cpp:540-558 | a fresh zeroed 500-byte buffer holding the reply header and option 54 |
| Server.FinishReply | DhcpServ.cpp:575-579 | echo, end byte and padding complete the reply image |
| Server.WriteAddressReply | DhcpServ.cpp:569-635 | the buffer writes produce the specified OFFER/ACK |
| Server.WriteInformReply | DhcpServ.cpp:670-682 | the buffer writes produce the specified INFORM ACK |
| Server.Contains | DhcpServ.cpp:529 | the `find_if` loop finds the text exactly when it is in the list |
| Server.DhcpServer.constructor | DhcpServ.cpp:232-336 | the server starts with the configuration map, no listeners, the leases loaded from the snapshot lines and counter 100 |
| Server.DhcpServer.Save | DhcpServ.cpp:339-361 | the destructor writes the snapshot of the current leases |
| Server.DhcpServer.AddrChanged | DhcpServ.cpp:393-426 | an unconfigured address changes nothing; an added address gets a new listener entry; a removed one closes one listener on that address, or none exists; leases and counter unchanged |
| Server.DhcpServer.Stop | DhcpServ.cpp:428-436 | every listener is closed and the table is empty; nothing else changes |
| Server.DhcpServer.SocketOf | DhcpServ.cpp:465 | the listener entry of a socket exactly when the socket is in the table |
| Server.DhcpServer.Receive | DhcpServ.cpp:449-692 | leases, counter and reply are those of the engine for the decoded datagram and the socket's entry; configuration and listeners unchanged; the table evolves as `HandleEvolves` states |
| Server.DhcpServer.Dispatch | DhcpServ.cpp:558-684 | the message-type branches compute the engine's outcome |
| Server.DhcpServer.Allocate | DhcpServ.cpp:564-618 | the `emplace` with `nextIp++` is the engine's allocation |
| Server.DhcpServer.Offer | DhcpServ.cpp:558-582 | the DISCOVER branch computes the engine's DISCOVER outcome |
| Server.DhcpServer.Acknowledge | DhcpServ.cpp:583-637 | the REQUEST branch computes the engine's REQUEST outcome |
| Server.DhcpServer.DeclineAddress | DhcpServ.cpp:645-656 | the search loop marks the first record holding the address as declined |
| Server.DhcpServer.ReleaseOwn | DhcpServ.cpp:662-666 | the RELEASE branch is the engine's release |
| Server.FirstHolder | DhcpServ.cpp:647-655 | the least remaining key holding the address, with none before it, is the first holder |

## Left out

- Socket I/O becomes values. `AddrChanged` returns which socket it opened or closed. `Receive` returns the reply and its destination instead of writing it. Socket creation, `EnableBroadCast` and their errors (printed and ignored in the source) are not modelled.
- `Start`, `SetAddrNotifyCallback`, `SocketError` and `SocketCloseing` are event wiring and logging, and are not modelled.
- The order of sockets in `map<UdpSocket*, …>` is pointer order, which the program does not control. Removing an interface closes some listener with that address, chosen without a fixed order.
- `Server.DhcpServer.Stop`: the source closes and erases one socket at a time; the model empties the table from a copy.
- Tracing (`OutputDebugString`, `wcout`, `MyTrace`) is left out. It has no effect on state.
- `CheckFileLoaded` and `AreFilesModifyed` (reload on file-time change) depend on the clock and file times, so they are left out. The table is loaded once by `LoadFile`.
- The file system is a map from file name to lines; a missing file loads nothing. Include depth is bounded by a `fuel` parameter; a longer include chain is cut off there.
- `Conf.ConfFile.SectionNames`, `Conf.ConfFile.Keys`, `Conf.ConfFile.Values`: return order is not stated. Sections are an `unordered_map` and entries an `unordered_multimap`; neither iteration order is specified. So only the members are stated, with their distinctness for `Keys` and their multiplicity for `Values`.
- `Conf.ConfFile.GetUnique`: returns the last value in insertion order. The C++ standard leaves the order of equal keys in an `unordered_multimap` unspecified, and implementations differ.
- Wide-to-narrow string conversion (`wstring_convert::to_bytes`) is treated as the identity; file text is taken as already decoded characters.
- `stoi`/`stoul` throw on text that is not a number. Well-formed numbers are a precondition (`ServerConfig.AllReadable`, `LeaseFile.LinesOk`), so the exception paths are not modelled.
- `IP_From`, `IP_To` and `IP_Blocked` are loaded into the configuration but never used by the engine, as in the source.
- `Server.DhcpServer.Receive`: requires option 53 in every Ethernet datagram, because the source leaves `m_cDhcpType` uninitialised without it.
- `Server.DhcpServer.Receive`: requires that the option walk stays inside the datagram (`Decodable`). The source reads past the buffer when a length byte overruns it. This also covers the `nRead > 0` check.
- `Server.DhcpServer.Receive`: requires that the reply fits the 500-byte buffer (`Fits`); the source does not check.
- `Engine.DomainOption`: when the domain name is shorter than 15 bytes, `memcpy` copies 15 bytes, reading past the string's end. The model takes those bytes to be zero.
- `EngineProperties.AddressReplyDecodes`, `EngineProperties.InformReplyDecodes`, `EngineProperties.HandleReplies`: assume a domain name of under 256 bytes (`ShortName`), so the option's length byte is exact.
- The lease time is written through `*((long*)p) = htonl(…)`, which stores 8 bytes on LP64 hosts. The model writes the 4 bytes that the next option does not overwrite.
- The clock is an integer parameter `now` in seconds; `time_point` precision below a second is not modelled.
- `nextIp` is a `static` local in the source, shared by every server object. The model has it as a field of the one server.
- Concurrency: each event (address change, datagram, stop) runs to completion before the next one.
- `Server.DhcpServer.constructor`: the snapshot file is passed in as its lines; a missing file is an empty list.
- `Server.DhcpServer.Save`: returns the snapshot lines. The source opens the file with `ios::in`, so the write fails when the file does not exist and does not truncate a longer old file. Neither effect is modelled.
- `LeaseFile.LineRoundTrip`, `LeaseFile.SnapshotRoundTrip`: client ids shorter than 2 bytes do not survive the round trip. The writer emits no `=` for them, and the reader then keeps the decimal text. Such records are excluded by `LeaseFile.Restorable`.
- `LeaseFile.SnapshotRoundTrip`: covers keys whose last ten bytes are zero, since only six bytes are written.
- `LeaseFile.ReadHwAddr`: requires a field of under 255 characters. The source's loop counter is 8 bits: a piece starting at position 254 moves it to 255 and then wraps it to 0, and the loop never ends. It also requires at most 16 pieces, because `chaddr` has 16 bytes. A piece is always two characters (`substr(n++, 2)`), so a one-digit piece swallows the colon after it; this is modelled as written.
- `LeaseFile.ReadHwLoop`: has the same bound (in `HwRead`), so its counters `n` and `i` stay within 8 bits. A field on which the source loops forever is not modelled.
- `LeaseFile.SnapshotRoundTrip`: covers addresses without commas, quotes, blanks or comment characters, and times within the 32-bit range that `stoi` reads.
- Mode 2 of REQUEST acknowledges the client's recorded address whatever address it asked for, as in the source; no NAK is ever sent.
- `Engine.Blocked`: compares the hex text of the address (`HwText`) with the block list, which is the corrected key of the Findings row for `DhcpServ.cpp:527`. The source compares the character text (`Engine.BlockedAsWritten`), which never equals a hex entry for the same address (`Engine.BlockedDiffers`).
- `Engine.Admitted`: its gate is `Engine.Blocked`, so a client whose hex address is listed is refused, where the source serves it.
- `Engine.Handle`: inherits the gate of `Engine.Admitted` and, for REQUEST, the destination of `Engine.RequestDest`, both as corrected.
- `Server.DhcpServer.Receive`: builds the block-list key with `LeaseFile.WriteHwText` (hex), as `Engine.Blocked` does, and not with the character text of `DhcpServ.cpp:525-527`.
- `Engine.RequestDest`: tests the broadcast bit in the first flags byte, which is the corrected test of the Findings row for `DhcpServ.cpp:600`. The source's test on a little-endian host is `Engine.RequestDestAsWritten`. The two differ only in mode 3 when the flags bytes disagree in their top bits (`Engine.RequestDestDiffers`).
- `Engine.Request`: its mode-3 ACK goes to `Engine.RequestDest`'s corrected destination, not to the destination of line 600 as written.
- `Server.DhcpServer.Dispatch`: its REQUEST branch answers at `Engine.RequestDest`'s corrected destination.
- `Server.DhcpServer.Acknowledge`: answers at `Engine.RequestDest`'s corrected destination.
- The reply header is produced as one 240-byte image written into the zeroed buffer, not field by field.

## Findings

| source | as written | input that shows it | evidently intended | confidence | as-written member | corrected member |
|---|---|---|---|---|---|---|
| DhcpServ.cpp:600 | `flags & 0x8000` tests the flags field as it lies in memory, in network byte order; on a little-endian host this is the top bit of the second wire byte | a renewing REQUEST with flags bytes `80 00` (broadcast bit set) is answered by unicast to `ciaddr` | test the broadcast bit, the top bit of the first wire byte (`ntohs(flags) & 0x8000`) | not executed | Engine.BroadcastMissed | EngineProperties.RequestDestCases |
| DhcpServ.cpp:527 | `setw(2) << chaddr[n]` streams a `uint8_t` as a character, so the block-list key is `'0'` and the raw byte per position, never hex | chaddr `00:11:22:33:44:55` with `HW_Blocked = 00:11:22:33:44:55` is served | two hex digits per byte, as the snapshot writer does at line 356 with `static_cast<unsigned int>` | not executed | Engine.HwBlockMissed | Engine.HwTextInjective |
