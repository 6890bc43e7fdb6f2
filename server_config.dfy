/** The per-interface settings the server reads from its configuration
    file: one `CONFIG` record for every section that has at least one key,
    keyed by the section name (the interface address). */
module ServerConfig {
  import opened Common
  import opened Conf

  /** `CONFIG`. */
  datatype Config = Config(
    leaseTime: uint32,
    ipFrom: string,
    ipTo: string,
    subnet: string,
    ipBlocked: seq<string>,
    router: string,
    dns: string,
    domainName: string,
    hwBlocked: seq<string>)

  /** `CONFIG()`: value-initialised, every number 0 and every text empty. */
  const Default := Config(0, "", "", "", [], "", "", "", [])

  const INT_MIN: int := -0x8000_0000
  const INT_MAX: int := 0x7fff_ffff

  /** A value `stoi` reads whole and without overflow. */
  predicate IsIntText(v: string)
  {
    IsSignedNumeral(v) && INT_MIN <= SignedValue(v) <= INT_MAX
  }

  /** What the mapping needs of a value it reads: only `LeaseTime` goes
      through `stoi`. */
  predicate Readable(key: string, value: string)
  {
    key == "LeaseTime" && value != "" ==> IsIntText(value)
  }

  /** The field a key name selects; names are matched exactly. */
  datatype ConfigField = LeaseTime | IpFrom | IpTo | Subnet | IpBlocked | Router | Dns | DomainName | HwBlocked | Ignored

  function FieldOfKey(key: string): ConfigField
  {
    if key == "LeaseTime" then LeaseTime
    else if key == "IP_From" then IpFrom
    else if key == "IP_To" then IpTo
    else if key == "Subnet" then Subnet
    else if key == "IP_Blocked" then IpBlocked
    else if key == "Router_IP" then Router
    else if key == "DNS_IP" then Dns
    else if key == "DomainName" then DomainName
    else if key == "HW_Blocked" then HwBlocked
    else Ignored
  }

  /** Only unknown names share a field. */
  lemma FieldOfKeyInjective(a: string, b: string)
    requires FieldOfKey(a) == FieldOfKey(b) != Ignored
    ensures a == b
  {
  }

  /** A non-empty value stored into a field: `LeaseTime` is the number cut
      to 32 bits, the two block lists get the comma-separated pieces
      appended, the other fields take the text. */
  function SetField(c: Config, f: ConfigField, value: string): Config
    requires f == LeaseTime ==> IsIntText(value)
  {
    match f
    case LeaseTime => c.(leaseTime := SignedValue(value) % 0x1_0000_0000)
    case IpFrom => c.(ipFrom := value)
    case IpTo => c.(ipTo := value)
    case Subnet => c.(subnet := value)
    case IpBlocked => c.(ipBlocked := c.ipBlocked + Tokens(value, ','))
    case Router => c.(router := value)
    case Dns => c.(dns := value)
    case DomainName => c.(domainName := value)
    case HwBlocked => c.(hwBlocked := c.hwBlocked + Tokens(value, ','))
    case Ignored => c
  }

  /** One key of a section applied to the record: an empty value changes
      nothing, an unknown key is ignored. */
  function SetKey(c: Config, key: string, value: string): Config
    requires Readable(key, value)
  {
    if value == "" then c else SetField(c, FieldOfKey(key), value)
  }

  /** A section the mapping can read: its `LeaseTime`, if set, is a number. */
  predicate SectionReadable(e: Entries)
  {
    Readable("LeaseTime", UniqueValue(e, "LeaseTime"))
  }

  /** The keys applied in order, each with the value `getUnique` gives. */
  function ApplyKeys(c: Config, keys: seq<string>, e: Entries): Config
    requires SectionReadable(e)
    decreases |keys|
  {
    if keys == [] then c
    else ApplyKeys(SetKey(c, keys[0], UniqueValue(e, keys[0])), keys[1..], e)
  }

  /** The record of one section. */
  function SectionConfig(e: Entries): Config
    requires SectionReadable(e)
  {
    ApplyKeys(Default, KeysOf(e), e)
  }

  predicate AllReadable(t: Sections)
  {
    forall n :: n in t ==> SectionReadable(t[n])
  }

  /** `m_maConfig` as the constructor fills it. */
  function ConfigsOf(t: Sections): map<string, Config>
    requires AllReadable(t)
  {
    map n | n in t && KeysOf(t[n]) != [] :: SectionConfig(t[n])
  }

  // ---------------------------------------------------------------------
  // What each field ends up holding
  // ---------------------------------------------------------------------

  /** A field's value. */
  datatype Setting = Number(n: uint32) | Text(s: string) | List(l: seq<string>) | Unused

  function SettingOf(c: Config, f: ConfigField): Setting
  {
    match f
    case LeaseTime => Number(c.leaseTime)
    case IpFrom => Text(c.ipFrom)
    case IpTo => Text(c.ipTo)
    case Subnet => Text(c.subnet)
    case IpBlocked => List(c.ipBlocked)
    case Router => Text(c.router)
    case Dns => Text(c.dns)
    case DomainName => Text(c.domainName)
    case HwBlocked => List(c.hwBlocked)
    case Ignored => Unused
  }

  /** Applying a key sets its own field and no other. */
  lemma SetKeyFrame(c: Config, key: string, value: string, f: ConfigField)
    requires Readable(key, value) && f != FieldOfKey(key)
    ensures SettingOf(SetKey(c, key, value), f) == SettingOf(c, f)
  {
  }

  /** Applying distinct keys: every field is set by its own key alone, or
      keeps its value when its key is not among them. */
  lemma {:induction false} ApplyKeysField(c: Config, keys: seq<string>, e: Entries, key: string)
    requires SectionReadable(e)
    requires forall i, j :: 0 <= i < j < |keys| ==> keys[i] != keys[j]
    requires FieldOfKey(key) != Ignored
    ensures SettingOf(ApplyKeys(c, keys, e), FieldOfKey(key)) ==
      if key in keys then SettingOf(SetKey(c, key, UniqueValue(e, key)), FieldOfKey(key)) else SettingOf(c, FieldOfKey(key))
    decreases |keys|
  {
    if keys != [] {
      var k := keys[0];
      var c' := SetKey(c, k, UniqueValue(e, k));
      DistinctTail(keys);
      ApplyKeysField(c', keys[1..], e, key);
      if key == k {
        DistinctTail(keys);
      } else {
        if FieldOfKey(k) == FieldOfKey(key) {
          FieldOfKeyInjective(k, key);
        }
        SetKeyFrame(c, k, UniqueValue(e, k), FieldOfKey(key));
        assert keys == [k] + keys[1..];
      }
    }
  }

  /** The tail of a list of distinct keys is distinct and lacks the head. */
  lemma DistinctTail(keys: seq<string>)
    requires |keys| > 0
    requires forall i, j :: 0 <= i < j < |keys| ==> keys[i] != keys[j]
    ensures forall i, j :: 0 <= i < j < |keys[1..]| ==> keys[1..][i] != keys[1..][j]
    ensures keys[0] !in keys[1..]
  {
    forall i | 0 <= i < |keys[1..]| ensures keys[1..][i] != keys[0] {
      assert keys[1..][i] == keys[i + 1];
    }
  }

  /** A section's `LeaseTime` is the last value of its key read as a
      number and cut to 32 bits, or 0 when that value is empty or absent. */
  lemma LeaseTimeField(e: Entries)
    requires SectionReadable(e)
    ensures var lease := UniqueValue(e, "LeaseTime");
            SectionConfig(e).leaseTime == if lease == "" then 0 else SignedValue(lease) % 0x1_0000_0000
  {
    FieldFromKey(e, "LeaseTime");
  }

  /** The text fields of a section's record are the last values of their
      keys (`getUnique`), empty when a key is absent. */
  lemma TextFields(e: Entries)
    requires SectionReadable(e)
    ensures var c := SectionConfig(e);
            && c.ipFrom == UniqueValue(e, "IP_From")
            && c.ipTo == UniqueValue(e, "IP_To")
            && c.subnet == UniqueValue(e, "Subnet")
            && c.router == UniqueValue(e, "Router_IP")
            && c.dns == UniqueValue(e, "DNS_IP")
            && c.domainName == UniqueValue(e, "DomainName")
  {
    FieldFromKey(e, "IP_From");
    FieldFromKey(e, "IP_To");
    FieldFromKey(e, "Subnet");
    FieldFromKey(e, "Router_IP");
    FieldFromKey(e, "DNS_IP");
    FieldFromKey(e, "DomainName");
  }

  /** The block lists of a section's record are the comma-separated pieces
      of the last values of their keys, empty when a value is empty. */
  lemma BlockListFields(e: Entries)
    requires SectionReadable(e)
    ensures var ips := UniqueValue(e, "IP_Blocked");
            SectionConfig(e).ipBlocked == if ips == "" then [] else Tokens(ips, ',')
    ensures var hws := UniqueValue(e, "HW_Blocked");
            SectionConfig(e).hwBlocked == if hws == "" then [] else Tokens(hws, ',')
  {
    FieldFromKey(e, "IP_Blocked");
    FirstIpList(UniqueValue(e, "IP_Blocked"));
    FieldFromKey(e, "HW_Blocked");
    FirstHwList(UniqueValue(e, "HW_Blocked"));
  }

  /** A block list set on the initial record holds just the value's pieces. */
  lemma FirstIpList(v: string)
    ensures SetKey(Default, "IP_Blocked", v).ipBlocked == if v == "" then [] else Tokens(v, ',')
  {
    var t := Tokens(v, ',');
    assert [] + t == t;
  }

  lemma FirstHwList(v: string)
    ensures SetKey(Default, "HW_Blocked", v).hwBlocked == if v == "" then [] else Tokens(v, ',')
  {
    var t := Tokens(v, ',');
    assert [] + t == t;
  }

  /** A section's record holds, in the field of `key`, what applying the
      key's last value to the initial record puts there. */
  lemma FieldFromKey(e: Entries, key: string)
    requires SectionReadable(e)
    requires FieldOfKey(key) != Ignored
    ensures SettingOf(SectionConfig(e), FieldOfKey(key)) == SettingOf(SetKey(Default, key, UniqueValue(e, key)), FieldOfKey(key))
  {
    ApplyKeysField(Default, KeysOf(e), e, key);
    if key !in KeysOf(e) {
      NoKeyNoValue(e, key);
    }
  }

  /** A key no entry has has the empty value. */
  lemma NoKeyNoValue(e: Entries, key: string)
    requires key !in KeysOf(e)
    ensures UniqueValue(e, key) == ""
  {
  }

  /** The mapping keeps exactly the sections with at least one entry. */
  lemma ConfigsOfSections(t: Sections)
    requires AllReadable(t)
    ensures forall n :: n in ConfigsOf(t) <==> n in t && |t[n]| > 0
  {
    forall n | n in t
      ensures KeysOf(t[n]) != [] <==> |t[n]| > 0
    {
      if |t[n]| > 0 {
        assert t[n][0].0 in KeysOf(t[n]);
      }
    }
  }

  /** The constructor's inner loop: a value-initialised record filled key
      by key from `getUnique`. */
  method BuildSection(conf: ConfFile, n: string) returns (c: Config)
    requires n in conf.sections && SectionReadable(conf.sections[n])
    ensures c == SectionConfig(conf.sections[n])
  {
    var keys := conf.Keys(n);
    c := Default;
    var j := 0;
    while j < |keys|
      invariant 0 <= j <= |keys|
      invariant ApplyKeys(c, keys[j..], conf.sections[n]) == SectionConfig(conf.sections[n])
      decreases |keys| - j
    {
      var value := conf.GetUnique(n, keys[j]);
      assert keys[j..] == [keys[j]] + keys[j + 1..];
      c := SetKey(c, keys[j], value);
      j := j + 1;
    }
  }

  /** The constructor's loop over `get()`: every section that has keys gets
      its record. */
  method BuildConfigs(conf: ConfFile) returns (configs: map<string, Config>)
    requires AllReadable(conf.sections)
    ensures configs == ConfigsOf(conf.sections)
  {
    var names := conf.SectionNames();
    configs := map[];
    while names != {}
      invariant names <= conf.sections.Keys
      invariant forall n :: n in configs <==> n in conf.sections && n !in names && KeysOf(conf.sections[n]) != []
      invariant forall n :: n in configs ==> configs[n] == SectionConfig(conf.sections[n])
      decreases names
    {
      var n :| n in names;
      names := names - {n};
      var keys := conf.Keys(n);
      if |keys| > 0 && n !in configs {
        var c := BuildSection(conf, n);
        configs := configs[n := c];
      }
    }
  }
}
