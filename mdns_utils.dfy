/**
 * The two string parsers of the client's mDNS utilities: the TXT-record
 * key/value splitter (ServiceInfo::ParseTxtKeyValue) and the service
 * instance-name parser (mdns_parse_instance_name). Their bodies are fixed here
 * by the behaviour tables in client/mdns_utils_test.cpp; every table row is a
 * lemma below.
 */
module MdnsUtils {
  import opened Wrappers
  import opened Text

  // ----- TXT key/value -----

  datatype KeyValue = KeyValue(key: string, value: string)

  /**
   * Splits "key=value" at the first '='. Fails (None, the source's `false`
   * status) when there is no '=' or the key before it is empty; the value may
   * be empty.
   */
  function ParseTxtKeyValue(kv: string): (r: Option<KeyValue>)
    ensures r.Some? <==> '=' in kv && kv[0] != '='
    ensures r.Some? ==> && r.value.key != ""
                        && '=' !in r.value.key
                        && kv == r.value.key + "=" + r.value.value
  {
    match IndexOf(kv, '=')
    case None => None
    case Some(i) =>
      if i == 0 then None
      else
        assert kv == kv[..i] + "=" + kv[i + 1..];
        Some(KeyValue(kv[..i], kv[i + 1..]))
  }

  /** Splitting the text "key=value" of a well-formed pair gives the pair back. */
  lemma ParseTxtKeyValueRoundTrip(key: string, value: string)
    requires key != "" && '=' !in key
    ensures ParseTxtKeyValue(key + "=" + value) == Some(KeyValue(key, value))
  {
    IndexOfAfterHead(key, '=', value);
    var kv := key + "=" + value;
    assert kv[..|key|] == key && kv[|key| + 1..] == value;
  }

  lemma TxtEmptyFails() ensures ParseTxtKeyValue("") == None {}
  lemma TxtJustSplitterFails() ensures ParseTxtKeyValue("=") == None {}
  lemma TxtNoKeyFails() ensures ParseTxtKeyValue("=value") == None {}
  lemma TxtNoSplitFails() ensures ParseTxtKeyValue("keyvalue") == None {}

  lemma TxtNoValue()
    ensures ParseTxtKeyValue("key=") == Some(KeyValue("key", ""))
  {
    assert "key" + "=" + "" == "key=";
    ParseTxtKeyValueRoundTrip("key", "");
  }

  lemma TxtNormal()
    ensures ParseTxtKeyValue("key=value") == Some(KeyValue("key", "value"))
  {
    assert "key" + "=" + "value" == "key=value";
    ParseTxtKeyValueRoundTrip("key", "value");
  }

  // ----- instance names -----

  /** The parse result: instance, service and transport ("_tcp" or "_udp"). */
  datatype MdnsInstance = MdnsInstance(instanceName: string, serviceName: string, transportType: string)

  predicate IsTransport(tag: string) { tag == "_tcp" || tag == "_udp" }

  /** The text of a parsed name with a transport: instance.service.transport */
  function Render(p: MdnsInstance): string
  {
    p.instanceName + "." + p.serviceName + "." + p.transportType
  }

  /** The names that parse to three parts: non-empty instance, one non-empty service label, a transport. */
  predicate WellFormed(p: MdnsInstance)
  {
    p.instanceName != "" && p.serviceName != "" && '.' !in p.serviceName && IsTransport(p.transportType)
  }

  /** The endings a name may carry after the transport label. */
  predicate IsDomainSuffix(suffix: string)
  {
    suffix == "" || suffix == "." || suffix == ".local" || suffix == ".local."
  }

  function StripTrailingDot(s: string): string
  {
    if |s| > 0 && s[|s| - 1] == '.' then s[..|s| - 1] else s
  }

  predicate EndsWithLocal(s: string)
  {
    |s| >= 6 && s[|s| - 6..] == ".local"
  }

  /** The text after the last dot, or all of it when there is none. */
  function LastLabel(s: string): string
  {
    match LastIndex(s, '.')
    case None => s
    case Some(d) => s[d + 1..]
  }

  /**
   * Parses "instance.service.transport": the last label must be a transport,
   * and what precedes its dot is split at its own last dot into a non-empty
   * instance and a non-empty service.
   */
  function ParseService(t: string): Option<MdnsInstance>
  {
    match LastIndex(t, '.')
    case None => None
    case Some(d) =>
      if !IsTransport(t[d + 1..]) then None
      else
        var rest := t[..d];
        match LastIndex(rest, '.')
        case None => None
        case Some(e) =>
          if e == 0 || e + 1 == |rest| then None
          else Some(MdnsInstance(rest[..e], rest[e + 1..], t[d + 1..]))
  }

  /**
   * mdns_parse_instance_name: one trailing dot is ignored; a ".local" ending
   * must follow the transport label; a name with no transport label is all
   * instance.
   */
  function ParseInstanceName(name: string): Option<MdnsInstance>
  {
    var s := StripTrailingDot(name);
    if EndsWithLocal(s) then ParseService(s[..|s| - 6])
    else if IsTransport(LastLabel(s)) then ParseService(s)
    else Some(MdnsInstance(name, "", ""))
  }

  lemma ParseServiceSound(t: string)
    requires ParseService(t).Some?
    ensures WellFormed(ParseService(t).value) && t == Render(ParseService(t).value)
  {
    var d := LastIndex(t, '.').value;
    var rest := t[..d];
    var e := LastIndex(rest, '.').value;
    assert rest == rest[..e] + "." + rest[e + 1..];
    assert t == rest + "." + t[d + 1..];
  }

  lemma {:induction false} ParseServiceRendered(p: MdnsInstance)
    requires WellFormed(p)
    ensures ParseService(Render(p)) == Some(p)
  {
    var rest := p.instanceName + "." + p.serviceName;
    var t := Render(p);
    assert '.' !in p.transportType;
    LastIndexBeforeTail(rest, '.', p.transportType);
    assert t[..|rest|] == rest && t[|rest| + 1..] == p.transportType;
    LastIndexBeforeTail(p.instanceName, '.', p.serviceName);
    assert rest[..|p.instanceName|] == p.instanceName && rest[|p.instanceName| + 1..] == p.serviceName;
  }

  /** The name is its stripped text, or that text and one dot. */
  lemma StripCases(name: string)
    ensures name == StripTrailingDot(name) || name == StripTrailingDot(name) + "."
  {
  }

  /** A text ending in ".local" is the text before that ending and ".local". */
  lemma LocalSplit(s: string)
    requires EndsWithLocal(s)
    ensures s == s[..|s| - 6] + ".local" && s + "." == s[..|s| - 6] + ".local."
  {
    assert s == s[..|s| - 6] + s[|s| - 6..];
  }

  /** A successful parse of a name ending in ".local" came from a well-formed service name. */
  lemma LocalParseSound(name: string, p: MdnsInstance)
    requires EndsWithLocal(StripTrailingDot(name))
    requires ParseService(StripTrailingDot(name)[..|StripTrailingDot(name)| - 6]) == Some(p)
    ensures WellFormed(p)
    ensures name == Render(p) + ".local" || name == Render(p) + ".local."
  {
    var s := StripTrailingDot(name);
    ParseServiceSound(s[..|s| - 6]);
    LocalSplit(s);
    StripCases(name);
  }

  /** A successful parse of a name ending in its transport came from a well-formed service name. */
  lemma TransportParseSound(name: string, p: MdnsInstance)
    requires ParseService(StripTrailingDot(name)) == Some(p)
    ensures WellFormed(p)
    ensures name == Render(p) + "" || name == Render(p) + "."
  {
    ParseServiceSound(StripTrailingDot(name));
    StripCases(name);
    assert Render(p) + "" == Render(p);
  }

  /** Every successful parse with a transport took a well-formed name with one of the four endings. */
  lemma ParseInstanceNameSound(name: string)
    requires ParseInstanceName(name).Some? && ParseInstanceName(name).value.transportType != ""
    ensures WellFormed(ParseInstanceName(name).value)
    ensures exists suffix :: IsDomainSuffix(suffix) && name == Render(ParseInstanceName(name).value) + suffix
  {
    var s := StripTrailingDot(name);
    var p := ParseInstanceName(name).value;
    if EndsWithLocal(s) {
      LocalParseSound(name, p);
      if name == Render(p) + ".local" {
        assert IsDomainSuffix(".local");
      } else {
        assert IsDomainSuffix(".local.");
      }
    } else {
      TransportParseSound(name, p);
      if name == Render(p) + "" {
        assert IsDomainSuffix("");
      } else {
        assert IsDomainSuffix(".");
      }
    }
  }

  /** Every successful parse without a transport keeps the whole name as the instance. */
  lemma ParseInstanceNameBare(name: string)
    requires ParseInstanceName(name).Some? && ParseInstanceName(name).value.transportType == ""
    ensures ParseInstanceName(name) == Some(MdnsInstance(name, "", ""))
  {
  }

  /** A name whose stripped text does not end in ".local" but in a transport label parses as that text. */
  lemma TransportDispatch(name: string, s: string)
    requires StripTrailingDot(name) == s && !EndsWithLocal(s) && IsTransport(LastLabel(s))
    ensures ParseInstanceName(name) == ParseService(s)
  {
  }

  /** A text ending in a dot and a transport label ends neither in a dot nor in ".local"; its last label is the transport. */
  lemma TransportEnding(rest: string, t: string)
    requires IsTransport(t)
    ensures StripTrailingDot(rest + "." + t) == rest + "." + t
    ensures StripTrailingDot(rest + "." + t + ".") == rest + "." + t
    ensures !EndsWithLocal(rest + "." + t) && LastLabel(rest + "." + t) == t
  {
    var s := rest + "." + t;
    assert s[|s| - 1] != '.' && s[|s| - 4..] == t;
    assert (s + ".")[..|s|] == s;
    LastIndexBeforeTail(rest, '.', t);
    assert s[|rest| + 1..] == t;
  }

  /** A well-formed name parses back to its parts, with any of the four endings. */
  lemma ParseInstanceNameRendered(p: MdnsInstance, suffix: string)
    requires WellFormed(p) && IsDomainSuffix(suffix)
    ensures ParseInstanceName(Render(p) + suffix) == Some(p)
  {
    var t := Render(p);
    ParseServiceRendered(p);
    if suffix == "" {
      TransportEnding(p.instanceName + "." + p.serviceName, p.transportType);
      assert t + suffix == t;
      TransportDispatch(t, t);
    } else if suffix == "." {
      TransportEnding(p.instanceName + "." + p.serviceName, p.transportType);
      TransportDispatch(t + ".", t);
    } else {
      LocalEnding(t);
      if suffix == ".local" {
        LocalDispatch(t + ".local", t + ".local", t);
      } else {
        LocalDispatch(t + ".local.", t + ".local", t);
      }
    }
  }

  // ----- the table of client/mdns_utils_test.cpp -----

  lemma NameJustDot()
    ensures ParseInstanceName(".") == Some(MdnsInstance(".", "", ""))
  {
    assert StripTrailingDot(".") == "";
  }

  lemma NameTwoLabels()
    ensures ParseInstanceName("my.name") == Some(MdnsInstance("my.name", "", ""))
  {
    LastIndexBeforeTail("my", '.', "name");
    assert "my.name"[3..] == "name";
  }

  lemma NameTwoLabelsTrailingDot()
    ensures ParseInstanceName("my.name.") == Some(MdnsInstance("my.name.", "", ""))
  {
    assert StripTrailingDot("my.name.") == "my.name";
    LastIndexBeforeTail("my", '.', "name");
    assert "my.name"[3..] == "name";
  }

  lemma NameService(t: string)
    requires IsTransport(t)
    ensures ParseInstanceName("my.service." + t) == Some(MdnsInstance("my", "service", t))
    ensures ParseInstanceName("my.service." + t + ".") == Some(MdnsInstance("my", "service", t))
  {
    var p := MdnsInstance("my", "service", t);
    assert "my.service." + t == Render(p) + "";
    assert "my.service." + t + "." == Render(p) + ".";
    ParseInstanceNameRendered(p, "");
    ParseInstanceNameRendered(p, ".");
  }

  lemma NameDoubleDotKeepsDot(t: string)
    requires IsTransport(t)
    ensures ParseInstanceName("my..service." + t) == Some(MdnsInstance("my.", "service", t))
  {
    var p := MdnsInstance("my.", "service", t);
    assert "my..service." + t == Render(p) + "";
    ParseInstanceNameRendered(p, "");
  }

  lemma NameDottedInstance(t: string)
    requires IsTransport(t)
    ensures ParseInstanceName("my.name.service." + t + ".") == Some(MdnsInstance("my.name", "service", t))
  {
    var p := MdnsInstance("my.name", "service", t);
    assert "my.name.service." + t + "." == Render(p) + ".";
    ParseInstanceNameRendered(p, ".");
  }

  lemma NameWithLocal(t: string)
    requires IsTransport(t)
    ensures ParseInstanceName("name.service." + t + ".local") == Some(MdnsInstance("name", "service", t))
    ensures ParseInstanceName("name.service." + t + ".local.") == Some(MdnsInstance("name", "service", t))
  {
    var p := MdnsInstance("name", "service", t);
    assert "name.service." + t + ".local" == Render(p) + ".local";
    assert "name.service." + t + ".local." == Render(p) + ".local.";
    ParseInstanceNameRendered(p, ".local");
    ParseInstanceNameRendered(p, ".local.");
  }

  /** A name whose transport is preceded by `rest` and its dot fails when `rest` cannot be split. */
  lemma ServiceFailsFor(rest: string, t: string)
    requires IsTransport(t)
    requires LastIndex(rest, '.').None? || LastIndex(rest, '.').value == 0 || LastIndex(rest, '.').value + 1 == |rest|
    ensures ParseService(rest + "." + t) == None
  {
    var s := rest + "." + t;
    LastIndexBeforeTail(rest, '.', t);
    assert s[..|rest|] == rest && s[|rest| + 1..] == t;
  }

  /** The same name fails whether it ends in the transport or in the transport and one dot. */
  lemma TransportNameFails(rest: string, t: string)
    requires IsTransport(t)
    requires LastIndex(rest, '.').None? || LastIndex(rest, '.').value == 0 || LastIndex(rest, '.').value + 1 == |rest|
    ensures ParseInstanceName(rest + "." + t) == None
    ensures ParseInstanceName(rest + "." + t + ".") == None
  {
    ServiceFailsFor(rest, t);
    TransportEnding(rest, t);
    TransportDispatch(rest + "." + t, rest + "." + t);
    TransportDispatch(rest + "." + t + ".", rest + "." + t);
  }

  lemma NameTransportOnlyFails(t: string)
    requires IsTransport(t)
    ensures ParseInstanceName("." + t) == None
    ensures ParseInstanceName("." + t + ".") == None
  {
    assert "." + t == "" + "." + t;
    TransportNameFails("", t);
  }

  lemma NameNoInstanceFails(t: string)
    requires IsTransport(t)
    ensures ParseInstanceName("service." + t) == None
  {
    assert "service." + t == "service" + "." + t;
    TransportNameFails("service", t);
  }

  lemma NameEmptyInstanceFails(t: string)
    requires IsTransport(t)
    ensures ParseInstanceName(".service." + t) == None
  {
    assert ".service." + t == ".service" + "." + t;
    LastIndexBeforeTail("", '.', "service");
    assert "" + "." + "service" == ".service";
    TransportNameFails(".service", t);
  }

  lemma NameEmptyServiceFails(t: string)
    requires IsTransport(t)
    ensures ParseInstanceName("service.." + t) == None
  {
    assert "service.." + t == "service." + "." + t;
    LastIndexBeforeTail("service", '.', "");
    assert "service" + "." + "" == "service.";
    TransportNameFails("service.", t);
  }

  lemma NameEmptyServiceTrailingDotFails(t: string)
    requires IsTransport(t)
    ensures ParseInstanceName("name.service.." + t + ".") == None
  {
    assert "name.service.." + t + "." == "name.service." + "." + t + ".";
    LastIndexBeforeTail("name.service", '.', "");
    assert "name.service" + "." + "" == "name.service.";
    TransportNameFails("name.service.", t);
  }

  lemma LocalOnlyTexts()
    ensures "" + ".local" == ".local" && "" + ".local." == ".local." && "name" + ".local" == "name.local"
  {
  }

  lemma NameLocalOnlyFails()
    ensures ParseInstanceName(".local") == None
    ensures ParseInstanceName(".local.") == None
    ensures ParseInstanceName("name.local") == None
  {
    LocalOnlyTexts();
    LocalFails("");
    assert ParseService("name") == None;
    LocalFails("name");
  }

  /** The facts about a text with ".local" appended: it ends in ".local", and one trailing dot is dropped. */
  lemma LocalEnding(u: string)
    ensures EndsWithLocal(u + ".local") && (u + ".local")[..|u|] == u
    ensures StripTrailingDot(u + ".local") == u + ".local"
    ensures StripTrailingDot(u + ".local.") == u + ".local"
  {
    var s := u + ".local";
    assert s[|s| - 6..] == ".local";
    assert s[|s| - 1] == 'l';
    assert (u + ".local.")[..|s|] == s;
  }

  /** A name whose stripped text ends in ".local" parses as the text before that ending. */
  lemma LocalDispatch(name: string, s: string, u: string)
    requires |s| == |u| + 6 && StripTrailingDot(name) == s && EndsWithLocal(s) && s[..|u|] == u
    ensures ParseInstanceName(name) == ParseService(u)
  {
  }

  /** A service part that does not parse fails with either ".local" ending. */
  lemma LocalFails(u: string)
    requires ParseService(u).None?
    ensures ParseInstanceName(u + ".local") == None
    ensures ParseInstanceName(u + ".local.") == None
  {
    LocalEnding(u);
    LocalDispatch(u + ".local", u + ".local", u);
    LocalDispatch(u + ".local.", u + ".local", u);
  }

  /** A service part ending in a dot has an empty last label, which is no transport. */
  lemma EmptyLastLabel(u: string)
    ensures ParseService(u + ".") == None
  {
    var s := u + ".";
    LastIndexBeforeTail(u, '.', "");
    assert s == u + "." + "";
  }

  /** A name whose service part cannot be split fails with a ".local" ending. */
  lemma RestLocalFails(rest: string, t: string)
    requires IsTransport(t)
    requires LastIndex(rest, '.').None? || LastIndex(rest, '.').value == 0 || LastIndex(rest, '.').value + 1 == |rest|
    ensures ParseInstanceName(rest + "." + t + ".local") == None
  {
    ServiceFailsFor(rest, t);
    LocalFails(rest + "." + t);
  }

  lemma NameLocalWithoutInstanceFails(t: string)
    requires IsTransport(t)
    ensures ParseInstanceName("." + t + ".local") == None
    ensures ParseInstanceName("service." + t + ".local") == None
  {
    assert "." + t + ".local" == "" + "." + t + ".local";
    RestLocalFails("", t);
    assert "service." + t + ".local" == "service" + "." + t + ".local";
    RestLocalFails("service", t);
  }

  /** A service part ending in a dot fails with the ".local." ending. */
  lemma DotLocalFails(u: string)
    ensures ParseInstanceName(u + "." + ".local.") == None
  {
    EmptyLastLabel(u);
    LocalFails(u + ".");
  }

  /** A name whose service part cannot be split fails with a ".local." ending. */
  lemma RestLocalDotFails(rest: string, t: string)
    requires IsTransport(t)
    requires LastIndex(rest, '.').None? || LastIndex(rest, '.').value == 0 || LastIndex(rest, '.').value + 1 == |rest|
    ensures ParseInstanceName(rest + "." + t + ".local.") == None
  {
    ServiceFailsFor(rest, t);
    LocalFails(rest + "." + t);
  }

  lemma MisplacedShapes(t: string)
    ensures "name.service." + t + "..local." == "name.service." + t + "." + ".local."
    ensures "name.service.." + t + ".local." == "name.service." + "." + t + ".local."
    ensures LastIndex("name.service.", '.') == Some(12)
  {
    LastIndexBeforeTail("name.service", '.', "");
    assert "name.service" + "." + "" == "name.service.";
  }

  lemma NameMisplacedLocalFails(t: string)
    requires IsTransport(t)
    ensures ParseInstanceName("name.service." + t + "..local.") == None
    ensures ParseInstanceName("name.service.." + t + ".local.") == None
  {
    MisplacedShapes(t);
    DotLocalFails("name.service." + t);
    RestLocalDotFails("name.service.", t);
  }
}
