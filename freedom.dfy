/** The freedom outbound's configuration builder: the operator's raw
    `FreedomConfig` (strings as written in the JSON document) is validated
    and normalised into the `Config` message the outbound runs with.

    The specification is given by pure functions (`BuildSpec` and the
    functions it calls); `FreedomConfig.Build`, `BuildFragment` and
    `ParseNoise` are the step-by-step procedures, each proved to compute
    its specification function. */
module Freedom {
  import opened Wrappers
  import opened GoStd
  import opened Codec

  // ---------------------------------------------------------------------
  // The built configuration (package freedom's messages)

  datatype DomainStrategy =
    | AsIs | UseIp | UseIp4 | UseIp6 | UseIp46 | UseIp64
    | ForceIp | ForceIp4 | ForceIp6 | ForceIp46 | ForceIp64

  datatype FragmentConfig = FragmentConfig(
    packetsFrom: uint64, packetsTo: uint64,
    lengthMin: uint64, lengthMax: uint64,
    intervalMin: uint64, intervalMax: uint64,
    fakeHost: bool,
    host1Header: string, host1Domain: string,
    host2Header: string, host2Domain: string)

  datatype NoiseConfig = NoiseConfig(
    lengthMin: uint64, lengthMax: uint64,
    delayMin: uint64, delayMax: uint64,
    countMin: uint64, countMax: uint64,
    packet: seq<byte>)

  /** v2net.IPOrDomain: what ParseAddress makes of a host. */
  datatype IPOrDomain = Ip(ip: seq<byte>) | Domain(domain: string)

  type Port = x: int | 0 <= x < 0x1_0000

  datatype DestinationOverride = DestinationOverride(address: Option<IPOrDomain>, port: uint32)

  datatype Config = Config(
    domainStrategy: DomainStrategy,
    destinationOverride: Option<DestinationOverride>,
    userLevel: uint32,
    fragment: Option<FragmentConfig>,
    proxyProtocol: uint32,
    noises: seq<NoiseConfig>,
    noiseKeepAlive: uint32)

  /** Freshly allocated messages: every field at its zero value. */
  const NewFragment := FragmentConfig(0, 0, 0, 0, 0, 0, false, "", "", "", "")
  const NewNoise := NoiseConfig(0, 0, 0, 0, 0, 0, [])
  const NewConfig := Config(AsIs, None, 0, None, 0, [], 0)

  const DefaultHost1Header := "Host : "
  const DefaultHost1Domain := "cloudflare.com"
  const DefaultHost2Header := "Host:   "
  const DefaultHost2Domain := "cloudflare.com"

  /** The failures Build reports, one kind per distinct error it returns;
      the two that embed the operator's string carry it. */
  datatype Error =
    | UnsupportedDomainStrategy(strategy: string)
    | InvalidPacketsFrom | InvalidPacketsTo | PacketsFromZero
    | LengthEmpty | InvalidLengthMin | InvalidLengthMax | LengthMinZero
    | IntervalEmpty | InvalidIntervalMin | InvalidIntervalMax
    | NoiseRemoved
    | InvalidRandLength | RandLengthZero | InvalidHex | InvalidBase64 | UnsupportedNoiseType
    | InvalidRedirectAddress(redirect: string) | InvalidRedirectPort(redirect: string)

  /** The collaborators whose code is not part of this model, as total
      functions: net.SplitHostPort, v2net.PortFromString (its result is a
      16-bit port by type), v2net.NewIPOrDomain(v2net.ParseAddress(host)),
      and conf.ParseRangeString (Go `int`s). */
  datatype Env = Env(
    splitHostPort: string -> Option<(string, string)>,
    portFromString: string -> Option<Port>,
    parseAddress: string -> IPOrDomain,
    parseRangeString: string -> Option<(int64, int64)>)

  // ---------------------------------------------------------------------
  // The raw configuration

  datatype Int32Range = Int32Range(from: int32, to: int32)

  datatype Fragment = Fragment(
    packets: string, length: string, interval: string,
    host1Header: string, host1Domain: string,
    host2Header: string, host2Domain: string)

  /** The value of a Noise entry at one moment. */
  datatype NoiseSettings = NoiseSettings(
    typ: string, packet: string, delay: Option<Int32Range>, count: Option<Int32Range>)

  /** A noise entry, held by pointer: ParseNoise writes the trimmed packet
      back into it. */
  class Noise {
    var typ: string
    var packet: string
    var delay: Option<Int32Range>
    var count: Option<Int32Range>

    function Settings(): NoiseSettings
      reads this
    {
      NoiseSettings(typ, packet, delay, count)
    }
  }

  function NoiseValues(ns: seq<Noise>): (r: seq<NoiseSettings>)
    reads set n | n in ns
    ensures |r| == |ns|
    ensures forall i :: 0 <= i < |ns| ==> r[i] == ns[i].Settings()
  {
    if ns == [] then [] else [ns[0].Settings()] + NoiseValues(ns[1..])
  }

  /** The value of a FreedomConfig at one moment; of the removed `noise`
      field only its presence matters. */
  datatype FreedomSettings = FreedomSettings(
    domainStrategy: string, redirect: string, userLevel: uint32,
    fragment: Option<Fragment>, hasNoise: bool, noises: seq<NoiseSettings>,
    noiseKeepAlive: uint32, proxyProtocol: uint32)

  // ---------------------------------------------------------------------
  // Specification

  function StrategyOf(s: string): Result<DomainStrategy, Error> {
    var k := ToLower(s);
    if k == "asis" || k == "" then Success(AsIs)
    else if k == "useip" then Success(UseIp)
    else if k == "useipv4" then Success(UseIp4)
    else if k == "useipv6" then Success(UseIp6)
    else if k == "useipv4v6" then Success(UseIp46)
    else if k == "useipv6v4" then Success(UseIp64)
    else if k == "forceip" then Success(ForceIp)
    else if k == "forceipv4" then Success(ForceIp4)
    else if k == "forceipv6" then Success(ForceIp6)
    else if k == "forceipv4v6" then Success(ForceIp46)
    else if k == "forceipv6v4" then Success(ForceIp64)
    else Failure(UnsupportedDomainStrategy(s))
  }

  datatype Bounds = Bounds(min: uint64, max: uint64)

  datatype RangeError = MinInvalid | MaxInvalid

  /** The "N" / "N-M" shape shared by packets, length and interval: split on
      '-', parse the first (and, with exactly two pieces, the second) piece
      as unsigned decimal, and order the pair. */
  function ParseRange(s: string): (r: Result<Bounds, RangeError>)
    ensures r.Success? ==> r.value.min <= r.value.max
  {
    var parts := Split(s, '-');
    if |parts| == 2 then
      match (ParseUint(parts[0]), ParseUint(parts[1]))
      case (None, _) => Failure(MinInvalid)
      case (_, None) => Failure(MaxInvalid)
      case (Some(a), Some(b)) => Success(if a <= b then Bounds(a, b) else Bounds(b, a))
    else
      match ParseUint(parts[0])
      case None => Failure(MinInvalid)
      case Some(a) => Success(Bounds(a, a))
  }

  datatype PacketsMode = PacketsMode(from: uint64, to: uint64, fakeHost: bool)

  function PacketsSpec(packets: string): Result<PacketsMode, Error> {
    var k := ToLower(packets);
    if k == "tlshello" then Success(PacketsMode(0, 1, false))
    else if k == "fakehost" then Success(PacketsMode(1, 1, true))
    else if k == "" then Success(PacketsMode(0, 0, false))
    else
      match ParseRange(packets)
      case Failure(MinInvalid) => Failure(InvalidPacketsFrom)
      case Failure(MaxInvalid) => Failure(InvalidPacketsTo)
      case Success(b) => if b.min == 0 then Failure(PacketsFromZero) else Success(PacketsMode(b.min, b.max, false))
  }

  function LengthSpec(length: string): Result<Bounds, Error> {
    if length == "" then Failure(LengthEmpty)
    else
      match ParseRange(length)
      case Failure(MinInvalid) => Failure(InvalidLengthMin)
      case Failure(MaxInvalid) => Failure(InvalidLengthMax)
      case Success(b) => if b.min == 0 then Failure(LengthMinZero) else Success(b)
  }

  function IntervalSpec(interval: string): Result<Bounds, Error> {
    if interval == "" then Failure(IntervalEmpty)
    else
      match ParseRange(interval)
      case Failure(MinInvalid) => Failure(InvalidIntervalMin)
      case Failure(MaxInvalid) => Failure(InvalidIntervalMax)
      case Success(b) => Success(b)
  }

  function OrDefault(value: string, default: string): string {
    if value == "" then default else value
  }

  function FragmentSpec(f: Fragment): Result<FragmentConfig, Error> {
    var p :- PacketsSpec(f.packets);
    var length :- LengthSpec(f.length);
    var interval :- IntervalSpec(f.interval);
    Success(FragmentConfig(
      p.from, p.to, length.min, length.max, interval.min, interval.max, p.fakeHost,
      OrDefault(f.host1Header, DefaultHost1Header), OrDefault(f.host1Domain, DefaultHost1Domain),
      OrDefault(f.host2Header, DefaultHost2Header), OrDefault(f.host2Domain, DefaultHost2Domain)))
  }

  /** The payload part of a noise entry, from its trimmed packet. */
  function PayloadSpec(typ: string, packet: string, env: Env): Result<NoiseConfig, Error> {
    if typ == "rand" then
      match env.parseRangeString(packet)
      case None => Failure(InvalidRandLength)
      case Some((lo, hi)) =>
        if Int64ToUint64(lo) == 0 then Failure(RandLengthZero)
        else Success(NewNoise.(lengthMin := Int64ToUint64(lo), lengthMax := Int64ToUint64(hi)))
    else if typ == "str" then Success(NewNoise.(packet := Utf8(packet)))
    else if typ == "hex" then
      match HexDecode(packet)
      case None => Failure(InvalidHex)
      case Some(b) => Success(NewNoise.(packet := b))
    else if typ == "base64" then
      match Base64UrlDecode(ToUrlAlphabet(packet))
      case None => Failure(InvalidBase64)
      case Some(b) => Success(NewNoise.(packet := b))
    else Failure(UnsupportedNoiseType)
  }

  /** The delay and count ranges of an entry, when present, copied with
      Go's int-to-uint64 conversion. */
  function WithRanges(c: NoiseConfig, delay: Option<Int32Range>, count: Option<Int32Range>): NoiseConfig {
    var c := if delay.Some? then
        c.(delayMin := Int64ToUint64(delay.value.from), delayMax := Int64ToUint64(delay.value.to))
      else c;
    if count.Some? then
      c.(countMin := Int64ToUint64(count.value.from), countMax := Int64ToUint64(count.value.to))
    else c
  }

  function NoiseSpec(typ: string, trimmed: string, delay: Option<Int32Range>, count: Option<Int32Range>, env: Env): Result<NoiseConfig, Error> {
    match PayloadSpec(typ, trimmed, env)
    case Failure(e) => Failure(e)
    case Success(c) => Success(WithRanges(c, delay, count))
  }

  /** ParseNoise trims the packet, then decodes it. */
  function ParseNoiseSpec(n: NoiseSettings, env: Env): Result<NoiseConfig, Error> {
    NoiseSpec(n.typ, TrimSpace(n.packet), n.delay, n.count, env)
  }

  /** Every entry decoded on its own, in list order. */
  function NoiseResults(ns: seq<NoiseSettings>, env: Env): (rs: seq<Result<NoiseConfig, Error>>)
    ensures |rs| == |ns|
  {
    if ns == [] then [] else NoiseResults(ns[..|ns| - 1], env) + [ParseNoiseSpec(ns[|ns| - 1], env)]
  }

  /** The values of a list of results in order, or its first failure. */
  function Collect(rs: seq<Result<NoiseConfig, Error>>): Result<seq<NoiseConfig>, Error> {
    if rs == [] then Success([])
    else
      var init :- Collect(rs[..|rs| - 1]);
      var last :- rs[|rs| - 1];
      Success(init + [last])
  }

  /** How many results Collect looks at: all of them, or up to and
      including the first failure. */
  function CollectedCount(rs: seq<Result<NoiseConfig, Error>>): (k: nat)
    ensures k <= |rs|
  {
    if rs == [] then 0
    else if Collect(rs[..|rs| - 1]).Failure? then CollectedCount(rs[..|rs| - 1])
    else |rs|
  }

  /** The `noises` list decoded in order; the first failure is the result. */
  function ParseNoises(ns: seq<NoiseSettings>, env: Env): Result<seq<NoiseConfig>, Error> {
    Collect(NoiseResults(ns, env))
  }

  /** How many entries are handed to ParseNoise. */
  function ParsedCount(ns: seq<NoiseSettings>, env: Env): (k: nat)
    ensures k <= |ns|
  {
    CollectedCount(NoiseResults(ns, env))
  }

  function RedirectSpec(redirect: string, env: Env): Result<Option<DestinationOverride>, Error> {
    if |redirect| == 0 then Success(None)
    else
      match env.splitHostPort(redirect)
      case None => Failure(InvalidRedirectAddress(redirect))
      case Some((host, portStr)) =>
        match env.portFromString(portStr)
        case None => Failure(InvalidRedirectPort(redirect))
        case Some(port) =>
          Success(Some(DestinationOverride(if |host| > 0 then Some(env.parseAddress(host)) else None, port)))
  }

  function ProxyProtocolOf(p: uint32): uint32 {
    if 0 < p <= 2 then p else 0
  }

  function BuildSpec(c: FreedomSettings, env: Env): Result<Config, Error> {
    var strategy :- StrategyOf(c.domainStrategy);
    var fragment :- if c.fragment.None? then Success(None)
      else
        var f :- FragmentSpec(c.fragment.value);
        Success(Some(f));
    if c.hasNoise then Failure(NoiseRemoved)
    else
      var noises :- ParseNoises(c.noises, env);
      var destination :- RedirectSpec(c.redirect, env);
      Success(Config(strategy, destination, c.userLevel, fragment,
                     ProxyProtocolOf(c.proxyProtocol), noises, c.noiseKeepAlive))
  }

  /** How many noise entries Build hands to ParseNoise (which trims them in
      place): none when an earlier check fails. */
  function NoisesVisited(c: FreedomSettings, env: Env): (k: nat)
    ensures k <= |c.noises|
  {
    if StrategyOf(c.domainStrategy).Failure? then 0
    else if c.fragment.Some? && FragmentSpec(c.fragment.value).Failure? then 0
    else if c.hasNoise then 0
    else ParsedCount(c.noises, env)
  }

  // ---------------------------------------------------------------------
  // Facts about the noise specification that the procedures need

  /** Once a prefix fails, the whole list fails the same way. */
  lemma {:induction false} CollectPrefixFailure(rs: seq<Result<NoiseConfig, Error>>, k: nat)
    requires k <= |rs|
    requires Collect(rs[..k]).Failure?
    ensures Collect(rs) == Collect(rs[..k])
    ensures CollectedCount(rs) == CollectedCount(rs[..k])
  {
    if k < |rs| {
      var init := rs[..|rs| - 1];
      assert init[..k] == rs[..k];
      CollectPrefixFailure(init, k);
    } else {
      assert rs[..k] == rs;
    }
  }

  /** One more result: a successful prefix is extended by its value, or the
      list ends with its failure. */
  lemma CollectStep(rs: seq<Result<NoiseConfig, Error>>, i: nat)
    requires i < |rs|
    requires Collect(rs[..i]).Success?
    ensures rs[i].Failure? ==> Collect(rs) == Failure(rs[i].error) && CollectedCount(rs) == i + 1
    ensures rs[i].Success? ==> Collect(rs[..i + 1]) == Success(Collect(rs[..i]).value + [rs[i].value])
  {
    var p := rs[..i + 1];
    assert p[..|p| - 1] == rs[..i];
    if rs[i].Failure? {
      CollectPrefixFailure(rs, i + 1);
    }
  }

  lemma CollectedCountAll(rs: seq<Result<NoiseConfig, Error>>)
    requires Collect(rs).Success?
    ensures CollectedCount(rs) == |rs|
  {
  }

  /** The i-th result is the i-th entry decoded. */
  lemma {:induction false} NoiseResultsAt(ns: seq<NoiseSettings>, i: nat, env: Env)
    requires i < |ns|
    ensures NoiseResults(ns, env)[i] == ParseNoiseSpec(ns[i], env)
  {
    if i < |ns| - 1 {
      NoiseResultsAt(ns[..|ns| - 1], i, env);
    }
  }

  lemma NoiseResultsAll(ns: seq<NoiseSettings>, env: Env)
    ensures forall j {:trigger ParseNoiseSpec(ns[j], env)} :: 0 <= j < |ns| ==>
      ParseNoiseSpec(ns[j], env) == NoiseResults(ns, env)[j]
  {
    forall j | 0 <= j < |ns|
      ensures ParseNoiseSpec(ns[j], env) == NoiseResults(ns, env)[j]
    {
      NoiseResultsAt(ns, j, env);
    }
  }

  /** BuildSpec checks in a fixed order and stops at the first failure:
      domain strategy, fragment, the removed `noise` field, `noises`,
      redirect; the proxy protocol never fails. */
  lemma BuildSpecOrder(c: FreedomSettings, env: Env)
    ensures StrategyOf(c.domainStrategy).Failure? ==>
      BuildSpec(c, env) == Failure(StrategyOf(c.domainStrategy).error)
    ensures StrategyOf(c.domainStrategy).Success? && c.fragment.Some? && FragmentSpec(c.fragment.value).Failure? ==>
      BuildSpec(c, env) == Failure(FragmentSpec(c.fragment.value).error)
    ensures StrategyOf(c.domainStrategy).Success? && (c.fragment.Some? ==> FragmentSpec(c.fragment.value).Success?) ==>
      (c.hasNoise ==> BuildSpec(c, env) == Failure(NoiseRemoved)) &&
      (!c.hasNoise && ParseNoises(c.noises, env).Failure? ==>
        BuildSpec(c, env) == Failure(ParseNoises(c.noises, env).error)) &&
      (!c.hasNoise && ParseNoises(c.noises, env).Success? && RedirectSpec(c.redirect, env).Failure? ==>
        BuildSpec(c, env) == Failure(RedirectSpec(c.redirect, env).error)) &&
      (!c.hasNoise && ParseNoises(c.noises, env).Success? && RedirectSpec(c.redirect, env).Success? ==>
        BuildSpec(c, env) == Success(Config(
          StrategyOf(c.domainStrategy).value, RedirectSpec(c.redirect, env).value, c.userLevel,
          if c.fragment.Some? then Some(FragmentSpec(c.fragment.value).value) else None,
          ProxyProtocolOf(c.proxyProtocol), ParseNoises(c.noises, env).value, c.noiseKeepAlive)))
  {
  }

  /** FragmentSpec checks packets, length and interval in that order and
      stops at the first failure; the decoy-host fields never fail. */
  lemma FragmentSpecOrder(f: Fragment)
    ensures PacketsSpec(f.packets).Failure? ==> FragmentSpec(f) == Failure(PacketsSpec(f.packets).error)
    ensures PacketsSpec(f.packets).Success? && LengthSpec(f.length).Failure? ==>
      FragmentSpec(f) == Failure(LengthSpec(f.length).error)
    ensures PacketsSpec(f.packets).Success? && LengthSpec(f.length).Success? && IntervalSpec(f.interval).Failure? ==>
      FragmentSpec(f) == Failure(IntervalSpec(f.interval).error)
    ensures PacketsSpec(f.packets).Success? && LengthSpec(f.length).Success? && IntervalSpec(f.interval).Success? ==>
      var p, l, i := PacketsSpec(f.packets).value, LengthSpec(f.length).value, IntervalSpec(f.interval).value;
      FragmentSpec(f) == Success(FragmentConfig(
        p.from, p.to, l.min, l.max, i.min, i.max, p.fakeHost,
        OrDefault(f.host1Header, DefaultHost1Header), OrDefault(f.host1Domain, DefaultHost1Domain),
        OrDefault(f.host2Header, DefaultHost2Header), OrDefault(f.host2Domain, DefaultHost2Domain)))
  {
  }

  /** Two noise lists that differ at most in the white space around their
      packets. */
  predicate SameUpToTrim(a: seq<NoiseSettings>, b: seq<NoiseSettings>) {
    |a| == |b| &&
    forall i :: 0 <= i < |a| ==>
      b[i].typ == a[i].typ && b[i].delay == a[i].delay && b[i].count == a[i].count &&
      TrimSpace(b[i].packet) == TrimSpace(a[i].packet)
  }

  lemma {:induction false} NoiseResultsUpToTrim(a: seq<NoiseSettings>, b: seq<NoiseSettings>, env: Env)
    requires SameUpToTrim(a, b)
    ensures NoiseResults(b, env) == NoiseResults(a, env)
  {
    if a != [] {
      NoiseResultsUpToTrim(a[..|a| - 1], b[..|b| - 1], env);
    }
  }

  /** Building again from settings whose noise packets were trimmed in
      place, as Build leaves them, gives the same result and visits the
      same entries. */
  lemma BuildAgain(c: FreedomSettings, c': FreedomSettings, env: Env)
    requires c' == c.(noises := c'.noises) && SameUpToTrim(c.noises, c'.noises)
    ensures BuildSpec(c', env) == BuildSpec(c, env)
    ensures NoisesVisited(c', env) == NoisesVisited(c, env)
  {
    NoiseResultsUpToTrim(c.noises, c'.noises, env);
  }

  /** Trimming in place, as Build does to the entries it visits, keeps a
      list the same up to trimming. */
  lemma TrimmedInPlace(ns: seq<Noise>, ss: seq<NoiseSettings>, packets: map<Noise, string>, k: nat)
    requires k <= |ns| == |ss|
    requires forall i :: 0 <= i < |ns| ==> ns[i] in packets && ss[i].packet == packets[ns[i]]
    requires forall i :: 0 <= i < |ns| ==> ss[i].typ == ns[i].typ && ss[i].delay == ns[i].delay && ss[i].count == ns[i].count
    requires forall n :: n in ns ==> n.packet == TrimFirst(ns, packets, k)[n]
    ensures SameUpToTrim(ss, NoiseValues(ns))
  {
    forall i | 0 <= i < |ns|
      ensures TrimSpace(NoiseValues(ns)[i].packet) == TrimSpace(ss[i].packet)
    {
      TrimFirstTrimSpace(ns, packets, k, ns[i]);
    }
  }

  // ---------------------------------------------------------------------
  // The procedures

  /** The type switch of ParseNoise: the trimmed packet is decoded as a
      length range ("rand"), UTF-8 text ("str"), base16 ("hex") or
      base64 ("base64", either alphabet, padding optional). */
  method DecodePayload(typ: string, packet: string, env: Env) returns (r: Result<NoiseConfig, Error>)
    ensures r == PayloadSpec(typ, packet, env)
  {
    var config := NewNoise;
    if typ == "rand" {
      var range := env.parseRangeString(packet);
      if range.None? {
        return Failure(InvalidRandLength);
      }
      config := config.(lengthMin := Int64ToUint64(range.value.0));
      config := config.(lengthMax := Int64ToUint64(range.value.1));
      if config.lengthMin == 0 {
        return Failure(RandLengthZero);
      }
    } else if typ == "str" {
      config := config.(packet := Utf8(packet));
    } else if typ == "hex" {
      var decoded := HexDecode(packet);
      if decoded.None? {
        return Failure(InvalidHex);
      }
      config := config.(packet := decoded.value);
    } else if typ == "base64" {
      var decoded := Base64UrlDecode(ToUrlAlphabet(packet));
      if decoded.None? {
        return Failure(InvalidBase64);
      }
      config := config.(packet := decoded.value);
    } else {
      return Failure(UnsupportedNoiseType);
    }
    return Success(config);
  }

  /** ParseNoise: trims the entry's packet in place, decodes it by type and
      copies the delay and count ranges. */
  method ParseNoise(noise: Noise, env: Env) returns (r: Result<NoiseConfig, Error>)
    modifies noise`packet
    ensures noise.packet == TrimSpace(old(noise.packet))
    ensures r == NoiseSpec(noise.typ, noise.packet, noise.delay, noise.count, env)
  {
    noise.packet := TrimSpace(noise.packet);
    var config := DecodePayload(noise.typ, noise.packet, env);
    if config.Failure? {
      return config;
    }
    var c := config.value;
    if noise.delay.Some? {
      c := c.(delayMin := Int64ToUint64(noise.delay.value.from));
      c := c.(delayMax := Int64ToUint64(noise.delay.value.to));
    }
    if noise.count.Some? {
      c := c.(countMin := Int64ToUint64(noise.count.value.from));
      c := c.(countMax := Int64ToUint64(noise.count.value.to));
    }
    return Success(c);
  }

  /** The entries among the first k of a list. */
  function FirstOf(ns: seq<Noise>, k: nat): set<Noise>
    requires k <= |ns|
  {
    if k == 0 then {} else FirstOf(ns, k - 1) + {ns[k - 1]}
  }

  /** The packet of every entry of a list. */
  function Packets(ns: seq<Noise>): (m: map<Noise, string>)
    reads set n | n in ns
    ensures forall n :: n in ns ==> n in m && m[n] == n.packet
  {
    map n | n in ns :: n.packet
  }

  /** The packets after the first k entries of a list have been trimmed in
      place, one after the other: an entry listed twice is trimmed twice. */
  function TrimFirst(ns: seq<Noise>, packets: map<Noise, string>, k: nat): (m: map<Noise, string>)
    requires k <= |ns|
    ensures m.Keys == packets.Keys
  {
    if k == 0 then packets
    else
      var m := TrimFirst(ns, packets, k - 1);
      if ns[k - 1] in m then m[ns[k - 1] := TrimSpace(m[ns[k - 1]])] else m
  }

  /** Trimming in place, entry after entry, leaves every entry among the
      first k trimmed once and every other entry as it was. */
  lemma {:induction false} TrimFirstOnce(ns: seq<Noise>, packets: map<Noise, string>, k: nat, n: Noise)
    requires k <= |ns| && n in packets
    ensures TrimFirst(ns, packets, k)[n] == if n in FirstOf(ns, k) then TrimSpace(packets[n]) else packets[n]
  {
    if k > 0 {
      TrimFirstOnce(ns, packets, k - 1, n);
      if n == ns[k - 1] {
        TrimSpaceIdempotent(packets[n]);
      }
    }
  }

  /** However often an entry was trimmed, trimming it once more gives its
      original packet trimmed. */
  lemma TrimFirstTrimSpace(ns: seq<Noise>, packets: map<Noise, string>, k: nat, n: Noise)
    requires k <= |ns| && n in packets
    ensures TrimSpace(TrimFirst(ns, packets, k)[n]) == TrimSpace(packets[n])
  {
    TrimFirstOnce(ns, packets, k, n);
    TrimSpaceIdempotent(packets[n]);
  }

  /** ParseNoise on the i-th entry of a list whose packet may already have
      been trimmed: its result is the i-th of the results `rs` expected
      from the entries' original settings `ss`. */
  method ParseEntry(n: Noise, ghost ss: seq<NoiseSettings>, ghost rs: seq<Result<NoiseConfig, Error>>, ghost i: nat,
                    env: Env) returns (r: Result<NoiseConfig, Error>)
    requires i < |ss| == |rs|
    requires forall j {:trigger ParseNoiseSpec(ss[j], env)} :: 0 <= j < |ss| ==> ParseNoiseSpec(ss[j], env) == rs[j]
    requires n.typ == ss[i].typ && n.delay == ss[i].delay && n.count == ss[i].count
    requires TrimSpace(n.packet) == TrimSpace(ss[i].packet)
    modifies n`packet
    ensures n.packet == TrimSpace(old(n.packet))
    ensures r == rs[i]
  {
    r := ParseNoise(n, env);
    assert r == ParseNoiseSpec(ss[i], env);
  }

  /** The `noises` loop of Build: every entry is handed to ParseNoise in
      list order, each result appended, and the first failure returned.
      `ss` are the entries' settings on entry and `rs` what ParseNoise
      gives for each. */
  method ParseNoiseList(ns: seq<Noise>, ghost ss: seq<NoiseSettings>, ghost rs: seq<Result<NoiseConfig, Error>>, env: Env)
    returns (r: Result<seq<NoiseConfig>, Error>)
    requires |ss| == |rs| == |ns|
    requires forall j :: 0 <= j < |ns| ==> ss[j] == ns[j].Settings()
    requires forall j {:trigger ParseNoiseSpec(ss[j], env)} :: 0 <= j < |ss| ==> ParseNoiseSpec(ss[j], env) == rs[j]
    modifies (set n | n in ns)`packet
    ensures r == Collect(rs)
    ensures forall n :: n in ns ==> n.packet == TrimFirst(ns, old(Packets(ns)), CollectedCount(rs))[n]
  {
    ghost var p0 := Packets(ns);
    var out := [];
    for i := 0 to |ns|
      invariant Collect(rs[..i]) == Success(out)
      invariant forall n :: n in ns ==> n.packet == TrimFirst(ns, p0, i)[n]
    {
      TrimFirstTrimSpace(ns, p0, i, ns[i]);
      var n := ParseEntry(ns[i], ss, rs, i, env);
      CollectStep(rs, i);
      if n.Failure? {
        return Failure(n.error);
      }
      out := out + [n.value];
    }
    assert rs[..|ns|] == rs;
    CollectedCountAll(rs);
    return Success(out);
  }

  /** The split-and-parse step of the three range blocks: the string is
      split on '-'; with exactly two pieces both are parsed and `err2`
      reports the second, otherwise only the first is parsed, `hi` copies
      `lo` and `err2` keeps the value the caller passed in. */
  method SplitAndParse(s: string, err2In: bool) returns (lo: uint64, hi: uint64, err: bool, err2: bool)
    ensures |Split(s, '-')| != 2 ==> err2 == err2In && hi == lo
    ensures err ==> ParseRange(s) == Failure(MinInvalid)
    ensures !err && err2 && |Split(s, '-')| == 2 ==> ParseRange(s) == Failure(MaxInvalid)
    ensures !err && (!err2 || |Split(s, '-')| != 2) ==>
              ParseRange(s) == Success(if lo <= hi then Bounds(lo, hi) else Bounds(hi, lo))
  {
    var pieces := Split(s, '-');
    err2 := err2In;
    if |pieces| == 2 {
      var first, second := ParseUint(pieces[0]), ParseUint(pieces[1]);
      lo := if first.Some? then first.value else 0;
      err := first.None?;
      hi := if second.Some? then second.value else 0;
      err2 := second.None?;
    } else {
      var first := ParseUint(pieces[0]);
      lo := if first.Some? then first.value else 0;
      err := first.None?;
      hi := lo;
    }
  }

  /** The packets part of the fragment block: a keyword (any case) or a
      range; a range is put in order in place and must not start at 0. */
  method FragmentPackets(packets: string) returns (r: Result<PacketsMode, Error>, err2: bool)
    ensures r == PacketsSpec(packets)
    ensures r.Success? ==> !err2
  {
    var from, to, fakeHost := 0, 0, false;
    err2 := false;
    var mode := ToLower(packets);
    if mode == "tlshello" {
      from, to := 0, 1;
    } else if mode == "fakehost" {
      from, to, fakeHost := 1, 1, true;
    } else if mode == "" {
      from, to := 0, 0;
    } else {
      var err;
      from, to, err, err2 := SplitAndParse(packets, err2);
      if err {
        return Failure(InvalidPacketsFrom), err2;
      }
      if err2 {
        return Failure(InvalidPacketsTo), err2;
      }
      if from > to {
        from, to := to, from;
      }
      if from == 0 {
        return Failure(PacketsFromZero), err2;
      }
    }
    return Success(PacketsMode(from, to, fakeHost)), err2;
  }

  /** The length part of the fragment block: required, a range put in order
      in place, and not starting at 0. `err2` is the variable shared with
      the packets part, clear whenever that part succeeded. */
  method FragmentLength(length: string, err2In: bool) returns (r: Result<Bounds, Error>, err2: bool)
    requires !err2In
    ensures r == LengthSpec(length)
    ensures r.Success? ==> !err2
  {
    err2 := err2In;
    if length == "" {
      return Failure(LengthEmpty), err2;
    }
    var lo, hi, err;
    lo, hi, err, err2 := SplitAndParse(length, err2);
    if err {
      return Failure(InvalidLengthMin), err2;
    }
    if err2 {
      return Failure(InvalidLengthMax), err2;
    }
    if lo > hi {
      lo, hi := hi, lo;
    }
    if lo == 0 {
      return Failure(LengthMinZero), err2;
    }
    return Success(Bounds(lo, hi)), err2;
  }

  /** The interval part of the fragment block: required and a range put in
      order in place; 0 is allowed. */
  method FragmentInterval(interval: string, err2In: bool) returns (r: Result<Bounds, Error>, err2: bool)
    requires !err2In
    ensures r == IntervalSpec(interval)
    ensures r.Success? ==> !err2
  {
    err2 := err2In;
    if interval == "" {
      return Failure(IntervalEmpty), err2;
    }
    var lo, hi, err;
    lo, hi, err, err2 := SplitAndParse(interval, err2);
    if err {
      return Failure(InvalidIntervalMin), err2;
    }
    if err2 {
      return Failure(InvalidIntervalMax), err2;
    }
    if lo > hi {
      lo, hi := hi, lo;
    }
    return Success(Bounds(lo, hi)), err2;
  }

  /** The fragment block of Build: packets, length and interval in that
      order, sharing `err2`, then the four decoy-host fields, each falling
      back to its default when empty. */
  method BuildFragment(f: Fragment) returns (r: Result<FragmentConfig, Error>)
    ensures r == FragmentSpec(f)
  {
    FragmentSpecOrder(f);
    var fragment := NewFragment;
    var packets, err2 := FragmentPackets(f.packets);
    if packets.Failure? {
      return Failure(packets.error);
    }
    fragment := fragment.(packetsFrom := packets.value.from, packetsTo := packets.value.to,
                          fakeHost := packets.value.fakeHost);
    var length;
    length, err2 := FragmentLength(f.length, err2);
    if length.Failure? {
      return Failure(length.error);
    }
    fragment := fragment.(lengthMin := length.value.min, lengthMax := length.value.max);
    var interval;
    interval, err2 := FragmentInterval(f.interval, err2);
    if interval.Failure? {
      return Failure(interval.error);
    }
    fragment := fragment.(intervalMin := interval.value.min, intervalMax := interval.value.max);

    if f.host1Header == "" {
      fragment := fragment.(host1Header := DefaultHost1Header);
    } else {
      fragment := fragment.(host1Header := f.host1Header);
    }
    if f.host1Domain == "" {
      fragment := fragment.(host1Domain := DefaultHost1Domain);
    } else {
      fragment := fragment.(host1Domain := f.host1Domain);
    }
    if f.host2Header == "" {
      fragment := fragment.(host2Header := DefaultHost2Header);
    } else {
      fragment := fragment.(host2Header := f.host2Header);
    }
    if f.host2Domain == "" {
      fragment := fragment.(host2Domain := DefaultHost2Domain);
    } else {
      fragment := fragment.(host2Domain := f.host2Domain);
    }
    return Success(fragment);
  }

  /** The operator's freedom outbound settings as decoded from JSON. */
  class FreedomConfig {
    var domainStrategy: string
    var redirect: string
    var userLevel: uint32
    var fragment: Option<Fragment>
    var noise: Option<Noise>
    var noises: seq<Noise>
    var noiseKeepAlive: uint32
    var proxyProtocol: uint32

    function Settings(): FreedomSettings
      reads this, set n | n in noises
    {
      FreedomSettings(domainStrategy, redirect, userLevel, fragment, noise.Some?,
                      NoiseValues(noises), noiseKeepAlive, proxyProtocol)
    }

    /** Build: the configuration is checked and filled in a fixed order
        (domain strategy, fragment, removed `noise`, `noises`, keep-alive and
        user level, redirect, proxy protocol) and the first failure is
        returned. Every noise entry handed to ParseNoise has its packet
        trimmed in place. */
    method Build(env: Env) returns (r: Result<Config, Error>)
      modifies (set n | n in noises)`packet
      ensures r == BuildSpec(old(Settings()), env)
      ensures forall n :: n in noises ==>
        n.packet == TrimFirst(noises, old(Packets(noises)), NoisesVisited(old(Settings()), env))[n]
    {
      ghost var s0 := Settings();
      BuildSpecOrder(s0, env);
      var config := NewConfig;

      var strategy := StrategyOf(domainStrategy);
      if strategy.Failure? {
        return Failure(strategy.error);
      }
      config := config.(domainStrategy := strategy.value);

      if fragment.Some? {
        var f := BuildFragment(fragment.value);
        if f.Failure? {
          return Failure(f.error);
        }
        config := config.(fragment := Some(f.value));
      }

      if noise.Some? {
        return Failure(NoiseRemoved);
      }

      ghost var rs := NoiseResults(s0.noises, env);
      NoiseResultsAll(s0.noises, env);
      var parsed := ParseNoiseList(noises, s0.noises, rs, env);
      if parsed.Failure? {
        return Failure(parsed.error);
      }
      config := config.(noises := parsed.value);

      config := config.(noiseKeepAlive := noiseKeepAlive);
      config := config.(userLevel := userLevel);

      if |redirect| > 0 {
        var hostPort := env.splitHostPort(redirect);
        if hostPort.None? {
          return Failure(InvalidRedirectAddress(redirect));
        }
        var (host, portStr) := hostPort.value;
        var port := env.portFromString(portStr);
        if port.None? {
          return Failure(InvalidRedirectPort(redirect));
        }
        config := config.(destinationOverride := Some(DestinationOverride(None, port.value)));
        if |host| > 0 {
          config := config.(destinationOverride := Some(DestinationOverride(Some(env.parseAddress(host)), port.value)));
        }
      }
      if 0 < proxyProtocol <= 2 {
        config := config.(proxyProtocol := proxyProtocol);
      }
      return Success(config);
    }
  }

  /** The state Build leaves builds to the same result again: the
      operator's settings are untouched and every noise entry differs from
      its original at most by the trimming of its packet. */
  twostate lemma BuildAgainInPlace(c: FreedomConfig, env: Env)
    requires unchanged(c)
    requires forall n :: n in c.noises ==> unchanged(n`typ, n`delay, n`count)
    requires forall n :: n in c.noises ==>
      n.packet == TrimFirst(c.noises, old(Packets(c.noises)), NoisesVisited(old(c.Settings()), env))[n]
    ensures BuildSpec(c.Settings(), env) == BuildSpec(old(c.Settings()), env)
  {
    var s0 := old(c.Settings());
    TrimmedInPlace(c.noises, s0.noises, old(Packets(c.noises)), NoisesVisited(s0, env));
    BuildAgain(s0, c.Settings(), env);
  }
}
