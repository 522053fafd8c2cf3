/** What the freedom builder promises, stated about its specification
    functions: the keyword tables, the shapes a range may take, the
    defaults, the order in which the noise entries are decoded and the
    first failure that stops them, and what a successful build copies
    from the operator's settings. */
module FreedomProps {
  import opened Wrappers
  import opened GoStd
  import opened Codec
  import opened Freedom

  // ---------------------------------------------------------------------
  // Domain strategy

  predicate IsKeyword(k: string) {
    forall i :: 0 <= i < |k| ==> ('a' <= k[i] <= 'z' || '0' <= k[i] <= '9')
  }

  /** The keyword that selects each strategy. */
  function StrategyName(d: DomainStrategy): (k: string)
    ensures k != [] && IsKeyword(k)
  {
    match d
    case AsIs => "asis"
    case UseIp => "useip"
    case UseIp4 => "useipv4"
    case UseIp6 => "useipv6"
    case UseIp46 => "useipv4v6"
    case UseIp64 => "useipv6v4"
    case ForceIp => "forceip"
    case ForceIp4 => "forceipv4"
    case ForceIp6 => "forceipv6"
    case ForceIp46 => "forceipv4v6"
    case ForceIp64 => "forceipv6v4"
  }

  /** Any spelling whose lower case is a keyword selects that keyword's
      strategy. */
  lemma StrategySelectedBy(s: string, d: DomainStrategy)
    requires ToLower(s) == StrategyName(d)
    ensures StrategyOf(s) == Success(d)
  {
    match d
    case AsIs => assert ToLower(s) == "asis";
    case UseIp => assert ToLower(s) == "useip";
    case UseIp4 => assert ToLower(s) == "useipv4";
    case UseIp6 => assert ToLower(s) == "useipv6";
    case UseIp46 => assert ToLower(s) == "useipv4v6";
    case UseIp64 => assert ToLower(s) == "useipv6v4";
    case ForceIp => assert ToLower(s) == "forceip";
    case ForceIp4 => assert ToLower(s) == "forceipv4";
    case ForceIp6 => assert ToLower(s) == "forceipv6";
    case ForceIp46 => assert ToLower(s) == "forceipv4v6";
    case ForceIp64 => assert ToLower(s) == "forceipv6v4";
  }

  /** Every strategy is selected by its keyword, in lower or upper case. */
  lemma StrategyNameSelects(d: DomainStrategy)
    ensures StrategyOf(StrategyName(d)) == Success(d)
    ensures StrategyOf(UpperAscii(StrategyName(d))) == Success(d)
  {
    ToLowerKeeps(StrategyName(d));
    StrategySelectedBy(StrategyName(d), d);
    ToLowerUpperAscii(StrategyName(d));
    StrategySelectedBy(UpperAscii(StrategyName(d)), d);
  }

  /** A strategy string is accepted exactly when its lower case is empty or
      one of the keywords, and then it selects that keyword's strategy;
      anything else is reported with the string as written. */
  lemma StrategyOfKeywords(s: string)
    ensures forall d :: ToLower(s) == StrategyName(d) ==> StrategyOf(s) == Success(d)
    ensures ToLower(s) == "" ==> StrategyOf(s) == Success(AsIs)
    ensures StrategyOf(s).Success? ==> ToLower(s) == "" || ToLower(s) == StrategyName(StrategyOf(s).value)
    ensures StrategyOf(s).Failure? ==> StrategyOf(s).error == UnsupportedDomainStrategy(s)
  {
    forall d | ToLower(s) == StrategyName(d)
      ensures StrategyOf(s) == Success(d)
    {
      StrategySelectedBy(s, d);
    }
    if StrategyOf(s).Success? {
      var k := ToLower(s);
      match StrategyOf(s).value
      case AsIs => assert k == "asis" || k == "";
      case UseIp => assert k == "useip";
      case UseIp4 => assert k == "useipv4";
      case UseIp6 => assert k == "useipv6";
      case UseIp46 => assert k == "useipv4v6";
      case UseIp64 => assert k == "useipv6v4";
      case ForceIp => assert k == "forceip";
      case ForceIp4 => assert k == "forceipv4";
      case ForceIp6 => assert k == "forceipv6";
      case ForceIp46 => assert k == "forceipv4v6";
      case ForceIp64 => assert k == "forceipv6v4";
    }
  }

  // ---------------------------------------------------------------------
  // Ranges: "N", "N-M" and the rest

  /** The decimal spelling of a number is one piece of a range that reads
      back as that number. */
  lemma DecimalPiece(a: uint64)
    ensures '-' !in Decimal(a) && ParseUint(Decimal(a)) == Some(a)
  {
    DecimalHasNo(a, '-');
    ParseUintDecimal(a);
  }

  /** "N" is the range N..N, for every spelling of N that ParseUint
      reads ("7", "007", ...). */
  lemma ParseRangeSingle(p: string, a: uint64)
    requires '-' !in p && ParseUint(p) == Some(a)
    ensures ParseRange(p) == Success(Bounds(a, a))
  {
    SplitNoSeparator(p, '-');
  }

  /** "N-M" is the range between N and M, whichever is larger. */
  lemma ParseRangePair(p: string, q: string, a: uint64, b: uint64)
    requires '-' !in p && ParseUint(p) == Some(a)
    requires '-' !in q && ParseUint(q) == Some(b)
    ensures ParseRange(p + "-" + q) == Success(if a <= b then Bounds(a, b) else Bounds(b, a))
  {
    SplitFirst(p, '-', q);
    SplitNoSeparator(q, '-');
  }

  /** With two or more dashes only the first piece is read: "N-x-y" is
      N..N whatever follows. */
  lemma ParseRangeMoreDashes(p: string, a: uint64, t: string, u: string)
    requires '-' !in p && ParseUint(p) == Some(a)
    requires '-' !in t
    ensures ParseRange(p + "-" + t + "-" + u) == Success(Bounds(a, a))
  {
    assert p + "-" + t + "-" + u == p + "-" + (t + "-" + u);
    SplitFirst(p, '-', t + "-" + u);
    SplitFirst(t, '-', u);
  }

  /** A first piece that is not a decimal number (an empty string, a sign,
      a letter) is a bad lower bound; a bad second piece of "N-M" is a bad
      upper bound. */
  lemma ParseRangeErrors(s: string, t: string, rest: string)
    requires '-' !in s && '-' !in t
    ensures ParseUint(s).None? ==> ParseRange(s) == Failure(MinInvalid)
    ensures ParseUint(s).None? ==> ParseRange(s + "-" + t) == Failure(MinInvalid)
    ensures ParseUint(s).None? ==> ParseRange(s + "-" + rest) == Failure(MinInvalid)
    ensures ParseUint(s).Some? && ParseUint(t).None? ==> ParseRange(s + "-" + t) == Failure(MaxInvalid)
  {
    SplitNoSeparator(s, '-');
    SplitNoSeparator(t, '-');
    SplitFirst(s, '-', t);
    SplitFirst(s, '-', rest);
  }

  /** A range that reads successfully reads the same when written back in
      the form "min-max". */
  lemma ParseRangeCanonical(s: string)
    requires ParseRange(s).Success?
    ensures ParseRange(Decimal(ParseRange(s).value.min) + "-" + Decimal(ParseRange(s).value.max)) == ParseRange(s)
  {
    var b := ParseRange(s).value;
    DecimalPiece(b.min);
    DecimalPiece(b.max);
    ParseRangePair(Decimal(b.min), Decimal(b.max), b.min, b.max);
  }

  // ---------------------------------------------------------------------
  // The fragment block

  /** "tlshello", in any letter case, fragments the first packet only. */
  lemma PacketsTlsHello(s: string)
    requires ToLower(s) == "tlshello"
    ensures PacketsSpec(s) == Success(PacketsMode(0, 1, false))
  {
  }

  /** "fakehost", in any letter case, is packet 1 with a decoy host; an
      empty packets field fragments every packet. */
  lemma PacketsFakeHostKeyword(s: string)
    requires ToLower(s) == "fakehost"
    ensures PacketsSpec(s) == Success(PacketsMode(1, 1, true))
    ensures PacketsSpec("") == Success(PacketsMode(0, 0, false))
  {
  }

  /** The decoy host is switched on by the "fakehost" keyword and by
      nothing else. */
  lemma PacketsFakeHost(s: string)
    requires PacketsSpec(s).Success?
    ensures PacketsSpec(s).value.fakeHost <==> ToLower(s) == "fakehost"
  {
  }

  /** The lower case of a decimal range starts with a digit, so it is none
      of the packets keywords. */
  lemma RangeIsNoKeyword(a: uint64, b: uint64)
    ensures var k := ToLower(Decimal(a) + "-" + Decimal(b));
      k != "tlshello" && k != "fakehost" && k != ""
  {
    var s := Decimal(a) + "-" + Decimal(b);
    assert s[0] == Decimal(a)[0];
    assert ToLower(s)[0] == s[0];
  }

  /** A packets range "N-M" is put in order and may not start at 0. */
  lemma PacketsRange(a: uint64, b: uint64)
    ensures var lo, hi := if a <= b then a else b, if a <= b then b else a;
      PacketsSpec(Decimal(a) + "-" + Decimal(b)) ==
        if lo == 0 then Failure(PacketsFromZero) else Success(PacketsMode(lo, hi, false))
  {
    RangeIsNoKeyword(a, b);
    DecimalPiece(a);
    DecimalPiece(b);
    ParseRangePair(Decimal(a), Decimal(b), a, b);
  }

  /** A length "N-M" is required, put in order, and may not start at 0. */
  lemma LengthRange(a: uint64, b: uint64)
    ensures LengthSpec("") == Failure(LengthEmpty)
    ensures var lo, hi := if a <= b then a else b, if a <= b then b else a;
      LengthSpec(Decimal(a) + "-" + Decimal(b)) == if lo == 0 then Failure(LengthMinZero) else Success(Bounds(lo, hi))
  {
    DecimalPiece(a);
    DecimalPiece(b);
    ParseRangePair(Decimal(a), Decimal(b), a, b);
  }

  /** An interval "N-M" is required and put in order; 0 is allowed. */
  lemma IntervalRange(a: uint64, b: uint64)
    ensures IntervalSpec("") == Failure(IntervalEmpty)
    ensures IntervalSpec(Decimal(a) + "-" + Decimal(b)) == Success(if a <= b then Bounds(a, b) else Bounds(b, a))
  {
    DecimalPiece(a);
    DecimalPiece(b);
    ParseRangePair(Decimal(a), Decimal(b), a, b);
  }

  /** A fragment block that builds has ordered ranges, a packet range that
      starts at 0 only by keyword, a length of at least 1, and the four
      decoy-host fields as written or, when empty, their defaults. */
  lemma FragmentSpecSuccess(f: Fragment)
    requires FragmentSpec(f).Success?
    ensures var g := FragmentSpec(f).value;
      g.packetsFrom <= g.packetsTo && 1 <= g.lengthMin <= g.lengthMax && g.intervalMin <= g.intervalMax &&
      (g.packetsFrom == 0 ==> ToLower(f.packets) in {"tlshello", ""}) &&
      (g.fakeHost ==> g.packetsFrom == g.packetsTo == 1) &&
      g.host1Header == (if f.host1Header == "" then "Host : " else f.host1Header) &&
      g.host1Domain == (if f.host1Domain == "" then "cloudflare.com" else f.host1Domain) &&
      g.host2Header == (if f.host2Header == "" then "Host:   " else f.host2Header) &&
      g.host2Domain == (if f.host2Domain == "" then "cloudflare.com" else f.host2Domain)
  {
    FragmentSpecOrder(f);
  }

  // ---------------------------------------------------------------------
  // Noise entries

  /** White space around a packet is ignored. */
  lemma NoiseTrimIgnored(n: NoiseSettings, env: Env)
    ensures ParseNoiseSpec(n.(packet := TrimSpace(n.packet)), env) == ParseNoiseSpec(n, env)
  {
    TrimSpaceIdempotent(n.packet);
  }

  /** "str" sends the trimmed text's UTF-8 bytes. */
  lemma NoiseStr(p: string, env: Env)
    ensures ParseNoiseSpec(NoiseSettings("str", p, None, None), env) == Success(NewNoise.(packet := Utf8(TrimSpace(p))))
  {
  }

  /** "hex" decodes base 16 after trimming. */
  lemma NoiseHexExample(env: Env)
    ensures ParseNoiseSpec(NoiseSettings("hex", " 48656c6c6f\n", None, None), env) == Success(NewNoise.(packet := Hello))
  {
    var p := " 48656c6c6f\n";
    assert TrimLeft(p) == TrimLeft(p[1..]);
    assert p[1..] == "48656c6c6f\n";
    assert TrimRight("48656c6c6f\n") == TrimRight("48656c6c6f");
    HexHelloExample();
  }

  /** "base64" reads both alphabets, so a text and its standard-alphabet
      spelling decode alike. */
  lemma NoiseBase64Alphabets(p: string, env: Env)
    ensures PayloadSpec("base64", ToStdAlphabet(p), env) == PayloadSpec("base64", p, env)
  {
    ToUrlAlphabetIgnoresAlphabet(p);
  }

  /** "base64" accepts padding: "SGVsbG8=" and "SGVsbG8" are both "Hello". */
  lemma NoiseBase64Example(env: Env)
    ensures PayloadSpec("base64", "SGVsbG8=", env) == PayloadSpec("base64", "SGVsbG8", env) == Success(NewNoise.(packet := Hello))
  {
    PaddedHelloRewrite();
    Base64HelloExample();
  }

  /** "rand" sends no bytes of its own, only a length range whose lower end
      is not 0 once converted to uint64; a negative lower end passes as
      a very large length. */
  lemma NoiseRand(p: string, env: Env)
    ensures var r := PayloadSpec("rand", p, env);
      r.Success? <==> env.parseRangeString(p).Some? && env.parseRangeString(p).value.0 != 0
    ensures var r := PayloadSpec("rand", p, env);
      r.Success? ==>
        (r.value.packet == [] && r.value.lengthMin >= 1 &&
         r.value.lengthMin == Int64ToUint64(env.parseRangeString(p).value.0) &&
         r.value.lengthMax == Int64ToUint64(env.parseRangeString(p).value.1))
    ensures env.parseRangeString(p).Some? && env.parseRangeString(p).value.0 < 0 ==>
      PayloadSpec("rand", p, env).value.lengthMin == 0x1_0000_0000_0000_0000 + env.parseRangeString(p).value.0
  {
  }

  /** The type is matched as written: only the four lower-case names are
      known. */
  lemma NoiseTypeExact(typ: string, p: string, env: Env)
    requires typ != "rand" && typ != "str" && typ != "hex" && typ != "base64"
    ensures PayloadSpec(typ, p, env) == Failure(UnsupportedNoiseType)
    ensures PayloadSpec(UpperAscii("hex"), p, env) == Failure(UnsupportedNoiseType)
  {
    assert UpperAscii("hex")[0] == 'H';
  }

  /** A decoded entry carries its delay and count ranges converted to
      uint64 (a negative bound wraps), or zeros when they are absent; the
      payload part is untouched by them. */
  lemma NoiseRanges(n: NoiseSettings, env: Env)
    requires ParseNoiseSpec(n, env).Success?
    ensures var c, p := ParseNoiseSpec(n, env).value, PayloadSpec(n.typ, TrimSpace(n.packet), env).value;
      c.lengthMin == p.lengthMin && c.lengthMax == p.lengthMax && c.packet == p.packet &&
      (n.delay.None? ==> c.delayMin == 0 && c.delayMax == 0) &&
      (n.delay.Some? ==> c.delayMin == Int64ToUint64(n.delay.value.from) && c.delayMax == Int64ToUint64(n.delay.value.to)) &&
      (n.count.None? ==> c.countMin == 0 && c.countMax == 0) &&
      (n.count.Some? ==> c.countMin == Int64ToUint64(n.count.value.from) && c.countMax == Int64ToUint64(n.count.value.to))
  {
  }

  // ---------------------------------------------------------------------
  // The noises list

  /** A list of results collects to its values, one per result, in order. */
  lemma {:induction false} CollectValues(rs: seq<Result<NoiseConfig, Error>>)
    requires Collect(rs).Success?
    ensures |Collect(rs).value| == |rs|
    ensures forall i :: 0 <= i < |rs| ==> rs[i] == Success(Collect(rs).value[i])
  {
    if rs != [] {
      CollectValues(rs[..|rs| - 1]);
    }
  }

  /** A failing list of results fails with its first failure, after
      looking at the results up to it. */
  lemma {:induction false} CollectFirstFailure(rs: seq<Result<NoiseConfig, Error>>)
    requires Collect(rs).Failure?
    ensures exists i ::
      0 <= i < |rs| && rs[i].Failure? && (forall j :: 0 <= j < i ==> rs[j].Success?) &&
      Collect(rs).error == rs[i].error && CollectedCount(rs) == i + 1
  {
    var init := rs[..|rs| - 1];
    if Collect(init).Failure? {
      CollectFirstFailure(init);
      var i :| 0 <= i < |init| && init[i].Failure? && (forall j :: 0 <= j < i ==> init[j].Success?) &&
        Collect(init).error == init[i].error && CollectedCount(init) == i + 1;
      assert rs[i] == init[i];
      forall j | 0 <= j < i
        ensures rs[j].Success?
      {
        assert rs[j] == init[j];
      }
    } else {
      CollectValues(init);
      forall j | 0 <= j < |rs| - 1
        ensures rs[j].Success?
      {
        assert rs[j] == init[j];
      }
    }
  }

  /** The noises list decodes to one configuration per entry, each what
      its entry decodes to, in list order; every entry is looked at. */
  lemma ParseNoisesValues(ns: seq<NoiseSettings>, env: Env)
    requires ParseNoises(ns, env).Success?
    ensures |ParseNoises(ns, env).value| == |ns|
    ensures forall i :: 0 <= i < |ns| ==> ParseNoiseSpec(ns[i], env) == Success(ParseNoises(ns, env).value[i])
    ensures ParsedCount(ns, env) == |ns|
  {
    CollectValues(NoiseResults(ns, env));
    NoiseResultsAll(ns, env);
    CollectedCountAll(NoiseResults(ns, env));
  }

  /** The noises list fails exactly when one entry fails, with the first
      failing entry's error; the entries before it decode and those after
      it are never looked at. */
  lemma ParseNoisesFirstFailure(ns: seq<NoiseSettings>, env: Env)
    ensures ParseNoises(ns, env).Failure? <==> exists i :: 0 <= i < |ns| && ParseNoiseSpec(ns[i], env).Failure?
    ensures ParseNoises(ns, env).Failure? ==>
      exists i :: 0 <= i < |ns| && ParseNoiseSpec(ns[i], env).Failure? &&
        (forall j :: 0 <= j < i ==> ParseNoiseSpec(ns[j], env).Success?) &&
        ParseNoises(ns, env).error == ParseNoiseSpec(ns[i], env).error && ParsedCount(ns, env) == i + 1
  {
    var rs := NoiseResults(ns, env);
    NoiseResultsAll(ns, env);
    if Collect(rs).Failure? {
      CollectFirstFailure(rs);
      var i :| 0 <= i < |rs| && rs[i].Failure? && (forall j :: 0 <= j < i ==> rs[j].Success?) &&
        Collect(rs).error == rs[i].error && CollectedCount(rs) == i + 1;
      assert ParseNoiseSpec(ns[i], env) == rs[i];
      forall j | 0 <= j < i
        ensures ParseNoiseSpec(ns[j], env).Success?
      {
        assert ParseNoiseSpec(ns[j], env) == rs[j];
      }
    } else {
      ParseNoisesValues(ns, env);
    }
  }

  // ---------------------------------------------------------------------
  // In-place trimming

  lemma {:induction false} FirstOfHas(ns: seq<Noise>, k: nat, i: nat)
    requires i < k <= |ns|
    ensures ns[i] in FirstOf(ns, k)
  {
    if i < k - 1 {
      FirstOfHas(ns, k - 1, i);
    }
  }

  /** Once every entry of a list has been handed to ParseNoise, every
      entry's packet is its original packet trimmed, even for an entry
      listed twice. */
  lemma TrimFirstAll(ns: seq<Noise>, packets: map<Noise, string>, i: nat)
    requires i < |ns| && ns[i] in packets
    ensures TrimFirst(ns, packets, |ns|)[ns[i]] == TrimSpace(packets[ns[i]])
  {
    FirstOfHas(ns, |ns|, i);
    TrimFirstOnce(ns, packets, |ns|, ns[i]);
  }

  // ---------------------------------------------------------------------
  // Build

  /** A successful build rejects the removed `noise` field, copies the user
      level and keep-alive, keeps the proxy protocol only when it is 1 or
      2, decodes every noise entry (so every entry is trimmed), and has a
      fragment exactly when one is configured and a destination override
      exactly when a redirect is. */
  lemma BuildSpecSuccess(c: FreedomSettings, env: Env)
    requires BuildSpec(c, env).Success?
    ensures var cfg := BuildSpec(c, env).value;
      !c.hasNoise && cfg.userLevel == c.userLevel && cfg.noiseKeepAlive == c.noiseKeepAlive &&
      (cfg.proxyProtocol == if 1 <= c.proxyProtocol <= 2 then c.proxyProtocol else 0) &&
      (cfg.fragment.Some? <==> c.fragment.Some?) &&
      (cfg.destinationOverride.Some? <==> c.redirect != "") &&
      |cfg.noises| == |c.noises| &&
      (forall i :: 0 <= i < |c.noises| ==> ParseNoiseSpec(c.noises[i], env) == Success(cfg.noises[i])) &&
      NoisesVisited(c, env) == |c.noises|
  {
    BuildSpecOrder(c, env);
    ParseNoisesValues(c.noises, env);
  }

  /** The removed `noise` field is refused whatever the `noises` list and
      the redirect hold, once the strategy and fragment are valid; its
      entries are then never trimmed. */
  lemma BuildNoiseRemoved(c: FreedomSettings, env: Env)
    requires c.hasNoise && StrategyOf(c.domainStrategy).Success?
    requires c.fragment.Some? ==> FragmentSpec(c.fragment.value).Success?
    ensures BuildSpec(c, env) == Failure(NoiseRemoved)
    ensures NoisesVisited(c, env) == 0
  {
    BuildSpecOrder(c, env);
  }

  /** A redirect "host:port" overrides the destination with the parsed
      port, and with the parsed host unless the host is empty. */
  lemma RedirectOverride(r: string, env: Env, host: string, portStr: string, port: Port)
    requires r != "" && env.splitHostPort(r) == Some((host, portStr)) && env.portFromString(portStr) == Some(port)
    ensures RedirectSpec(r, env).Success?
    ensures var d := RedirectSpec(r, env).value;
      d.Some? && d.value.port == port && (d.value.address.None? <==> host == "") &&
      (host != "" ==> d.value.address == Some(env.parseAddress(host)))
  {
  }

  /** An empty redirect overrides nothing; otherwise a text that does not
      split into host and port, or whose port does not parse, is refused
      with the redirect as written. */
  lemma RedirectErrors(r: string, env: Env)
    ensures r == "" ==> RedirectSpec(r, env) == Success(None)
    ensures r != "" && env.splitHostPort(r).None? ==> RedirectSpec(r, env) == Failure(InvalidRedirectAddress(r))
    ensures r != "" && env.splitHostPort(r).Some? && env.portFromString(env.splitHostPort(r).value.1).None? ==>
      RedirectSpec(r, env) == Failure(InvalidRedirectPort(r))
  {
  }

  // ---------------------------------------------------------------------
  // Building again

  /** Each packet with its surrounding white space removed. */
  function Trimmed(ns: seq<NoiseSettings>): (r: seq<NoiseSettings>)
    ensures |r| == |ns|
    ensures forall i :: 0 <= i < |ns| ==> r[i] == ns[i].(packet := TrimSpace(ns[i].packet))
  {
    if ns == [] then [] else [ns[0].(packet := TrimSpace(ns[0].packet))] + Trimmed(ns[1..])
  }

  /** In particular, trimming every packet first changes nothing. */
  lemma BuildTrimmed(c: FreedomSettings, env: Env)
    ensures BuildSpec(c.(noises := Trimmed(c.noises)), env) == BuildSpec(c, env)
  {
    forall i | 0 <= i < |c.noises| {
      TrimSpaceIdempotent(c.noises[i].packet);
    }
    BuildAgain(c, c.(noises := Trimmed(c.noises)), env);
  }
}
