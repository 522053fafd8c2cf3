/** The launcher's configuration-file helpers: choosing the configuration
    file from the command line (config.json wins when it exists),
    rewriting the argument list so that it names that file, and the edits
    made in place to a decoded configuration's `outbounds` list: the
    "proxy" outbound replaced, socket options merged into the vmess, vless
    and trojan outbounds, and the fragment outbound appended when absent.

    Whether config.json exists is a parameter; a decoded JSON object that
    the helpers change in place is a `JsonMap` held by reference, and the
    values inside it are plain `Json` values. */
module ConfigEdit {
  import opened Wrappers
  import opened GoStd

  const DefaultConfigFile := "config.json"

  // ---------------------------------------------------------------------
  // Choosing the configuration file

  /** "-c" and "--config" take the file from the next argument. */
  predicate IsConfigFlag(arg: string) {
    arg == "-c" || arg == "--config"
  }

  /** An argument that has nothing to do with the configuration file. */
  predicate IsPlainArg(arg: string) {
    !IsConfigFlag(arg) && !HasPrefix(arg, "--config=")
  }

  /** The file the argument at `i` names: the next argument after a flag
      that has one, the rest of a "--config=" argument, or none. */
  function ConfigArg(args: seq<string>, i: nat): Option<string>
    requires i < |args|
  {
    if IsConfigFlag(args[i]) then (if i + 1 < |args| then Some(args[i + 1]) else None)
    else if HasPrefix(args[i], "--config=") then Some(TrimPrefix(args[i], "--config="))
    else None
  }

  /** The file named by the first argument from `i` on that names one, or
      "" when none does. */
  function ConfigPathFrom(args: seq<string>, i: nat): string
    requires i <= |args|
    decreases |args| - i
  {
    if i == |args| then ""
    else
      match ConfigArg(args, i)
      case Some(p) => p
      case None => ConfigPathFrom(args, i + 1)
  }

  /** The file to edit: config.json when it exists, whatever the command
      line says; otherwise the first file the command line names. */
  function ConfigPathSpec(args: seq<string>, defaultExists: bool): string {
    if defaultExists then DefaultConfigFile else ConfigPathFrom(args, 0)
  }

  /** The scan `ConfigPathFrom` stands for: the first naming argument
      decides, and "" means no argument names a file. */
  lemma {:induction false} ConfigPathFromIsFirst(args: seq<string>, i: nat, k: nat)
    requires i <= k <= |args|
    requires forall j :: i <= j < k ==> ConfigArg(args, j).None?
    ensures k == |args| ==> ConfigPathFrom(args, i) == ""
    ensures k < |args| && ConfigArg(args, k).Some? ==> ConfigPathFrom(args, i) == ConfigArg(args, k).value
    decreases k - i
  {
    if i < k {
      ConfigPathFromIsFirst(args, i + 1, k);
    }
  }

  /** An empty name ends the scan too: "--config=" names "", so the file
      after the later "-c" is never reached. */
  lemma EmptyConfigNameEndsScan()
    ensures ConfigPathSpec(["xray", "run", "--config=", "-c", "real.json"], false) == ""
  {
    var args := ["xray", "run", "--config=", "-c", "real.json"];
    assert !HasPrefix(args[0], "--config=") && !HasPrefix(args[1], "--config=");
    assert HasPrefix(args[2], "--config=") && TrimPrefix(args[2], "--config=") == "";
    ConfigPathFromIsFirst(args, 0, 2);
  }

  /** getConfigFilePathToEdit, with the existence of config.json given. */
  method GetConfigFilePathToEdit(args: seq<string>, defaultExists: bool) returns (path: string)
    ensures path == ConfigPathSpec(args, defaultExists)
  {
    if defaultExists {
      return DefaultConfigFile;
    }
    for i := 0 to |args|
      invariant ConfigPathFrom(args, i) == ConfigPathFrom(args, 0)
    {
      var arg := args[i];
      if arg == "-c" || arg == "--config" {
        if i + 1 < |args| {
          return args[i + 1];
        }
      } else if HasPrefix(arg, "--config=") {
        return TrimPrefix(arg, "--config=");
      }
    }
    return "";
  }

  /** isUsingDefaultConfig: the path is config.json and that file exists. */
  function IsUsingDefaultConfig(configFilePath: string, defaultExists: bool): (r: bool)
    ensures r <==> configFilePath == "config.json" && defaultExists
  {
    if configFilePath == DefaultConfigFile then defaultExists else false
  }

  /** The chosen file is left as it is exactly when config.json exists: a
      "-c config.json" on the command line does not count when the file
      is missing. */
  lemma DefaultConfigUsedAsIs(args: seq<string>, defaultExists: bool)
    ensures IsUsingDefaultConfig(ConfigPathSpec(args, defaultExists), defaultExists) <==> defaultExists
  {
  }

  // ---------------------------------------------------------------------
  // Rewriting the argument list

  /** The arguments with every "-c"/"--config" and the argument after it,
      a final flag on its own and every "--config=" argument removed. */
  function StripConfigArgs(rest: seq<string>): seq<string>
    decreases |rest|
  {
    if rest == [] then []
    else if IsConfigFlag(rest[0]) then (if |rest| > 1 then StripConfigArgs(rest[2..]) else [])
    else if HasPrefix(rest[0], "--config=") then StripConfigArgs(rest[1..])
    else [rest[0]] + StripConfigArgs(rest[1..])
  }

  /** The rewritten argument list: the program name, the other arguments,
      then "-c" and the chosen file. */
  function UpdatedArgs(args: seq<string>, configFilePath: string): seq<string>
    requires |args| >= 1
  {
    [args[0]] + StripConfigArgs(args[1..]) + ["-c", configFilePath]
  }

  /** updateArgsWithConfigFile. */
  method UpdateArgsWithConfigFile(args: seq<string>, configFilePath: string) returns (newArgs: seq<string>)
    requires |args| >= 1
    ensures newArgs == UpdatedArgs(args, configFilePath)
  {
    newArgs := [args[0]];
    var i := 1;
    while i < |args|
      invariant 1 <= i <= |args|
      invariant [args[0]] + StripConfigArgs(args[1..]) == newArgs + StripConfigArgs(args[i..])
    {
      var arg := args[i];
      assert args[i..][1..] == args[i + 1..];
      if arg == "-c" || arg == "--config" {
        if i + 1 < |args| {
          assert args[i..][2..] == args[i + 2..];
          i := i + 1;
        }
        i := i + 1;
        continue;
      } else if HasPrefix(arg, "--config=") {
        i := i + 1;
        continue;
      } else {
        newArgs := newArgs + [arg];
      }
      i := i + 1;
    }
    newArgs := newArgs + ["-c", configFilePath];
  }

  /** `a` is `b` with some elements left out, the rest in their order. */
  predicate IsSubsequence(a: seq<string>, b: seq<string>)
    decreases |b|
  {
    a == [] || (b != [] && ((a[0] == b[0] && IsSubsequence(a[1..], b[1..])) || IsSubsequence(a, b[1..])))
  }

  /** What is kept is a subsequence of the arguments and holds no
      configuration argument. */
  lemma {:induction false} StripConfigArgsKeeps(rest: seq<string>)
    ensures IsSubsequence(StripConfigArgs(rest), rest)
    ensures forall a :: a in StripConfigArgs(rest) ==> IsPlainArg(a)
    decreases |rest|
  {
    if rest != [] {
      if IsConfigFlag(rest[0]) {
        if |rest| > 1 {
          StripConfigArgsKeeps(rest[2..]);
          assert rest[1..][1..] == rest[2..];
        }
      } else {
        StripConfigArgsKeeps(rest[1..]);
        if !HasPrefix(rest[0], "--config=") {
          assert StripConfigArgs(rest)[1..] == StripConfigArgs(rest[1..]);
        }
      }
    }
  }

  /** Arguments without any configuration argument are kept as they are. */
  lemma {:induction false} StripConfigArgsPlain(rest: seq<string>)
    requires forall a :: a in rest ==> IsPlainArg(a)
    ensures StripConfigArgs(rest) == rest
    decreases |rest|
  {
    if rest != [] {
      assert rest[0] in rest;
      assert forall a :: a in rest[1..] ==> a in rest;
      StripConfigArgsPlain(rest[1..]);
      assert [rest[0]] + rest[1..] == rest;
    }
  }

  /** Stripping the configuration arguments twice is stripping them once. */
  lemma StripConfigArgsIdempotent(rest: seq<string>)
    ensures StripConfigArgs(StripConfigArgs(rest)) == StripConfigArgs(rest)
  {
    StripConfigArgsKeeps(rest);
    StripConfigArgsPlain(StripConfigArgs(rest));
  }

  /** Plain arguments followed by "-c" and a file: the flag and the file
      are stripped, the rest is kept. */
  lemma {:induction false} StripConfigArgsAppended(plain: seq<string>, configFilePath: string)
    requires forall a :: a in plain ==> IsPlainArg(a)
    ensures StripConfigArgs(plain + ["-c", configFilePath]) == plain
    decreases |plain|
  {
    if plain == [] {
      assert [] + ["-c", configFilePath] == ["-c", configFilePath];
    } else {
      assert plain[0] in plain;
      assert forall a :: a in plain[1..] ==> a in plain;
      StripConfigArgsAppended(plain[1..], configFilePath);
      assert (plain + ["-c", configFilePath])[1..] == plain[1..] + ["-c", configFilePath];
      assert [plain[0]] + plain[1..] == plain;
    }
  }

  /** Rewriting an already rewritten list again only replaces the file:
      the other arguments stay as the first rewrite left them. */
  lemma UpdatedArgsIdempotent(args: seq<string>, configFilePath: string, configFilePath': string)
    requires |args| >= 1
    ensures UpdatedArgs(UpdatedArgs(args, configFilePath), configFilePath') == UpdatedArgs(args, configFilePath')
  {
    var kept := StripConfigArgs(args[1..]);
    var n := UpdatedArgs(args, configFilePath);
    StripConfigArgsKeeps(args[1..]);
    StripConfigArgsAppended(kept, configFilePath);
    assert n[1..] == kept + ["-c", configFilePath];
  }

  /** The rewritten list starts with the program name and ends with "-c"
      and the chosen file, with no other configuration argument; so when
      the program name is not itself a configuration argument, scanning it
      finds the chosen file. */
  lemma UpdatedArgsNamesFile(args: seq<string>, configFilePath: string)
    requires |args| >= 1
    ensures var n := UpdatedArgs(args, configFilePath);
      |n| >= 3 && n[0] == args[0] && n[|n| - 2] == "-c" && n[|n| - 1] == configFilePath &&
      (forall j :: 1 <= j < |n| - 2 ==> IsPlainArg(n[j]))
    ensures IsPlainArg(args[0]) ==> ConfigPathFrom(UpdatedArgs(args, configFilePath), 0) == configFilePath
  {
    var n := UpdatedArgs(args, configFilePath);
    var kept := StripConfigArgs(args[1..]);
    StripConfigArgsKeeps(args[1..]);
    assert forall j :: 1 <= j < |n| - 2 ==> n[j] == kept[j - 1];
    if IsPlainArg(args[0]) {
      forall j | 0 <= j < |n| - 2
        ensures ConfigArg(n, j).None?
      {
        if j > 0 {
          assert n[j] in kept;
        }
      }
      ConfigPathFromIsFirst(n, 0, |n| - 2);
    }
  }

  // ---------------------------------------------------------------------
  // contains

  method Contains(slice: seq<string>, item: string) returns (found: bool)
    ensures found <==> item in slice
  {
    for i := 0 to |slice|
      invariant item !in slice[..i]
    {
      if slice[i] == item {
        return true;
      }
      assert slice[..i + 1] == slice[..i] + [slice[i]];
    }
    assert slice[..|slice|] == slice;
    return false;
  }

  // ---------------------------------------------------------------------
  // JSON values and the outbounds list

  /** A decoded JSON value; numbers keep their literal text. */
  datatype Json =
    | Null | Bool(b: bool) | Number(literal: string) | Str(s: string)
    | Array(items: seq<Json>) | Object(members: map<string, Json>)

  /** A decoded JSON object that is changed in place. */
  class JsonMap {
    var members: map<string, Json>
  }

  /** An entry of the outbounds list: an object, or any other JSON value
      (which the helpers skip). */
  datatype Element = Obj(m: JsonMap) | Other(v: Json)

  function Objects(es: seq<Element>): set<JsonMap> {
    set e | e in es && e.Obj? :: e.m
  }

  /** The members of each object entry at one moment. */
  function Decoded(es: seq<Element>): (r: seq<Option<map<string, Json>>>)
    reads Objects(es)
    ensures |r| == |es|
    ensures forall i :: 0 <= i < |es| ==> r[i] == if es[i].Obj? then Some(es[i].m.members) else None
  {
    if es == [] then []
    else [if es[0].Obj? then Some(es[0].m.members) else None] + Decoded(es[1..])
  }

  /** The entry is an object whose "tag" is the string `tag`. */
  predicate HasTag(o: Option<map<string, Json>>, tag: string) {
    o.Some? && "tag" in o.value && o.value["tag"] == Str(tag)
  }

  /** The position of the first entry from `i` on tagged `tag`. */
  function FirstTagged(os: seq<Option<map<string, Json>>>, tag: string, i: nat): (k: Option<nat>)
    requires i <= |os|
    ensures k.Some? ==> i <= k.value < |os|
    decreases |os| - i
  {
    if i == |os| then None
    else if HasTag(os[i], tag) then Some(i)
    else FirstTagged(os, tag, i + 1)
  }

  /** FirstTagged finds the first tagged entry, and none when no entry is
      tagged. */
  lemma {:induction false} FirstTaggedIsFirst(os: seq<Option<map<string, Json>>>, tag: string, i: nat)
    requires i <= |os|
    ensures FirstTagged(os, tag, i).None? <==> forall j :: i <= j < |os| ==> !HasTag(os[j], tag)
    ensures FirstTagged(os, tag, i).Some? ==>
      var k := FirstTagged(os, tag, i).value;
      HasTag(os[k], tag) && forall j :: i <= j < k ==> !HasTag(os[j], tag)
    decreases |os| - i
  {
    if i < |os| {
      FirstTaggedIsFirst(os, tag, i + 1);
    }
  }

  /** replaceProxyOutbound: the first object tagged "proxy" is replaced by
      the proxy configuration, in place; nothing else changes. */
  method ReplaceProxyOutbound(outbounds: array<Element>, proxyConfig: JsonMap)
    modifies outbounds
    ensures var k := FirstTagged(old(Decoded(outbounds[..])), "proxy", 0);
      outbounds[..] == if k.None? then old(outbounds[..]) else old(outbounds[..])[k.value := Obj(proxyConfig)]
  {
    ghost var os := Decoded(outbounds[..]);
    for i := 0 to outbounds.Length
      invariant outbounds[..] == old(outbounds[..])
      invariant FirstTagged(os, "proxy", i) == FirstTagged(os, "proxy", 0)
    {
      match outbounds[i]
      case Other(_) =>
      case Obj(outbound) =>
        if "tag" in outbound.members && outbound.members["tag"].Str? && outbound.members["tag"].s == "proxy" {
          outbounds[i] := Obj(proxyConfig);
          return;
        }
    }
  }

  // ---------------------------------------------------------------------
  // Socket options

  /** The object held under `key`, or an empty one when the key is missing
      or holds anything else. */
  function ObjectAt(members: map<string, Json>, key: string): map<string, Json> {
    if key in members && members[key].Object? then members[key].members else map[]
  }

  /** The outbound with `sockopt` merged over streamSettings.sockopt: a
      key of `sockopt` wins over an existing one. */
  function WithSockopt(outbound: map<string, Json>, sockopt: map<string, Json>): map<string, Json> {
    var streamSettings := ObjectAt(outbound, "streamSettings");
    outbound["streamSettings" := Object(streamSettings["sockopt" := Object(ObjectAt(streamSettings, "sockopt") + sockopt)])]
  }

  /** No socket options (no sockopt.json) leave the outbound alone. */
  function ApplySockoptSpec(outbound: map<string, Json>, sockoptConfig: Option<map<string, Json>>): map<string, Json> {
    if sockoptConfig.None? then outbound else WithSockopt(outbound, sockoptConfig.value)
  }

  /** After the merge every socket option has its configured value, every
      other existing socket option, stream setting and outbound member is
      kept, and the stream settings and socket options exist as objects. */
  lemma WithSockoptMerges(outbound: map<string, Json>, sockopt: map<string, Json>)
    ensures var r := WithSockopt(outbound, sockopt);
      "streamSettings" in r && r["streamSettings"].Object? &&
      var ss := r["streamSettings"].members;
      "sockopt" in ss && ss["sockopt"].Object? &&
      var so := ss["sockopt"].members;
      (forall k :: k in sockopt ==> k in so && so[k] == sockopt[k]) &&
      (forall k :: k in ObjectAt(ObjectAt(outbound, "streamSettings"), "sockopt") && k !in sockopt ==>
         k in so && so[k] == ObjectAt(ObjectAt(outbound, "streamSettings"), "sockopt")[k]) &&
      (forall k :: k in so ==> k in sockopt || k in ObjectAt(ObjectAt(outbound, "streamSettings"), "sockopt")) &&
      (forall k :: k in ObjectAt(outbound, "streamSettings") && k != "sockopt" ==>
         k in ss && ss[k] == ObjectAt(outbound, "streamSettings")[k]) &&
      ss.Keys == ObjectAt(outbound, "streamSettings").Keys + {"sockopt"} &&
      (forall k :: k in outbound && k != "streamSettings" ==> k in r && r[k] == outbound[k]) &&
      r.Keys == outbound.Keys + {"streamSettings"}
  {
  }

  /** Merging the same socket options twice is merging them once. */
  lemma WithSockoptIdempotent(outbound: map<string, Json>, sockopt: map<string, Json>)
    ensures WithSockopt(WithSockopt(outbound, sockopt), sockopt) == WithSockopt(outbound, sockopt)
  {
    var ss := ObjectAt(outbound, "streamSettings");
    var so := ObjectAt(ss, "sockopt") + sockopt;
    var w := WithSockopt(outbound, sockopt);
    var ss' := ss["sockopt" := Object(so)];
    assert ObjectAt(w, "streamSettings") == ss';
    assert ObjectAt(ss', "sockopt") == so;
    assert so + sockopt == so;
    assert ss'["sockopt" := Object(so)] == ss';
    assert w["streamSettings" := Object(ss')] == w;
  }

  /** applySockoptToOutbound: the outbound's stream settings and socket
      options are fetched or created, every configured socket option is
      written over them one key at a time, and both are stored back. */
  method ApplySockoptToOutbound(outbound: JsonMap, sockoptConfig: Option<map<string, Json>>)
    modifies outbound
    ensures outbound.members == ApplySockoptSpec(old(outbound.members), sockoptConfig)
  {
    if sockoptConfig.None? {
      return;
    }
    var config := sockoptConfig.value;
    var streamSettings: map<string, Json> := map[];
    if "streamSettings" in outbound.members && outbound.members["streamSettings"].Object? {
      streamSettings := outbound.members["streamSettings"].members;
    }
    var sockopt: map<string, Json> := map[];
    if "sockopt" in streamSettings && streamSettings["sockopt"].Object? {
      sockopt := streamSettings["sockopt"].members;
    }
    assert streamSettings == ObjectAt(old(outbound.members), "streamSettings");
    assert sockopt == ObjectAt(streamSettings, "sockopt");
    ghost var existing := sockopt;
    var keys := config.Keys;
    while keys != {}
      invariant keys <= config.Keys
      invariant sockopt == existing + map k | k in config.Keys - keys :: config[k]
      decreases keys
    {
      var key :| key in keys;
      sockopt := sockopt[key := config[key]];
      keys := keys - {key};
    }
    assert config.Keys - keys == config.Keys;
    assert (map k | k in config.Keys :: config[k]) == config;
    assert sockopt == ObjectAt(ObjectAt(old(outbound.members), "streamSettings"), "sockopt") + config;
    streamSettings := streamSettings["sockopt" := Object(sockopt)];
    outbound.members := outbound.members["streamSettings" := Object(streamSettings)];
  }

  // ---------------------------------------------------------------------
  // Modifying the outbounds

  const SupportedProtocols: seq<string> := ["vmess", "vless", "trojan"]

  /** The outbound's "protocol" is the string vmess, vless or trojan. */
  predicate IsSupported(outbound: map<string, Json>) {
    "protocol" in outbound && outbound["protocol"].Str? && outbound["protocol"].s in SupportedProtocols
  }

  /** What modifyOutbounds makes of one object entry. */
  function Edited(outbound: map<string, Json>, sockoptConfig: Option<map<string, Json>>): map<string, Json> {
    if IsSupported(outbound) then ApplySockoptSpec(outbound, sockoptConfig) else outbound
  }

  /** The merge leaves the tag and the protocol alone, and doing it twice
      is doing it once. */
  lemma EditedKeeps(outbound: map<string, Json>, sockoptConfig: Option<map<string, Json>>)
    ensures var r := Edited(outbound, sockoptConfig);
      (HasTag(Some(r), "fragment") <==> HasTag(Some(outbound), "fragment")) &&
      (IsSupported(r) <==> IsSupported(outbound)) &&
      Edited(r, sockoptConfig) == r
  {
    if sockoptConfig.Some? {
      WithSockoptMerges(outbound, sockoptConfig.value);
      WithSockoptIdempotent(outbound, sockoptConfig.value);
    }
  }

  function Members(es: seq<Element>): (m: map<JsonMap, map<string, Json>>)
    reads Objects(es)
    ensures m.Keys == Objects(es)
  {
    map o | o in Objects(es) :: o.members
  }

  /** The objects among the first k entries. */
  function ObjectsOf(es: seq<Element>, k: nat): set<JsonMap>
    requires k <= |es|
  {
    if k == 0 then {} else ObjectsOf(es, k - 1) + (if es[k - 1].Obj? then {es[k - 1].m} else {})
  }

  /** The objects' members after the first k entries have been visited one
      after the other: an object listed twice is visited twice. */
  function EditedFirst(es: seq<Element>, members: map<JsonMap, map<string, Json>>,
                       sockoptConfig: Option<map<string, Json>>, k: nat): (m: map<JsonMap, map<string, Json>>)
    requires k <= |es|
    ensures m.Keys == members.Keys
  {
    if k == 0 then members
    else
      var m := EditedFirst(es, members, sockoptConfig, k - 1);
      if es[k - 1].Obj? && es[k - 1].m in m then m[es[k - 1].m := Edited(m[es[k - 1].m], sockoptConfig)] else m
  }

  /** Visiting entry after entry edits every object among the first k once
      and leaves every other object as it was. */
  lemma {:induction false} EditedFirstOnce(es: seq<Element>, members: map<JsonMap, map<string, Json>>,
                                           sockoptConfig: Option<map<string, Json>>, k: nat, o: JsonMap)
    requires k <= |es| && o in members
    ensures EditedFirst(es, members, sockoptConfig, k)[o] ==
      if o in ObjectsOf(es, k) then Edited(members[o], sockoptConfig) else members[o]
  {
    if k > 0 {
      EditedFirstOnce(es, members, sockoptConfig, k - 1, o);
      EditedKeeps(members[o], sockoptConfig);
    }
  }

  lemma {:induction false} ObjectsOfAll(es: seq<Element>, k: nat, i: nat)
    requires i < k <= |es| && es[i].Obj?
    ensures es[i].m in ObjectsOf(es, k)
  {
    if i < k - 1 {
      ObjectsOfAll(es, k - 1, i);
    }
  }

  /** Some object entry is tagged `tag`. */
  predicate AnyTagged(os: seq<Option<map<string, Json>>>, tag: string) {
    exists i :: 0 <= i < |os| && HasTag(os[i], tag)
  }

  /** Some object among the first k entries is tagged `tag`. */
  predicate TaggedBefore(os: seq<Option<map<string, Json>>>, tag: string, k: nat)
    requires k <= |os|
  {
    k > 0 && (TaggedBefore(os, tag, k - 1) || HasTag(os[k - 1], tag))
  }

  lemma {:induction false} TaggedBeforeAny(os: seq<Option<map<string, Json>>>, tag: string, k: nat)
    requires k <= |os|
    ensures TaggedBefore(os, tag, k) <==> exists i :: 0 <= i < k && HasTag(os[i], tag)
  {
    if k > 0 {
      TaggedBeforeAny(os, tag, k - 1);
    }
  }

  /** One pass of modifyOutbounds' loop over an object entry: whether it
      is tagged "fragment", and the socket options merged into it when its
      protocol is supported. */
  method EditEntry(outbound: JsonMap, sockoptConfig: Option<map<string, Json>>) returns (tagged: bool)
    modifies outbound
    ensures tagged <==> HasTag(Some(old(outbound.members)), "fragment")
    ensures outbound.members == Edited(old(outbound.members), sockoptConfig)
  {
    tagged := "tag" in outbound.members && outbound.members["tag"].Str? && outbound.members["tag"].s == "fragment";
    if "protocol" in outbound.members && outbound.members["protocol"].Str? {
      var supported := Contains(SupportedProtocols, outbound.members["protocol"].s);
      if supported {
        ApplySockoptToOutbound(outbound, sockoptConfig);
      }
    }
  }

  /** After the fragment outbound is appended, the list has an object
      tagged "fragment" exactly when it had one before or the appended
      outbound is tagged so: a fragment outbound with another tag (or none)
      is appended again on every pass. */
  lemma FragmentAppendedOnce(os: seq<Option<map<string, Json>>>, fragment: map<string, Json>)
    ensures AnyTagged(os + [Some(fragment)], "fragment") <==>
      AnyTagged(os, "fragment") || HasTag(Some(fragment), "fragment")
  {
    var os' := os + [Some(fragment)];
    assert forall i :: 0 <= i < |os| ==> os'[i] == os[i];
    assert os'[|os|] == Some(fragment);
  }

  /** modifyOutbounds: every vmess, vless or trojan object gets the socket
      options merged in place, every other entry is left alone, and the
      fragment outbound is appended once, only when no object is tagged
      "fragment". */
  method ModifyOutbounds(outbounds: seq<Element>, fragment: JsonMap, sockoptConfig: Option<map<string, Json>>)
    returns (r: seq<Element>)
    modifies Objects(outbounds)
    ensures r == if AnyTagged(old(Decoded(outbounds)), "fragment") then outbounds else outbounds + [Obj(fragment)]
    ensures forall i :: 0 <= i < |outbounds| && outbounds[i].Obj? ==>
      outbounds[i].m.members == Edited(old(outbounds[i].m.members), sockoptConfig)
  {
    ghost var m0 := Members(outbounds);
    ghost var os := Decoded(outbounds);
    assert forall j :: 0 <= j < |outbounds| ==> os[j] == if outbounds[j].Obj? then Some(m0[outbounds[j].m]) else None;
    var fragmentExists := false;
    for i := 0 to |outbounds|
      invariant fragmentExists == TaggedBefore(os, "fragment", i)
      invariant forall o :: o in m0 ==> o.members == EditedFirst(outbounds, m0, sockoptConfig, i)[o]
    {
      match outbounds[i]
      case Other(_) =>
        assert !HasTag(os[i], "fragment");
      case Obj(outbound) =>
        EditedFirstOnce(outbounds, m0, sockoptConfig, i, outbound);
        EditedKeeps(m0[outbound], sockoptConfig);
        var tagged := EditEntry(outbound, sockoptConfig);
        assert tagged <==> HasTag(os[i], "fragment");
        if tagged {
          fragmentExists := true;
        }
    }
    forall i | 0 <= i < |outbounds| && outbounds[i].Obj?
      ensures outbounds[i].m.members == Edited(m0[outbounds[i].m], sockoptConfig)
    {
      ObjectsOfAll(outbounds, |outbounds|, i);
      EditedFirstOnce(outbounds, m0, sockoptConfig, |outbounds|, outbounds[i].m);
    }
    TaggedBeforeAny(os, "fragment", |outbounds|);
    r := outbounds;
    if !fragmentExists {
      r := r + [Obj(fragment)];
    }
  }
}
