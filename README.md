# Freedom outbound configuration and launcher config-file helpers

This project models two pieces of configuration logic from an Xray-core fork
and proves properties of them in Dafny.

1. **The freedom outbound's configuration builder** (`infra/conf/freedom.go`).
   `FreedomConfig.Build` turns the operator's raw settings into the
   `freedom.Config` message the outbound runs with. It covers:
   - the case-insensitive domain strategy keyword, mapped onto an 11-value enum;
   - the `fragment` block: the `packets` mode (`tlshello`, `fakehost`, empty,
     or a numeric range), the `length` and `interval` ranges, and the four
     decoy-host fields with their defaults;
   - rejection of the removed `noise` field;
   - the `noises` list, decoded entry by entry by `ParseNoise`, where the
     first failing entry aborts the build;
   - the `redirect` destination override, the keep-alive and the user level;
   - the silently clamped proxy protocol version.

   `ParseNoise` trims the entry's packet text and writes it back into the
   entry. It then decodes the packet by type:
   - `rand`: a length range;
   - `str`: UTF-8 text;
   - `hex`: Base16, as in section 8 of RFC 4648;
   - `base64`: base64url without padding, as in section 5 of RFC 4648,
     after the standard alphabet is rewritten to the URL-safe one and `=` is
     deleted.

   Finally it copies the delay and count ranges.
2. **The launcher's config-file helpers** (`main/main.go`):
   - choosing the configuration file to edit (`config.json` wins when it
     exists, otherwise the first `-c`, `--config` or `--config=` argument);
   - whether the chosen file is the default `config.json` that exists, in
     which case the launcher leaves it alone;
   - rewriting the argument list so that it names the chosen file;
   - `contains`;
   - three in-place edits of a decoded configuration's `outbounds` list:
     replacing the `proxy` outbound, merging socket options into
     `streamSettings.sockopt`, and appending the `fragment` outbound when the
     list has none. The check looks for the tag `fragment`, so an outbound
     from `fragment.json` with another tag, or none, is appended again on
     every run (`ConfigEdit.FragmentAppendedOnce`).

Layout:
- `wrappers.dfy`: `Option` and `Result`.
- `gostd.dfy`: the Go standard-library behaviour the code relies on:
  - fixed-width integers and `uint64(x)` wrap-around;
  - `strings.ToLower`, `TrimSpace`, `Split`, `HasPrefix` and `TrimPrefix`;
  - `strconv.ParseUint(s, 10, 64)`;
  - `[]byte(s)`, as UTF-8.
- `codec.dfy`: `hex.DecodeString`, `base64.RawURLEncoding.DecodeString`, and
  the alphabet rewrite done before base64 decoding. Each decoder comes with
  an encoder, round-trip lemmas and the exact set of texts it accepts. The
  alphabet rewrite comes with lemmas on what it removes and keeps.
- `freedom.dfy`: the builder.
  - The specification is a family of pure functions: `BuildSpec`,
    `FragmentSpec`, `PacketsSpec`, `LengthSpec`, `IntervalSpec`,
    `ParseRange`, `ParseNoiseSpec`, `PayloadSpec`, `ParseNoises`,
    `RedirectSpec` and `StrategyOf`.
  - The procedures are imperative: `FreedomConfig.Build` (a class whose
    `noises` are `Noise` objects), `BuildFragment` and `ParseNoise`. Each is
    proved to compute its specification function.
  - `Build` and `ParseNoise` also state the in-place trimming of the noise
    entries they visit.
- `freedom_props.dfy`: the properties of that specification.
- `configedit.dfy`: the launcher helpers.
  - A Go `map[string]interface{}` that is changed in place is a `JsonMap`
    object.
  - The `outbounds` slice is an `array` (`replaceProxyOutbound` writes into
    it) or a sequence of entries whose objects are changed in place
    (`modifyOutbounds`).

The collaborators whose code is not part of this model become the fields of
`Freedom.Env`, as total functions with no further contract:
- `net.SplitHostPort` either fails or gives `(host, port text)`;
- `v2net.PortFromString` either fails or gives a 16-bit port;
- `v2net.NewIPOrDomain(v2net.ParseAddress(host))` gives an address;
- `conf.ParseRangeString` either fails or gives a pair of Go `int`s.

`os.Stat("config.json")` becomes a boolean parameter `defaultExists`. Errors
are one constructor per distinct error the code returns. Error message text
is not modelled.

Some behaviour of the code that a reader might not expect, and that the
model follows:
- One might expect a range with extra dashes to be rejected. Instead a
  `packets`, `length` or `interval` value with more than one `-` is
  accepted, and only its first piece is read: `"5-x-y"` is 5..5
  (`FreedomProps.ParseRangeMoreDashes`).
- The error text "rand lengthMin or lengthMax cannot be 0" suggests both
  bounds are checked. Only the *lower* bound is, once converted to `uint64`.
- The domain strategy and the packets mode ignore letter case, but the noise
  type does not: `"HEX"` is unsupported.
- One might expect a missing `count` to mean "send once". It leaves
  `countMin` and `countMax` at 0.
- One might expect the launcher to skip an empty file name on the command
  line. The first argument that names a file wins even when the name is
  empty (`--config=` or `-c ""`): `xray run --config= -c real.json` gives
  the empty path, and the launcher then refuses to run
  (`ConfigEdit.EmptyConfigNameEndsScan`).

## Model

| member | source | states |
|---|---|---|
| Freedom.FreedomConfig.Build | infra/conf/freedom.go:46-238 | The result is `BuildSpec` of the settings on entry: checks in order, first error returned, every field filled. The packet of every noise entry that was handed to `ParseNoise` is trimmed once in place; the others are untouched. Building again from the state it leaves gives the same result (`Freedom.BuildAgainInPlace`) |
| Freedom.BuildAgainInPlace | infra/conf/freedom.go:200-208 | From the state a build leaves (settings untouched, visited noise packets trimmed in place), a repeated build gives the same result as the first |
| Freedom.BuildAgain | infra/conf/freedom.go:200-208 | Settings whose noise entries differ only in the white space around their packets build to the same result and visit the same entries |
| Freedom.NoiseResultsUpToTrim | infra/conf/freedom.go:243 | Noise lists that differ only in the white space around their packets decode entry by entry to the same results |
| Freedom.TrimmedInPlace | infra/conf/freedom.go:243 | Trimming the visited entries in place leaves each entry the same as its original up to the white space around its packet |
| Freedom.BuildSpecOrder | infra/conf/freedom.go:48-236 | Build checks the domain strategy, then the fragment, then the removed `noise` field, then `noises`, then the redirect, and returns the first failure. The proxy protocol never fails. On success every field of the result is the value of its own check |
| Freedom.BuildFragment | infra/conf/freedom.go:75-194 | The fragment block built step by step, with the shared `err`/`err2` variables threaded through, is exactly `FragmentSpec` |
| Freedom.FragmentSpecOrder | infra/conf/freedom.go:79-191 | The fragment checks packets, then length, then interval, and stops at the first failure. The decoy-host fields never fail and take their defaults when empty |
| Freedom.FragmentPackets | infra/conf/freedom.go:81-117 | The packets switch computes `PacketsSpec`, and on success it leaves `err2` clear for the blocks after it |
| Freedom.FragmentLength | infra/conf/freedom.go:119-143 | The length block computes `LengthSpec` and leaves `err2` clear on success |
| Freedom.FragmentInterval | infra/conf/freedom.go:145-166 | The interval block computes `IntervalSpec` and leaves `err2` clear on success |
| Freedom.SplitAndParse | infra/conf/freedom.go:97-110 | The split and ParseUint step shared by the three range blocks. It reports a bad first piece as `MinInvalid` and a bad second piece as `MaxInvalid`. With one piece it copies the lower bound and leaves `err2` as it was |
| Freedom.ParseRange | infra/conf/freedom.go:97-113 | A range that parses has min <= max: the swap puts the bounds in order |
| Freedom.ParseNoise | infra/conf/freedom.go:240-290 | The entry's packet is replaced by its trimmed text, and the result is `NoiseSpec` of the entry's type, the trimmed packet and its delay and count |
| Freedom.DecodePayload | infra/conf/freedom.go:245-277 | The type switch computes `PayloadSpec`: a rand length range, UTF-8 text, Base16 or base64url, or the matching error |
| Freedom.ParseEntry | infra/conf/freedom.go:201-206 | One pass of the noises loop trims the entry in place and yields that entry's decoded result |
| Freedom.ParseNoiseList | infra/conf/freedom.go:200-208 | The noises loop yields the decoded entries in order, or the first failure. Exactly the entries up to and including the first failure have their packets trimmed in place |
| Freedom.TrimFirstOnce | infra/conf/freedom.go:243 | After k entries have been trimmed one after the other, each of those entries holds its original packet trimmed once, even when listed twice. Every other entry holds its original packet |
| Freedom.CollectStep | infra/conf/freedom.go:201-206 | One more entry either extends the decoded list by its value or ends the list with its failure, after i + 1 entries |
| Freedom.NoiseResultsAt | infra/conf/freedom.go:201-202 | The i-th result of the noises loop is the i-th entry decoded on its own |
| FreedomProps.StrategySelectedBy | infra/conf/freedom.go:48-70 | Any spelling whose lower case is a keyword selects that keyword's strategy |
| FreedomProps.StrategyNameSelects | infra/conf/freedom.go:48-70 | Each of the eleven strategies is selected by its keyword, in lower case and in upper case |
| FreedomProps.StrategyOfKeywords | infra/conf/freedom.go:48-73 | A strategy is accepted exactly when its lower case is empty or a keyword, and it then selects that keyword's strategy. `""` gives AsIs. Anything else fails with the string as written |
| FreedomProps.ParseRangeSingle | infra/conf/freedom.go:101-104 | A piece with no dash that `ParseUint` reads as N (`"7"`, `"007"`, ...) is the range N..N |
| FreedomProps.ParseRangePair | infra/conf/freedom.go:97-113 | Two dash-free pieces that `ParseUint` reads as N and M, joined by a dash, are the range min(N,M)..max(N,M) |
| FreedomProps.ParseRangeMoreDashes | infra/conf/freedom.go:97-104 | With two or more dashes only the first piece is read: `"N-x-y"` is N..N whatever follows, for any spelling of N that `ParseUint` reads |
| FreedomProps.ParseRangeErrors | infra/conf/freedom.go:97-110 | A non-decimal or empty first piece is a bad lower bound, with one piece, two or more. A bad second piece of `"N-M"` is a bad upper bound |
| FreedomProps.ParseRangeCanonical | infra/conf/freedom.go:97-113 | A range that parses reads the same when written back as `"min-max"` |
| FreedomProps.PacketsTlsHello | infra/conf/freedom.go:81-85 | Every spelling whose lower case is `tlshello` gives packets 0..1 without a decoy host |
| FreedomProps.PacketsFakeHostKeyword | infra/conf/freedom.go:86-94 | Every spelling whose lower case is `fakehost` gives packets 1..1 with the decoy host. An empty value gives 0..0 |
| FreedomProps.PacketsFakeHost | infra/conf/freedom.go:79-117 | The decoy host is on exactly when the lower-cased value is `fakehost` |
| FreedomProps.PacketsRange | infra/conf/freedom.go:95-117 | A numeric `"N-M"` packets range is put in order and is rejected when its lower end is 0 |
| FreedomProps.LengthRange | infra/conf/freedom.go:119-143 | An empty length is rejected. `"N-M"` is put in order and rejected when its lower end is 0 |
| FreedomProps.IntervalRange | infra/conf/freedom.go:145-166 | An empty interval is rejected. `"N-M"` is put in order, and 0 is allowed |
| FreedomProps.FragmentSpecSuccess | infra/conf/freedom.go:79-191 | A fragment that builds has ordered ranges and a length of at least 1. Its packets start at 0 only by keyword, and the decoy host implies packets 1..1. Each host field is as written, or its default exactly when empty |
| FreedomProps.NoiseTrimIgnored | infra/conf/freedom.go:243 | White space around a packet does not change how the entry decodes |
| FreedomProps.NoiseStr | infra/conf/freedom.go:257-259 | `str` sends the UTF-8 bytes of the trimmed text |
| FreedomProps.NoiseHexExample | infra/conf/freedom.go:261-266 | `" 48656c6c6f\n"` of type `hex` decodes, after trimming, to the bytes of "Hello" |
| FreedomProps.NoiseBase64Alphabets | infra/conf/freedom.go:268-273 | A `base64` text and its standard-alphabet spelling decode alike |
| FreedomProps.NoiseBase64Example | infra/conf/freedom.go:268-273 | `"SGVsbG8="` and `"SGVsbG8"` both decode to "Hello" |
| FreedomProps.NoiseRand | infra/conf/freedom.go:246-255 | `rand` succeeds exactly when the range parses and its lower end is not 0. It then sends no bytes and carries the range converted to `uint64`; a negative lower end wraps to 2^64 + lo |
| FreedomProps.NoiseTypeExact | infra/conf/freedom.go:275-276 | Any type other than the four lower-case names is unsupported, including `"HEX"` |
| FreedomProps.NoiseRanges | infra/conf/freedom.go:279-287 | A decoded entry carries its delay and count converted to `uint64`, or zeros when absent, and its payload is unchanged by them |
| FreedomProps.ParseNoisesValues | infra/conf/freedom.go:200-208 | A noises list that decodes gives one configuration per entry, in order, each what its entry decodes to, and every entry is visited |
| FreedomProps.ParseNoisesFirstFailure | infra/conf/freedom.go:200-208 | The list fails exactly when some entry fails. It then fails with the first failing entry's error; the entries before it decode, and none after it is visited |
| FreedomProps.TrimFirstAll | infra/conf/freedom.go:201-202 | Once every entry has been visited, every entry's packet is its original packet trimmed |
| FreedomProps.BuildSpecSuccess | infra/conf/freedom.go:196-236 | A successful build has no `noise` field. It copies user level and keep-alive, and keeps the proxy protocol only when it is 1 or 2. It has a fragment exactly when one is configured and an override exactly when a redirect is. It decodes every noise entry, in order |
| FreedomProps.BuildNoiseRemoved | infra/conf/freedom.go:196-198 | Once the strategy and fragment are valid, a `noise` field fails the build whatever else is set, and no noise entry is trimmed |
| FreedomProps.BuildTrimmed | infra/conf/freedom.go:243 | Trimming every noise packet before building changes nothing in the result |
| FreedomProps.RedirectErrors | infra/conf/freedom.go:215-233 | An empty redirect gives no override. A redirect that does not split into host and port fails with `InvalidRedirectAddress`, and one whose port does not parse fails with `InvalidRedirectPort`, each carrying the redirect as written |
| FreedomProps.RedirectOverride | infra/conf/freedom.go:215-233 | A redirect whose host and port parse overrides the destination port, and also the address unless the host is empty |
| GoStd.Int64ToUint64 | infra/conf/freedom.go:251-252 | Go's `uint64(x)`: the one value in 0..2^64-1 congruent to x modulo 2^64 |
| GoStd.ToLowerUpperAscii | infra/conf/freedom.go:48 | Lower-casing an upper-cased lower-case keyword gives the keyword back |
| GoStd.TrimSpaceEnds | infra/conf/freedom.go:243 | A trimmed text neither starts nor ends with white space |
| GoStd.TrimSpaceIdempotent | infra/conf/freedom.go:243 | Trimming twice is trimming once |
| GoStd.JoinSplit | infra/conf/freedom.go:97 | Joining the pieces of a split with the separator gives the text back |
| GoStd.ParseUintDecimal | infra/conf/freedom.go:99 | ParseUint reads back the decimal spelling of any uint64 |
| GoStd.Utf8Ascii | infra/conf/freedom.go:259 | ASCII text converts to one byte per character, with the same code |
| GoStd.TrimPrefix | main/main.go:123-125 | With the prefix present, the prefix followed by the result is the text; otherwise the text is unchanged |
| Codec.HexRoundTrip | infra/conf/freedom.go:263 | Decoding the Base16 encoding of any bytes gives them back |
| Codec.HexDecodeLength | infra/conf/freedom.go:263 | A decoded hex text is twice as long as its bytes |
| Codec.HexDecodeIff | infra/conf/freedom.go:263 | A text decodes exactly when it has an even number of characters, all hex digits |
| Codec.HexCaseInsensitive | infra/conf/freedom.go:263 | Upper-case and lower-case hex digits decode alike |
| Codec.HexHelloExample | infra/conf/freedom.go:263 | `"48656c6c6f"` is "Hello" |
| Codec.Base64RoundTrip | infra/conf/freedom.go:270 | Decoding the unpadded base64url encoding of any bytes gives them back |
| Codec.DecodeSextetsLength | infra/conf/freedom.go:270 | A text in the base64url alphabet decodes to three bytes per four characters, rounded down, and fails exactly when its length is 1 modulo 4 |
| Codec.SextetsIff | infra/conf/freedom.go:270 | A text reads as sextets exactly when every character is in the base64url alphabet |
| Codec.RemoveNewlinesKeeps | infra/conf/freedom.go:270 | The decoder skips exactly the carriage returns and line feeds and keeps every other character |
| Codec.Base64UrlDecodeIff | infra/conf/freedom.go:270 | A text decodes exactly when every character other than a line break is in the base64url alphabet and the number of those characters is not 1 modulo 4 |
| Codec.Base64HelloExample | infra/conf/freedom.go:270 | `"SGVsbG8"` is "Hello" |
| Codec.ToUrlAlphabetRewritesAll | infra/conf/freedom.go:270 | After the rewrite no `+`, `/` or `=` is left |
| Codec.ToUrlAlphabetIgnoresAlphabet | infra/conf/freedom.go:270 | The standard and the URL-safe alphabet rewrite to the same text |
| Codec.ToUrlAlphabetDropsPadding | infra/conf/freedom.go:270 | An `=` anywhere is deleted |
| Codec.ToUrlAlphabetKeepsUrlText | infra/conf/freedom.go:270 | A URL-safe unpadded text is left as it is |
| ConfigEdit.GetConfigFilePathToEdit | main/main.go:106-131 | The path is `config.json` when that file exists. Otherwise it is the first file the arguments name, or `""` |
| ConfigEdit.ConfigPathFromIsFirst | main/main.go:115-130 | The scan returns the file named by the first argument that names one: the successor of `-c`/`--config`, or the rest of `--config=...`. It returns `""` when no argument names one. An empty name (`--config=` or `-c ""`) also gives `""` and ends the scan |
| ConfigEdit.IsUsingDefaultConfig | main/main.go:177-188 | True exactly when the path is `config.json` and that file exists |
| ConfigEdit.EmptyConfigNameEndsScan | main/main.go:115-130 | For `xray run --config= -c real.json`, without `config.json`, the file to edit is `""`: the empty name stops the scan before `real.json` |
| ConfigEdit.DefaultConfigUsedAsIs | main/main.go:177-188 | The chosen file counts as the default config exactly when `config.json` exists. A `-c config.json` on the command line does not count when the file is missing |
| ConfigEdit.UpdateArgsWithConfigFile | main/main.go:143-170 | The rewritten list is the program name, then every other argument with `-c`/`--config` and its value, a final lone flag and `--config=...` removed, then `-c` and the chosen file |
| ConfigEdit.StripConfigArgsKeeps | main/main.go:147-164 | The kept arguments are a subsequence of the original ones, in their original order, and none is a config argument |
| ConfigEdit.StripConfigArgsPlain | main/main.go:147-164 | Arguments with no config argument among them are all kept |
| ConfigEdit.StripConfigArgsIdempotent | main/main.go:147-164 | Stripping the config arguments twice is stripping them once |
| ConfigEdit.StripConfigArgsAppended | main/main.go:147-169 | Plain arguments followed by `-c` and a file lose the flag and the file and keep the rest |
| ConfigEdit.UpdatedArgsIdempotent | main/main.go:143-170 | Rewriting an already rewritten list with a file gives what rewriting the original list with that file gives: only the file changes |
| ConfigEdit.UpdatedArgsNamesFile | main/main.go:143-170 | The list starts with the program name and ends with `-c` and the file, and nothing between them is a config argument. So, when the program name is not itself a config argument, scanning it finds the chosen file |
| ConfigEdit.Contains | main/main.go:462-469 | True exactly when the item occurs in the slice |
| ConfigEdit.FirstTaggedIsFirst | main/main.go:352-365 | The entry found is the first object tagged `proxy`. None is found exactly when no object is tagged so |
| ConfigEdit.ReplaceProxyOutbound | main/main.go:350-367 | In place: the first object tagged `proxy` becomes the proxy configuration, and every other entry and the length are unchanged. With no such entry nothing changes |
| ConfigEdit.ApplySockoptToOutbound | main/main.go:377-403 | In place: with no socket options nothing changes. Otherwise the socket options are merged over `streamSettings.sockopt`, creating both when missing |
| ConfigEdit.WithSockoptMerges | main/main.go:383-402 | After the merge every configured socket option has its value and the other existing options are kept, with no other option added. Every other stream setting and outbound member is kept. The only key added to the stream settings is `sockopt`, and the only key added to the outbound is `streamSettings` |
| ConfigEdit.WithSockoptIdempotent | main/main.go:395-398 | Merging the same socket options twice is merging them once |
| ConfigEdit.EditedKeeps | main/main.go:426-442 | The merge keeps the outbound's tag and protocol, and editing an edited outbound changes nothing |
| ConfigEdit.EditEntry | main/main.go:426-442 | One pass over an object: it reports whether the object is tagged `fragment`, and merges the socket options exactly when its protocol is vmess, vless or trojan |
| ConfigEdit.EditedFirstOnce | main/main.go:426-443 | Visiting entry after entry edits every object among the visited entries once, even when listed twice, and leaves every other object as it was |
| ConfigEdit.ModifyOutbounds | main/main.go:420-451 | Every vmess, vless or trojan object gets the socket options, in place, and other objects are unchanged. The fragment outbound is appended at the end, once, exactly when no object was tagged `fragment`; otherwise the list is unchanged |
| ConfigEdit.FragmentAppendedOnce | main/main.go:445-448 | After the fragment outbound is appended, the list has an object tagged `fragment` exactly when it had one or the appended outbound is tagged `fragment`. So a second pass appends nothing only when the outbound from `fragment.json` is itself tagged `fragment`; otherwise every pass appends another |

## Left out

- The runtime fragmentation and noise-injection engines are not part of this
  model. They are timed writes, random sampling and keep-alive goroutines.
- `main`, `processProxyConfig` and `processFragmentConfig` are left out. They
  are I/O plumbing: file reads and writes, JSON decoding and encoding, and
  console output. The helpers they call are modelled.
- `getArgsV4Compatible`, the `null` writer, `base.Execute` and command
  registration are left out. They wrap Go's `flag` package and the global
  `os.Args`.
- `os.Stat` is a boolean parameter. `getConfigFilePathToEdit` and
  `isUsingDefaultConfig` each call it; the model assumes both calls see the
  same answer.
- `net.SplitHostPort`, `v2net.PortFromString`, `v2net.ParseAddress` /
  `NewIPOrDomain` and `conf.ParseRangeString` are not part of this model.
  They are abstract functions in `Freedom.Env`.
- Error message text and `errors.PrintRemovedFeatureError`'s log output are
  left out. Errors are distinguished by kind.
- Protobuf `proto.Message` plumbing is left out. The built configuration is
  a plain datatype.
- GoStd.ToLower: `strings.ToLower` is exact on ASCII and on the two
  non-ASCII characters whose lower case is ASCII (U+0130, U+212A). Other
  non-ASCII characters are kept as they are, because the result is only ever
  compared with ASCII keywords.
- Go strings are sequences of Unicode scalar values. Invalid UTF-8 inside a
  Go string is not represented.
- A nil `*Noise` entry in `noises` is not modelled. Go's `ParseNoise` would
  dereference it and panic.
- A `nil` proxy or fragment map (a `proxy.json` or `fragment.json` holding
  `null`) is not modelled; a `JsonMap` object always exists. A nil socket
  options map is `None`.
- Maps nested inside an outbound (`streamSettings`, `sockopt`) are values,
  not shared references. This matches what JSON decoding produces. Aliasing
  between nested maps of different outbounds is not modelled; aliasing
  between whole outbound objects is.
- A non-map entry of `outbounds` is an `Other` JSON value. JSON numbers keep
  their literal text, because no helper looks at them.
- ConfigEdit.ModifyOutbounds returns the slice as a sequence. Go's
  `append` may or may not reuse the caller's backing array; the model does
  not say which.
- ConfigEdit.ReplaceProxyOutbound does not return the slice. Go returns
  the same slice it was given, so the result is the updated array.
