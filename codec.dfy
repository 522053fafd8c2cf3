/** The two payload encodings a noise entry may use: Base16 as Go's
    `hex.DecodeString` reads it (section 8 of RFC 4648, either letter case)
    and unpadded base64url as `base64.RawURLEncoding.DecodeString` reads it
    (section 5 of RFC 4648, carriage returns and line feeds skipped, final
    bits not checked), together with the character rewrite the builder
    applies before base64 decoding. Encoders are given as the partners the
    decoders are proved against. */
module Codec {
  import opened Wrappers
  import opened GoStd

  // ---------------------------------------------------------------------
  // Base16

  function HexDigitValue(c: char): (r: Option<nat>)
    ensures r.Some? ==> r.value < 16
  {
    if '0' <= c <= '9' then Some(c as int - '0' as int)
    else if 'a' <= c <= 'f' then Some(c as int - 'a' as int + 10)
    else if 'A' <= c <= 'F' then Some(c as int - 'A' as int + 10)
    else None
  }

  /** hex.DecodeString: pairs of hex digits, high nibble first; an odd
      length or a non-hex character is an error. */
  function HexDecode(s: string): Option<seq<byte>> {
    if s == [] then Some([])
    else if |s| == 1 then None
    else
      var hi :- HexDigitValue(s[0]);
      var lo :- HexDigitValue(s[1]);
      var rest :- HexDecode(s[2..]);
      Some([hi * 16 + lo] + rest)
  }

  /** Every two digits give one byte. */
  lemma {:induction false} HexDecodeLength(s: string)
    ensures HexDecode(s).Some? ==> |s| == 2 * |HexDecode(s).value|
  {
    if |s| >= 2 {
      HexDecodeLength(s[2..]);
    }
  }

  function HexDigit(d: nat): (c: char)
    requires d < 16
    ensures HexDigitValue(c) == Some(d)
  {
    if d < 10 then ('0' as int + d) as char else ('a' as int + d - 10) as char
  }

  /** hex.EncodeToString: two lower-case digits per byte. */
  function HexEncode(b: seq<byte>): (s: string)
    ensures |s| == 2 * |b|
  {
    if b == [] then [] else [HexDigit(b[0] / 16), HexDigit(b[0] % 16)] + HexEncode(b[1..])
  }

  lemma {:induction false} HexRoundTrip(b: seq<byte>)
    ensures HexDecode(HexEncode(b)) == Some(b)
  {
    if b != [] {
      var s := HexEncode(b);
      assert s[2..] == HexEncode(b[1..]);
      HexRoundTrip(b[1..]);
      assert [b[0]] + b[1..] == b;
    }
  }

  /** A text decodes exactly when it has an even number of characters, all
      of them hex digits. */
  lemma {:induction false} HexDecodeIff(s: string)
    ensures HexDecode(s).Some? <==> |s| % 2 == 0 && forall i :: 0 <= i < |s| ==> HexDigitValue(s[i]).Some?
  {
    if |s| >= 2 {
      HexDecodeIff(s[2..]);
      assert forall i :: 2 <= i < |s| ==> s[i] == s[2..][i - 2];
    }
  }

  /** Decoding does not depend on the letter case of the digits. */
  lemma {:induction false} HexCaseInsensitive(s: string)
    ensures HexDecode(UpperAscii(s)) == HexDecode(s)
  {
    if |s| >= 2 {
      var u := UpperAscii(s);
      assert u[2..] == UpperAscii(s[2..]) by {
        assert u == [u[0]] + UpperAscii(s[1..]);
        assert UpperAscii(s[1..]) == [UpperAscii(s[1..])[0]] + UpperAscii(s[2..]);
      }
      HexCaseInsensitive(s[2..]);
    } else if |s| == 1 {
      assert |UpperAscii(s)| == 1;
    }
  }

  /** The bytes of "Hello". */
  const Hello: seq<byte> := [72, 101, 108, 108, 111]

  lemma HexHelloExample()
    ensures HexDecode("48656c6c6f") == Some(Hello)
  {
    var none: seq<byte> := [];
    assert HexDecode("") == Some(none);
    assert HexDecode("6f").value == [111];
    assert HexDecode("6c6f").value == [108, 111];
    assert HexDecode("6c6c6f").value == [108, 108, 111];
    assert HexDecode("656c6c6f").value == [101, 108, 108, 111];
    assert HexDecode("48656c6c6f").value == [72, 101, 108, 108, 111];
  }

  // ---------------------------------------------------------------------
  // base64url without padding

  function Base64Value(c: char): (r: Option<nat>)
    ensures r.Some? ==> r.value < 64
  {
    if 'A' <= c <= 'Z' then Some(c as int - 'A' as int)
    else if 'a' <= c <= 'z' then Some(c as int - 'a' as int + 26)
    else if '0' <= c <= '9' then Some(c as int - '0' as int + 52)
    else if c == '-' then Some(62)
    else if c == '_' then Some(63)
    else None
  }

  function Base64Char(v: nat): (c: char)
    requires v < 64
    ensures Base64Value(c) == Some(v)
  {
    if v < 26 then ('A' as int + v) as char
    else if v < 52 then ('a' as int + v - 26) as char
    else if v < 62 then ('0' as int + v - 52) as char
    else if v == 62 then '-'
    else '_'
  }

  type Sextet = x: nat | x < 64

  /** The alphabet value of every character, or None at the first one
      outside the alphabet. */
  function Sextets(s: string): (r: Option<seq<Sextet>>)
    ensures r.Some? ==> |r.value| == |s|
  {
    if s == [] then Some([])
    else
      var v :- Base64Value(s[0]);
      var rest :- Sextets(s[1..]);
      Some([v as Sextet] + rest)
  }

  /** Groups of four sextets give three bytes; a final group of two or three
      gives one or two bytes (its spare low bits ignored); a final group of
      one is an error. */
  function DecodeSextets(v: seq<Sextet>): Option<seq<byte>> {
    if v == [] then Some([])
    else if |v| == 1 then None
    else
      var b0: byte := v[0] as int * 4 + v[1] as int / 16;
      if |v| == 2 then Some([b0])
      else
        var b1: byte := (v[1] as int % 16) * 16 + v[2] as int / 4;
        if |v| == 3 then Some([b0, b1])
        else
          var b2: byte := (v[2] as int % 4) * 64 + v[3] as int;
          var rest :- DecodeSextets(v[4..]);
          Some([b0, b1, b2] + rest)
  }

  /** Three bytes for every four sextets; only a final group of one fails. */
  lemma {:induction false} DecodeSextetsLength(v: seq<Sextet>)
    ensures DecodeSextets(v).Some? ==> |DecodeSextets(v).value| == |v| * 3 / 4
    ensures DecodeSextets(v).None? <==> |v| % 4 == 1
  {
    if |v| >= 4 {
      DecodeSextetsLength(v[4..]);
    }
  }

  /** Line breaks are skipped by the decoder. */
  function RemoveNewlines(s: string): (r: string)
    ensures |r| <= |s|
  {
    if s == [] then []
    else if s[0] == '\n' || s[0] == '\r' then RemoveNewlines(s[1..])
    else [s[0]] + RemoveNewlines(s[1..])
  }

  /** base64.RawURLEncoding.DecodeString. */
  function Base64UrlDecode(s: string): Option<seq<byte>> {
    var v :- Sextets(RemoveNewlines(s));
    DecodeSextets(v)
  }

  function EncodeSextets(b: seq<byte>): (v: seq<Sextet>)
    ensures |v| % 4 != 1
  {
    if b == [] then []
    else if |b| == 1 then [b[0] / 4, (b[0] % 4) * 16]
    else if |b| == 2 then [b[0] / 4, (b[0] % 4) * 16 + b[1] / 16, (b[1] % 16) * 4]
    else [b[0] / 4, (b[0] % 4) * 16 + b[1] / 16, (b[1] % 16) * 4 + b[2] / 64, b[2] % 64]
         + EncodeSextets(b[3..])
  }

  function SextetChars(v: seq<Sextet>): (s: string)
    ensures |s| == |v|
  {
    if v == [] then [] else [Base64Char(v[0])] + SextetChars(v[1..])
  }

  /** base64.RawURLEncoding.EncodeToString. */
  function Base64UrlEncode(b: seq<byte>): string {
    SextetChars(EncodeSextets(b))
  }

  lemma {:induction false} SextetsOfChars(v: seq<Sextet>)
    ensures Sextets(SextetChars(v)) == Some(v)
  {
    if v != [] {
      var s := SextetChars(v);
      assert s[1..] == SextetChars(v[1..]);
      SextetsOfChars(v[1..]);
      assert [v[0]] + v[1..] == v;
    }
  }

  /** The three bytes of a group come back from its four sextets. */
  lemma QuantumRoundTrip(b0: byte, b1: byte, b2: byte)
    ensures (b0 / 4) * 4 + ((b0 % 4) * 16 + b1 / 16) / 16 == b0
    ensures (((b0 % 4) * 16 + b1 / 16) % 16) * 16 + ((b1 % 16) * 4 + b2 / 64) / 4 == b1
    ensures (((b1 % 16) * 4 + b2 / 64) % 4) * 64 + b2 % 64 == b2
  {
    assert ((b0 % 4) * 16 + b1 / 16) / 16 == b0 % 4;
    assert ((b0 % 4) * 16 + b1 / 16) % 16 == b1 / 16;
    assert ((b1 % 16) * 4 + b2 / 64) / 4 == b1 % 16;
    assert ((b1 % 16) * 4 + b2 / 64) % 4 == b2 / 64;
  }

  lemma {:induction false} DecodeEncodeSextets(b: seq<byte>)
    ensures DecodeSextets(EncodeSextets(b)) == Some(b)
  {
    if |b| == 1 {
      QuantumRoundTrip(b[0], 0, 0);
      assert b == [b[0]];
    } else if |b| == 2 {
      QuantumRoundTrip(b[0], b[1], 0);
      assert b == [b[0], b[1]];
    } else if |b| >= 3 {
      QuantumRoundTrip(b[0], b[1], b[2]);
      var v := EncodeSextets(b);
      assert v[4..] == EncodeSextets(b[3..]);
      DecodeEncodeSextets(b[3..]);
      assert b == [b[0], b[1], b[2]] + b[3..];
    }
  }

  lemma {:induction false} RemoveNewlinesRemovesAll(s: string)
    ensures '\n' !in RemoveNewlines(s) && '\r' !in RemoveNewlines(s)
  {
    if s != [] {
      RemoveNewlinesRemovesAll(s[1..]);
    }
  }

  lemma {:induction false} NoNewlinesKept(s: string)
    requires '\n' !in s && '\r' !in s
    ensures RemoveNewlines(s) == s
  {
    if s != [] {
      NoNewlinesKept(s[1..]);
      assert [s[0]] + s[1..] == s;
    }
  }

  lemma {:induction false} SextetCharsAlphabet(v: seq<Sextet>)
    ensures forall c :: c in SextetChars(v) ==> Base64Value(c).Some?
  {
    if v != [] {
      SextetCharsAlphabet(v[1..]);
    }
  }

  /** A text has sextets exactly when every character is in the alphabet. */
  lemma {:induction false} SextetsIff(s: string)
    ensures Sextets(s).Some? <==> forall i :: 0 <= i < |s| ==> Base64Value(s[i]).Some?
  {
    if s != [] {
      SextetsIff(s[1..]);
      assert forall i :: 1 <= i < |s| ==> s[i] == s[1..][i - 1];
    }
  }

  /** Skipping line breaks keeps every other character. */
  lemma {:induction false} RemoveNewlinesKeeps(s: string)
    ensures forall c :: c in RemoveNewlines(s) <==> c in s && c != '\n' && c != '\r'
  {
    if s != [] {
      RemoveNewlinesKeeps(s[1..]);
      assert forall c :: c in s <==> c == s[0] || c in s[1..];
    }
  }

  /** A text decodes exactly when every character other than a line break
      is in the URL-safe alphabet and the number of those characters is not
      1 modulo 4. */
  lemma Base64UrlDecodeIff(s: string)
    ensures Base64UrlDecode(s).Some? <==>
      (forall c :: c in s && c != '\n' && c != '\r' ==> Base64Value(c).Some?) && |RemoveNewlines(s)| % 4 != 1
  {
    var t := RemoveNewlines(s);
    SextetsIff(t);
    RemoveNewlinesKeeps(s);
    if Sextets(t).Some? {
      DecodeSextetsLength(Sextets(t).value);
    } else {
      var i :| 0 <= i < |t| && Base64Value(t[i]).None?;
      assert t[i] in t;
    }
  }

  /** Decoding inverts encoding. */
  lemma Base64RoundTrip(b: seq<byte>)
    ensures Base64UrlDecode(Base64UrlEncode(b)) == Some(b)
  {
    var s := Base64UrlEncode(b);
    SextetCharsAlphabet(EncodeSextets(b));
    assert '\n' !in s && '\r' !in s;
    NoNewlinesKept(s);
    SextetsOfChars(EncodeSextets(b));
    DecodeEncodeSextets(b);
  }

  lemma HelloSextets()
    ensures Sextets("SGVsbG8") == Some([18, 6, 21, 44, 27, 6, 60])
  {
    var none: seq<Sextet> := [];
    assert Sextets("") == Some(none);
    assert Sextets("8").value == [60];
    assert Sextets("G8").value == [6, 60];
    assert Sextets("bG8").value == [27, 6, 60];
    assert Sextets("sbG8").value == [44, 27, 6, 60];
    assert Sextets("VsbG8").value == [21, 44, 27, 6, 60];
    assert Sextets("GVsbG8").value == [6, 21, 44, 27, 6, 60];
    assert Sextets("SGVsbG8").value == [18, 6, 21, 44, 27, 6, 60];
  }

  lemma HelloFromSextets()
    ensures DecodeSextets([18, 6, 21, 44, 27, 6, 60]) == Some(Hello)
  {
    var v: seq<Sextet> := [18, 6, 21, 44, 27, 6, 60];
    assert v[4..] == [27, 6, 60];
    assert DecodeSextets(v[4..]).value == [108, 111];
    assert DecodeSextets(v).value == [72, 101, 108, 108, 111];
  }

  lemma Base64HelloExample()
    ensures Base64UrlDecode("SGVsbG8") == Some(Hello)
  {
    NoNewlinesKept("SGVsbG8");
    HelloSextets();
    HelloFromSextets();
  }

  // ---------------------------------------------------------------------
  // strings.NewReplacer("+", "-", "/", "_", "=", "")

  /** Rewrites the standard alphabet's '+' and '/' to '-' and '_' and
      deletes every '='. */
  function ToUrlAlphabet(s: string): string {
    if s == [] then []
    else if s[0] == '=' then ToUrlAlphabet(s[1..])
    else [if s[0] == '+' then '-' else if s[0] == '/' then '_' else s[0]] + ToUrlAlphabet(s[1..])
  }

  /** No '+', '/' or '=' is left after the rewrite. */
  lemma {:induction false} ToUrlAlphabetRewritesAll(s: string)
    ensures var r := ToUrlAlphabet(s); '+' !in r && '/' !in r && '=' !in r
  {
    if s != [] {
      ToUrlAlphabetRewritesAll(s[1..]);
    }
  }

  /** The standard-alphabet spelling of a text: '-' and '_' written as
      '+' and '/'. */
  function ToStdAlphabet(s: string): (r: string)
    ensures |r| == |s|
  {
    if s == [] then []
    else [if s[0] == '-' then '+' else if s[0] == '_' then '/' else s[0]] + ToStdAlphabet(s[1..])
  }

  /** The rewrite makes the two alphabets indistinguishable. */
  lemma {:induction false} ToUrlAlphabetIgnoresAlphabet(s: string)
    ensures ToUrlAlphabet(ToStdAlphabet(s)) == ToUrlAlphabet(s)
  {
    if s != [] {
      var t := ToStdAlphabet(s);
      assert t[1..] == ToStdAlphabet(s[1..]);
      ToUrlAlphabetIgnoresAlphabet(s[1..]);
    }
  }

  /** Padding, wherever it stands, is dropped by the rewrite. */
  lemma {:induction false} ToUrlAlphabetDropsPadding(s: string, t: string)
    ensures ToUrlAlphabet(s + "=" + t) == ToUrlAlphabet(s + t)
  {
    if s == [] {
      assert s + "=" + t == "=" + t;
      assert ("=" + t)[1..] == t;
      assert s + t == t;
    } else {
      assert (s + "=" + t)[1..] == s[1..] + "=" + t;
      assert (s + t)[1..] == s[1..] + t;
      ToUrlAlphabetDropsPadding(s[1..], t);
    }
  }

  /** Text already in the URL alphabet is left as it is. */
  lemma {:induction false} ToUrlAlphabetKeepsUrlText(s: string)
    requires '+' !in s && '/' !in s && '=' !in s
    ensures ToUrlAlphabet(s) == s
  {
    if s != [] {
      ToUrlAlphabetKeepsUrlText(s[1..]);
      assert [s[0]] + s[1..] == s;
    }
  }

  /** The padded example rewrites to the unpadded one. */
  lemma PaddedHelloRewrite()
    ensures ToUrlAlphabet("SGVsbG8=") == ToUrlAlphabet("SGVsbG8") == "SGVsbG8"
  {
    var u := "SGVsbG8";
    ToUrlAlphabetDropsPadding(u, "");
    assert u + "=" + "" == "SGVsbG8=" && u + "" == u;
    ToUrlAlphabetKeepsUrlText(u);
  }
}
