/** Query parameters: the raw lookup and the percent-decoding of one value
    (crates/rift-cluster-server/src/admin_front.rs).  Text is its UTF-8 bytes throughout.
 */
module Query {
  import opened Text

  type Byte = b: nat | b < 256
  type Bytes = seq<Byte>

  const PERCENT: Byte := 0x25
  const AMPERSAND: Byte := 0x26
  const EQUALS: Byte := 0x3D

  // ---- UTF-8 ----

  predicate Between(b: Byte, low: Byte, high: Byte) { low <= b <= high }

  predicate Continues(b: Byte) { Between(b, 0x80, 0xBF) }

  /** The length of the well-formed UTF-8 sequence at the front of `s`, or 0. */
  function FrontLength(s: Bytes): (n: nat)
    ensures n <= |s| && (s != [] && s[0] < 0x80 ==> n == 1)
  {
    if s == [] then 0
    else if s[0] < 0x80 then 1
    else if |s| >= 2 && Between(s[0], 0xC2, 0xDF) && Continues(s[1]) then 2
    else if |s| >= 3 && Continues(s[2]) &&
            ((s[0] == 0xE0 && Between(s[1], 0xA0, 0xBF)) ||
             (Between(s[0], 0xE1, 0xEC) && Continues(s[1])) ||
             (s[0] == 0xED && Between(s[1], 0x80, 0x9F)) ||
             (Between(s[0], 0xEE, 0xEF) && Continues(s[1]))) then 3
    else if |s| >= 4 && Continues(s[2]) && Continues(s[3]) &&
            ((s[0] == 0xF0 && Between(s[1], 0x90, 0xBF)) ||
             (Between(s[0], 0xF1, 0xF3) && Continues(s[1])) ||
             (s[0] == 0xF4 && Between(s[1], 0x80, 0x8F))) then 4
    else 0
  }

  /** What `String::from_utf8` accepts. */
  predicate IsUtf8(s: Bytes)
    decreases |s|
  {
    s == [] || (FrontLength(s) > 0 && IsUtf8(s[FrontLength(s)..]))
  }

  // ---- UTF-8 is the encoding of scalar values ----

  /** A Unicode scalar value: a code point that is not a surrogate. */
  type Scalar = c: nat | c < 0xD800 || 0xE000 <= c < 0x11_0000

  /** The encoding of section 3 of RFC 3629. */
  function EncodeScalar(c: Scalar): Bytes {
    if c < 0x80 then [c]
    else if c < 0x800 then [0xC0 + c / 64, 0x80 + c % 64]
    else if c < 0x1_0000 then [0xE0 + c / 4096, 0x80 + c / 64 % 64, 0x80 + c % 64]
    else [0xF0 + c / 262_144, 0x80 + c / 4096 % 64, 0x80 + c / 64 % 64, 0x80 + c % 64]
  }

  function EncodeText(cs: seq<Scalar>): Bytes {
    if cs == [] then [] else EncodeScalar(cs[0]) + EncodeText(cs[1..])
  }

  lemma EncodedIsAFront(c: Scalar, rest: Bytes)
    ensures FrontLength(EncodeScalar(c) + rest) == |EncodeScalar(c)| > 0
  {}

  lemma TwoBytes(a: Byte, b: Byte) returns (c: Scalar)
    requires 0xC2 <= a <= 0xDF && Continues(b)
    ensures EncodeScalar(c) == [a, b]
  {
    var v: int := a;
    c := (v - 0xC0) * 64 + (b - 0x80);
  }

  lemma ThreeBytes(a: Byte, b: Byte, d: Byte) returns (c: Scalar)
    requires 0xE0 <= a <= 0xEF && Continues(b) && Continues(d)
    requires (a == 0xE0 ==> b >= 0xA0) && (a == 0xED ==> b <= 0x9F)
    ensures EncodeScalar(c) == [a, b, d]
  {
    var high, middle, low: int := a - 0xE0, b - 0x80, d - 0x80;
    var v := high * 4096 + middle * 64 + low;
    assert v / 64 == high * 64 + middle && v % 64 == low;
    assert v / 4096 == high;
    c := v;
  }

  lemma FourBytes(a: Byte, b: Byte, d: Byte, e: Byte) returns (c: Scalar)
    requires 0xF0 <= a <= 0xF4 && Continues(b) && Continues(d) && Continues(e)
    requires (a == 0xF0 ==> b >= 0x90) && (a == 0xF4 ==> b <= 0x8F)
    ensures EncodeScalar(c) == [a, b, d, e]
  {
    var top, high, middle, low: int := a - 0xF0, b - 0x80, d - 0x80, e - 0x80;
    var v := top * 262_144 + high * 4096 + middle * 64 + low;
    assert v / 64 == top * 4096 + high * 64 + middle && v % 64 == low;
    assert v / 4096 == top * 64 + high && v / 262_144 == top;
    c := v;
  }

  lemma FrontIsEncoded(s: Bytes) returns (c: Scalar)
    requires FrontLength(s) > 0
    ensures EncodeScalar(c) == s[..FrontLength(s)]
  {
    match FrontLength(s)
    case 1 => c := s[0];
    case 2 => c := TwoBytes(s[0], s[1]);
    case 3 => c := ThreeBytes(s[0], s[1], s[2]);
    case _ => c := FourBytes(s[0], s[1], s[2], s[3]);
  }

  lemma {:induction false} EncodedIsUtf8(cs: seq<Scalar>)
    ensures IsUtf8(EncodeText(cs))
  {
    if cs != [] {
      EncodedIsUtf8(cs[1..]);
      EncodedIsAFront(cs[0], EncodeText(cs[1..]));
      assert EncodeText(cs)[|EncodeScalar(cs[0])|..] == EncodeText(cs[1..]);
    }
  }

  lemma {:induction false} Utf8IsEncoded(s: Bytes) returns (cs: seq<Scalar>)
    requires IsUtf8(s)
    ensures EncodeText(cs) == s
    decreases |s|
  {
    cs := [];
    if s != [] {
      var n := FrontLength(s);
      var c := FrontIsEncoded(s);
      var rest := Utf8IsEncoded(s[n..]);
      cs := [c] + rest;
      assert cs[1..] == rest && s[..n] + s[n..] == s;
    }
  }

  /** The bytes accepted are exactly the encodings of texts. */
  lemma IsUtf8Iff(s: Bytes)
    ensures IsUtf8(s) <==> exists cs :: EncodeText(cs) == s
  {
    if IsUtf8(s) { var cs := Utf8IsEncoded(s); }
    if cs :| EncodeText(cs) == s { EncodedIsUtf8(cs); }
  }

  // ---- percent-decoding ----

  function HexNibble(b: Byte): (v: Option<nat>)
    ensures v.Some? ==> v.value < 16
  {
    if Between(b, 0x30, 0x39) then Some(b - 0x30)
    else if Between(b, 0x61, 0x66) then Some(b - 0x61 + 10)
    else if Between(b, 0x41, 0x46) then Some(b - 0x41 + 10)
    else None
  }

  /** One escape, `%XX`, at the front of `s`: the byte it stands for. */
  function Escape(s: Bytes): Option<Byte> {
    if |s| >= 3 && s[0] == PERCENT && HexNibble(s[1]).Some? && HexNibble(s[2]).Some?
    then Some(16 * HexNibble(s[1]).value + HexNibble(s[2]).value) else None
  }

  /** `raw` spells `text`: every byte of `text` as itself, unless it is `%`, or as an escape. */
  ghost predicate Spells(raw: Bytes, text: Bytes)
    decreases |text|
  {
    if text == [] then raw == []
    else
      || (raw != [] && raw[0] != PERCENT && raw[0] == text[0] && Spells(raw[1..], text[1..]))
      || (Escape(raw) == Some(text[0]) && Spells(raw[3..], text[1..]))
  }

  /** The bytes `raw` spells, or `None` at the first malformed escape met scanning left to right. */
  function Unescape(raw: Bytes): Option<Bytes>
    decreases |raw|
  {
    if raw == [] then Some([])
    else if raw[0] != PERCENT then
      var rest :- Unescape(raw[1..]);
      Some([raw[0]] + rest)
    else
      var byte :- Escape(raw);
      var rest :- Unescape(raw[3..]);
      Some([byte] + rest)
  }

  /** Decoding finds exactly the text that `raw` spells, and nothing spells two texts. */
  lemma {:induction false} UnescapeIffSpells(raw: Bytes, text: Bytes)
    ensures Unescape(raw) == Some(text) <==> Spells(raw, text)
    decreases |raw|
  {
    if raw != [] && text != [] {
      if raw[0] != PERCENT {
        UnescapeIffSpells(raw[1..], text[1..]);
        assert [text[0]] + text[1..] == text;
      } else if Escape(raw).Some? {
        UnescapeIffSpells(raw[3..], text[1..]);
        assert [text[0]] + text[1..] == text;
      }
    }
  }

  /** What `percent_decode` answers: the text spelled, if it is UTF-8. */
  function Decode(raw: Bytes): Option<Bytes> {
    var text :- Unescape(raw);
    if IsUtf8(text) then Some(text) else None
  }

  /** A scan position: `raw` up to here is plain bytes and whole escapes. */
  ghost predicate ScansTo(raw: Bytes, i: nat) {
    i <= |raw| && exists text :: Spells(raw[..i], text)
  }

  function Prepend(out: Bytes, rest: Option<Bytes>): Option<Bytes> {
    if rest.None? then None else Some(out + rest.value)
  }

  lemma PrependNext(out: Bytes, b: Byte, rest: Option<Bytes>)
    ensures Prepend(out, Prepend([b], rest)) == Prepend(out + [b], rest)
  {
    if rest.Some? { assert out + ([b] + rest.value) == out + [b] + rest.value; }
  }

  /** `percent_decode`: an index walks the bytes, an output buffer collects them. */
  method PercentDecode(raw: Bytes) returns (decoded: Option<Bytes>)
    ensures decoded == Decode(raw)
    ensures decoded.Some? ==> Spells(raw, decoded.value) && IsUtf8(decoded.value)
    ensures decoded.None? ==> forall text :: Spells(raw, text) ==> !IsUtf8(text)
  {
    var out: Bytes := [];
    var i := 0;
    assert raw[0..] == raw && (Unescape(raw).Some? ==> out + Unescape(raw).value == Unescape(raw).value);
    while i < |raw|
      invariant 0 <= i <= |raw|
      invariant Unescape(raw) == Prepend(out, Unescape(raw[i..]))
      decreases |raw| - i
    {
      if raw[i] == PERCENT {
        if i + 1 >= |raw| { Undecodable(raw); return None; }
        var high := HexNibble(raw[i + 1]);
        if high.None? { Undecodable(raw); return None; }
        if i + 2 >= |raw| { Undecodable(raw); return None; }
        var low := HexNibble(raw[i + 2]);
        if low.None? { Undecodable(raw); return None; }
        assert raw[i..][3..] == raw[i + 3..];
        PrependNext(out, 16 * high.value + low.value, Unescape(raw[i + 3..]));
        out := out + [16 * high.value + low.value];
        i := i + 3;
      } else {
        assert raw[i..][1..] == raw[i + 1..];
        PrependNext(out, raw[i], Unescape(raw[i + 1..]));
        out := out + [raw[i]];
        i := i + 1;
      }
    }
    assert raw[i..] == [] && out + [] == out;
    UnescapeIffSpells(raw, out);
    forall text | Spells(raw, text) ensures text == out { UnescapeIffSpells(raw, text); }
    if IsUtf8(out) { return Some(out); }
    return None;
  }

  lemma Undecodable(raw: Bytes)
    ensures Unescape(raw).None? ==> forall text :: !Spells(raw, text)
  {
    forall text ensures Unescape(raw).None? ==> !Spells(raw, text) { UnescapeIffSpells(raw, text); }
  }

  /** Decoding fails exactly when the scan meets a malformed escape or the bytes are not UTF-8. */
  lemma DecodeFailsIff(raw: Bytes)
    ensures Decode(raw).None? <==> (exists i: nat :: ScansTo(raw, i) && MalformedAt(raw, i)) || exists text :: Spells(raw, text) && !IsUtf8(text)
  {
    if Unescape(raw).None? {
      var i := FirstMalformed(raw);
    } else {
      UnescapeIffSpells(raw, Unescape(raw).value);
      forall text | Spells(raw, text) ensures text == Unescape(raw).value { UnescapeIffSpells(raw, text); }
      forall i: nat | ScansTo(raw, i) && MalformedAt(raw, i) ensures false {
        var text :| Spells(raw[..i], text);
        StuckThere(raw, i, text);
      }
    }
  }

  ghost predicate MalformedAt(raw: Bytes, i: nat) {
    i < |raw| && raw[i] == PERCENT && Escape(raw[i..]).None?
  }

  lemma {:induction false} StuckThere(raw: Bytes, i: nat, text: Bytes)
    requires MalformedAt(raw, i) && Spells(raw[..i], text)
    ensures Unescape(raw).None?
    decreases |text|
  {
    if text == [] {
      assert raw[i..] == raw;
    } else {
      var step := if raw[0] == PERCENT then 3 else 1;
      assert raw[..i][step..] == raw[step..][..i - step];
      assert raw[step..][i - step..] == raw[i..];
      if step == 3 { assert Escape(raw) == Escape(raw[..i]); }
      StuckThere(raw[step..], i - step, text[1..]);
    }
  }

  lemma {:induction false} FirstMalformed(raw: Bytes) returns (i: nat)
    requires Unescape(raw).None?
    ensures ScansTo(raw, i) && MalformedAt(raw, i)
    decreases |raw|
  {
    if raw[0] == PERCENT && Escape(raw).None? {
      assert raw[0..] == raw && raw[..0] == [];
      assert Spells(raw[..0], []);
      return 0;
    }
    var step, byte := if raw[0] == PERCENT then 3 else 1, if raw[0] == PERCENT then Escape(raw).value else raw[0];
    var rest := FirstMalformed(raw[step..]);
    i := rest + step;
    var text :| Spells(raw[step..][..rest], text);
    assert raw[..i][step..] == raw[step..][..rest];
    assert raw[step..][rest..] == raw[i..];
    assert ([byte] + text)[1..] == text;
    if step == 3 { assert Escape(raw[..i]) == Escape(raw); }
    assert Spells(raw[..i], [byte] + text);
  }

  // ---- looking a parameter up ----

  /** The value one `&`-separated pair gives `name`. */
  function PairValue(pair: Bytes, name: Bytes): Option<Bytes> {
    var cut := SplitOnce(pair, EQUALS);
    if cut.Some? && cut.value.0 == name then Some(cut.value.1)
    else if pair == name then Some([])
    else None
  }

  function FirstValue(pairs: seq<Bytes>, name: Bytes): Option<Bytes> {
    if pairs == [] then None
    else if PairValue(pairs[0], name).Some? then PairValue(pairs[0], name)
    else FirstValue(pairs[1..], name)
  }

  /** The pairs of a query; an absent query is empty. */
  function PairsOf(query: Option<Bytes>): seq<Bytes> {
    Split(if query.Some? then query.value else [], AMPERSAND)
  }

  /** `query_param`: the raw value of the first pair with this name. */
  function QueryParam(query: Option<Bytes>, name: Bytes): Option<Bytes> {
    FirstValue(PairsOf(query), name)
  }

  /** A pair gives the name a value: `name=value`, or the bare name for the empty one. */
  ghost predicate Gives(pair: Bytes, name: Bytes, value: Bytes) {
    (Free(name, EQUALS) && pair == name + [EQUALS] + value) || (pair == name && value == [])
  }

  ghost predicate GivesNothing(pair: Bytes, name: Bytes) {
    forall value :: !Gives(pair, name, value)
  }

  lemma PairValueIff(pair: Bytes, name: Bytes, value: Bytes)
    ensures PairValue(pair, name) == Some(value) <==> Gives(pair, name, value)
  {
    if Free(name, EQUALS) && pair == name + [EQUALS] + value { SplitOnceAt(name, value, EQUALS); }
    var cut := Find(pair, EQUALS);
    if cut.Some? {
      var at := cut.value;
      assert pair == pair[..at] + [EQUALS] + pair[at + 1..] && pair[at] == EQUALS;
      if pair[..at] == name { assert Free(name, EQUALS); }
    }
  }

  /** The first of the `&`-separated pairs that gives the name a value. */
  ghost predicate FirstGives(pairs: seq<Bytes>, name: Bytes, value: Bytes, at: nat) {
    && at < |pairs| && Gives(pairs[at], name, value)
    && forall i :: 0 <= i < at ==> GivesNothing(pairs[i], name)
  }

  lemma PairValueNone(pair: Bytes, name: Bytes)
    ensures PairValue(pair, name).None? <==> GivesNothing(pair, name)
  {
    if PairValue(pair, name).Some? { PairValueIff(pair, name, PairValue(pair, name).value); }
    forall value | PairValue(pair, name).None? ensures !Gives(pair, name, value) { PairValueIff(pair, name, value); }
  }

  lemma {:induction false} FirstValueIs(pairs: seq<Bytes>, name: Bytes) returns (at: nat)
    ensures FirstValue(pairs, name).Some? ==> FirstGives(pairs, name, FirstValue(pairs, name).value, at)
    ensures FirstValue(pairs, name).None? ==> forall i :: 0 <= i < |pairs| ==> GivesNothing(pairs[i], name)
  {
    at := 0;
    if pairs != [] {
      PairValueNone(pairs[0], name);
      if PairValue(pairs[0], name).Some? {
        PairValueIff(pairs[0], name, PairValue(pairs[0], name).value);
      } else {
        var rest := FirstValueIs(pairs[1..], name);
        at := rest + 1;
        assert forall i :: 0 < i < |pairs| ==> pairs[i] == pairs[1..][i - 1];
      }
    }
  }

  lemma FirstGivesIsUnique(pairs: seq<Bytes>, name: Bytes, a: Bytes, i: nat, b: Bytes, j: nat)
    requires FirstGives(pairs, name, a, i) && FirstGives(pairs, name, b, j)
    ensures a == b
  {
    assert i == j;
    PairValueIff(pairs[i], name, a);
    PairValueIff(pairs[i], name, b);
  }

  /** Any query, as any client writes it: a parameter has a value exactly when some pair gives it one,
      and it is the first such pair's. */
  lemma QueryParamIff(query: Option<Bytes>, name: Bytes, value: Bytes)
    ensures QueryParam(query, name) == Some(value) <==> exists at: nat :: FirstGives(PairsOf(query), name, value, at)
  {
    var pairs := PairsOf(query);
    var at := FirstValueIs(pairs, name);
    forall j: nat | FirstGives(pairs, name, value, j) ensures QueryParam(query, name) == Some(value) {
      if QueryParam(query, name).Some? { FirstGivesIsUnique(pairs, name, value, j, QueryParam(query, name).value, at); }
    }
  }

  // ---- the round trip ----

  function HexDigit(n: nat, upper: bool): (b: Byte)
    requires n < 16
    ensures HexNibble(b) == Some(n)
  {
    if n < 10 then 0x30 + n else if upper then 0x41 + n - 10 else 0x61 + n - 10
  }

  /** Percent-encoding with a given set of escaped bytes, in either case of hex digit. */
  function Encode(text: Bytes, escaped: set<Byte>, upper: bool): Bytes {
    if text == [] then []
    else
      (if text[0] in escaped then [PERCENT, HexDigit(text[0] / 16, upper), HexDigit(text[0] % 16, upper)]
       else [text[0]]) + Encode(text[1..], escaped, upper)
  }

  lemma {:induction false} EncodeSpells(text: Bytes, escaped: set<Byte>, upper: bool)
    requires PERCENT in escaped
    ensures Spells(Encode(text, escaped, upper), text)
  {
    if text != [] {
      EncodeSpells(text[1..], escaped, upper);
      var raw, rest := Encode(text, escaped, upper), Encode(text[1..], escaped, upper);
      if text[0] in escaped {
        assert raw[3..] == rest;
      } else {
        assert raw[1..] == rest;
      }
    }
  }

  lemma {:induction false} EncodeEscapes(text: Bytes, escaped: set<Byte>, upper: bool, b: Byte)
    requires b in escaped && b != PERCENT && HexNibble(b).None?
    ensures Free(Encode(text, escaped, upper), b)
  {
    if text != [] { EncodeEscapes(text[1..], escaped, upper, b); }
  }

  /** A parameter as a client wrote it: some spelling of its text. */
  datatype Parameter = Parameter(name: Bytes, text: Bytes, spelling: Bytes)

  function Pair(p: Parameter): Bytes {
    p.name + [EQUALS] + p.spelling
  }

  function Pairs(ps: seq<Parameter>): seq<Bytes> {
    if ps == [] then [] else [Pair(ps[0])] + Pairs(ps[1..])
  }

  function BuildQuery(ps: seq<Parameter>): Bytes {
    Join(Pairs(ps), [AMPERSAND])
  }

  function FirstNamed(ps: seq<Parameter>, name: Bytes): Option<Parameter> {
    if ps == [] then None
    else if ps[0].name == name then Some(ps[0])
    else FirstNamed(ps[1..], name)
  }

  /** A name a raw lookup can find: no pair or value separator in it. */
  ghost predicate PlainName(name: Bytes) { Free(name, AMPERSAND) && Free(name, EQUALS) }

  /** All a client must do: spell the text, and leave no `&` bare. */
  ghost predicate WellWritten(p: Parameter) {
    PlainName(p.name) && Spells(p.spelling, p.text) && Free(p.spelling, AMPERSAND)
  }

  /** Every encoder that escapes at least `%` and `&` writes parameters well. */
  lemma EncoderWritesWell(name: Bytes, text: Bytes, escaped: set<Byte>, upper: bool)
    requires PlainName(name) && PERCENT in escaped && AMPERSAND in escaped
    ensures WellWritten(Parameter(name, text, Encode(text, escaped, upper)))
  {
    EncodeSpells(text, escaped, upper);
    EncodeEscapes(text, escaped, upper, AMPERSAND);
  }

  lemma {:induction false} PairsAreFree(ps: seq<Parameter>)
    requires forall p :: p in ps ==> WellWritten(p)
    ensures AllFree(Pairs(ps), AMPERSAND)
    ensures |Pairs(ps)| == |ps|
  {
    if ps != [] {
      PairsAreFree(ps[1..]);
      assert WellWritten(ps[0]);
    }
  }

  lemma {:induction false} FirstPairIsFirstNamed(ps: seq<Parameter>, name: Bytes)
    requires PlainName(name) && forall p :: p in ps ==> WellWritten(p)
    ensures FirstNamed(ps, name).Some? ==> FirstNamed(ps, name).value in ps
    ensures FirstValue(Pairs(ps), name) ==
            if FirstNamed(ps, name).None? then None else Some(FirstNamed(ps, name).value.spelling)
  {
    if ps != [] {
      FirstPairIsFirstNamed(ps[1..], name);
      assert WellWritten(ps[0]);
      var pairs := Pairs(ps);
      assert pairs[1..] == Pairs(ps[1..]);
      SplitOnceAt(ps[0].name, ps[0].spelling, EQUALS);
      assert pairs[0][|ps[0].name|] == EQUALS;
      assert pairs[0] != name;
    }
  }

  /** Building a query, looking a name up and decoding what is found gives back the text of the
      first parameter with that name (or nothing, when its bytes are not UTF-8). */
  lemma QueryRoundTrip(ps: seq<Parameter>, name: Bytes)
    requires ps != [] && PlainName(name) && forall p :: p in ps ==> WellWritten(p)
    ensures var found := QueryParam(Some(BuildQuery(ps)), name);
            match FirstNamed(ps, name)
            case None => found.None?
            case Some(p) => found.Some? && Decode(found.value) == if IsUtf8(p.text) then Some(p.text) else None
  {
    PairsAreFree(ps);
    SplitOfJoin(Pairs(ps), AMPERSAND);
    FirstPairIsFirstNamed(ps, name);
    if FirstNamed(ps, name).Some? {
      var p := FirstNamed(ps, name).value;
      assert WellWritten(p);
      UnescapeIffSpells(p.spelling, p.text);
    }
  }
}
