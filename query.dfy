/**
 * The query-string codec of `src/query.rs`: percent decoding with optional
 * `+`-as-space, percent encoding of reserved and non-ASCII characters,
 * parsing `a=b&flag` into parameters, and the four lookups on a parsed query.
 */
module QueryString {
  import opened Wrappers
  import opened Text
  import opened Utf8

  /** One `&`-separated piece of a query: a bare name, or a key with a decoded value. */
  datatype Parameter = Bool(name: string) | Value(key: string, value: string)
  {
    /** The piece is named `k`, whichever kind it is. */
    predicate HasKey(k: string)
    {
      match this
      case Bool(name) => name == k
      case Value(key, _) => key == k
    }

    predicate IsValueFor(k: string)
    {
      Value? && key == k
    }
  }

  datatype QueryParseError = InvalidUtf8

  // ---------------------------------------------------------------------
  // Hex digits

  /** `char::is_ascii_hexdigit`. */
  predicate IsHexDigit(c: char)
  {
    '0' <= c <= '9' || 'a' <= c <= 'f' || 'A' <= c <= 'F'
  }

  /** The sixteen digits `{:x}` writes, in order of value. */
  const LowerHexDigits: string := "0123456789abcdef"

  /** `char::to_digit(16)` on a hex digit, either case. */
  function HexValue(c: char): (d: nat)
    requires IsHexDigit(c)
    ensures d < 16
    ensures if 'A' <= c <= 'F' then LowerHexDigits[d] == (c as int + 32) as char
            else LowerHexDigits[d] == c
  {
    if '0' <= c <= '9' then c as int - '0' as int
    else if 'a' <= c <= 'f' then c as int - 'a' as int + 10
    else c as int - 'A' as int + 10
  }

  /** An upper-case hex digit has the value of its lower-case form. */
  lemma HexValueEitherCase(c: char)
    requires 'a' <= c <= 'f'
    ensures IsHexDigit((c as int - 32) as char) && HexValue((c as int - 32) as char) == HexValue(c)
  {
  }

  /** The lowercase hex digit `{:x}` writes for `d`. */
  function LowerHexDigit(d: nat): (c: char)
    requires d < 16
    ensures IsHexDigit(c) && HexValue(c) == d
    ensures !('A' <= c <= 'F')
  {
    LowerHexDigits[d]
  }

  // ---------------------------------------------------------------------
  // url_decode

  const Space: Byte := 0x20
  const Plus: Byte := 0x2B
  const Percent: Byte := 0x25

  /**
   * The bytes `url_decode` collects before the UTF-8 check, one step of
   * its loop per case: `+`, a well-formed `%xx`, a `%` followed by one hex
   * digit only, a `%` followed by no hex digit, any other character.
   */
  function DecodedBytes(s: string, plusAsSpace: bool): seq<Byte>
    decreases |s|
  {
    if s == [] then []
    else if s[0] == '+' then
      [if plusAsSpace then Space else Plus] + DecodedBytes(s[1..], plusAsSpace)
    else if s[0] == '%' then
      if |s| >= 2 && IsHexDigit(s[1]) then
        if |s| >= 3 && IsHexDigit(s[2]) then
          [HexValue(s[1]) * 16 + HexValue(s[2])] + DecodedBytes(s[3..], plusAsSpace)
        else
          [Percent] + EncodeChar(s[1]) + DecodedBytes(s[2..], plusAsSpace)
      else
        [Percent] + DecodedBytes(s[1..], plusAsSpace)
    else
      EncodeChar(s[0]) + DecodedBytes(s[1..], plusAsSpace)
  }

  /** `String::from_utf8(..).map_err(|_| InvalidUtf8)`. */
  function FromUtf8(b: seq<Byte>): (r: Result<string, QueryParseError>)
    ensures r.Ok? ==> EncodeString(r.value) == b
  {
    match Decode(b)
    case None => Err(InvalidUtf8)
    case Some(t) => Ok(t)
  }

  /** What `url_decode` returns: the collected bytes as a string, or `InvalidUtf8`. */
  function UrlDecoding(s: string, plusAsSpace: bool): Result<string, QueryParseError>
  {
    FromUtf8(DecodedBytes(s, plusAsSpace))
  }

  /**
   * One turn of the loop of `Query::url_decode`: the bytes pushed for the
   * characters starting at `s[i]`, and the index of the first character
   * not yet read.
   */
  method DecodeNext(s: string, i: nat, plusAsSpace: bool) returns (pushed: seq<Byte>, next: nat)
    requires i < |s|
    ensures i < next <= |s|
    ensures DecodedBytes(s[i..], plusAsSpace) == pushed + DecodedBytes(s[next..], plusAsSpace)
  {
    ghost var rest := s[i..];
    var c := s[i];
    next := i + 1;
    assert rest[0] == c && rest[1..] == s[next..];
    if c == '+' {
      pushed := [if plusAsSpace then Space else Plus];
    } else if c == '%' {
      if next < |s| && IsHexDigit(s[next]) {
        var upper := s[next];
        next := next + 1;
        assert rest[1] == upper && rest[2..] == s[next..];
        if next < |s| && IsHexDigit(s[next]) {
          var lower := s[next];
          next := next + 1;
          assert rest[2] == lower && rest[3..] == s[next..];
          pushed := [HexValue(upper) * 16 + HexValue(lower)];
        } else {
          pushed := [Percent] + EncodeChar(upper);
        }
      } else {
        pushed := [Percent];
      }
    } else {
      pushed := EncodeChar(c);
    }
  }

  /** `Query::url_decode`: walks the characters once, pushing bytes into a buffer. */
  method UrlDecode(urlencoded: string, plusAsSpace: bool) returns (r: Result<string, QueryParseError>)
    ensures r == FromUtf8(DecodedBytes(urlencoded, plusAsSpace))
  {
    var s := urlencoded;
    var uncoded: seq<Byte> := [];
    var i := 0;
    while i < |s|
      invariant 0 <= i <= |s|
      invariant uncoded + DecodedBytes(s[i..], plusAsSpace) == DecodedBytes(s, plusAsSpace)
    {
      var pushed, next := DecodeNext(s, i, plusAsSpace);
      Associative(uncoded, pushed, DecodedBytes(s[next..], plusAsSpace));
      uncoded := uncoded + pushed;
      i := next;
    }
    assert s[i..] == [];
    assert uncoded == DecodedBytes(s, plusAsSpace);
    r := FromUtf8(uncoded);
  }

  /** `url_decode` fails exactly when the collected bytes are no string's UTF-8 form. */
  lemma UrlDecodingFailsIff(s: string, plusAsSpace: bool)
    ensures UrlDecoding(s, plusAsSpace).Err? <==>
              !exists t :: EncodeString(t) == DecodedBytes(s, plusAsSpace)
    ensures UrlDecoding(s, plusAsSpace).Ok? ==>
              EncodeString(UrlDecoding(s, plusAsSpace).value) == DecodedBytes(s, plusAsSpace)
  {
    DecodeSucceedsIff(DecodedBytes(s, plusAsSpace));
  }

  /** An unescaped `+` is a space in `plusAsSpace` mode and stays `+` otherwise. */
  lemma DecodePlus(rest: string, plusAsSpace: bool)
    ensures DecodedBytes("+" + rest, plusAsSpace)
            == [if plusAsSpace then ' ' as Byte else '+' as Byte] + DecodedBytes(rest, plusAsSpace)
  {
    assert ("+" + rest)[1..] == rest;
  }

  /** `%2B` (or `%2b`) is always a `+`, never a space. */
  lemma DecodeEscapedPlus(rest: string, plusAsSpace: bool)
    ensures DecodedBytes("%2B" + rest, plusAsSpace) == ['+' as Byte] + DecodedBytes(rest, plusAsSpace)
    ensures DecodedBytes("%2b" + rest, plusAsSpace) == ['+' as Byte] + DecodedBytes(rest, plusAsSpace)
  {
    assert ("%2B" + rest)[3..] == rest;
    assert ("%2b" + rest)[3..] == rest;
  }

  /** `%` and two hex digits of either case give the single byte `upper * 16 + lower`. */
  lemma DecodeEscape(h: char, l: char, rest: string, plusAsSpace: bool)
    requires IsHexDigit(h) && IsHexDigit(l)
    ensures DecodedBytes(['%', h, l] + rest, plusAsSpace)
            == [HexValue(h) * 16 + HexValue(l)] + DecodedBytes(rest, plusAsSpace)
  {
    assert (['%', h, l] + rest)[3..] == rest;
  }

  /** A `%` not followed by a hex digit is copied, and the next character is read normally. */
  lemma DecodeBarePercent(rest: string, plusAsSpace: bool)
    requires rest == [] || !IsHexDigit(rest[0])
    ensures DecodedBytes("%" + rest, plusAsSpace) == [Percent] + DecodedBytes(rest, plusAsSpace)
  {
    assert ("%" + rest)[1..] == rest;
  }

  /** A `%` followed by one hex digit and then no hex digit is copied together with that digit. */
  lemma DecodeHalfEscape(h: char, rest: string, plusAsSpace: bool)
    requires IsHexDigit(h)
    requires rest == [] || !IsHexDigit(rest[0])
    ensures DecodedBytes(['%', h] + rest, plusAsSpace)
            == [Percent, h as int as Byte] + DecodedBytes(rest, plusAsSpace)
  {
    assert (['%', h] + rest)[2..] == rest;
  }

  /** A string with no `%` and no `+` decodes to itself in either mode. */
  lemma {:induction false} DecodePlain(s: string, plusAsSpace: bool)
    requires '%' !in s && '+' !in s
    ensures DecodedBytes(s, plusAsSpace) == EncodeString(s)
    ensures UrlDecoding(s, plusAsSpace) == Ok(s)
  {
    if s != [] {
      assert s[0] in s;
      assert forall c :: c in s[1..] ==> c in s;
      DecodePlain(s[1..], plusAsSpace);
    }
    DecodeEncode(s);
  }

  // ---------------------------------------------------------------------
  // url_encode

  /** `char::is_ascii_graphic`: `!` to `~`. */
  predicate IsAsciiGraphic(c: char)
  {
    '!' <= c <= '~'
  }

  const Reserved: string := "!#$%'()*+,/:;=?@[]"

  /** The closure `should_encode` of `url_encode`. */
  predicate ShouldEncode(c: char)
  {
    !IsAsciiGraphic(c) || c in Reserved
  }

  /** `format!("%{:02x}", byte)`. */
  function Escape(b: Byte): (r: string)
    ensures |r| == 3 && r[0] == '%' && IsHexDigit(r[1]) && IsHexDigit(r[2])
    ensures HexValue(r[1]) * 16 + HexValue(r[2]) == b
    ensures !('A' <= r[1] <= 'F') && !('A' <= r[2] <= 'F')
  {
    ['%', LowerHexDigit(b / 16), LowerHexDigit(b % 16)]
  }

  /** Each byte escaped in turn, as the inner loop of `url_encode` pushes them. */
  function EscapeAll(bytes: seq<Byte>): string
  {
    if bytes == [] then [] else Escape(bytes[0]) + EscapeAll(bytes[1..])
  }

  /** What `url_encode` writes for one character. */
  function EncodedChar(c: char): string
  {
    if ShouldEncode(c) then EscapeAll(EncodeChar(c)) else [c]
  }

  /** What `url_encode` returns: the characters' encodings one after another. */
  function UrlEncoding(s: string): string
  {
    if s == [] then [] else EncodedChar(s[0]) + UrlEncoding(s[1..])
  }

  /** The inner loop of `url_encode`: `%xx` pushed for each byte in turn. */
  method PushEscaped(prefix: string, bytes: seq<Byte>) returns (encoded: string)
    ensures encoded == prefix + EscapeAll(bytes)
  {
    encoded := prefix;
    var j := 0;
    while j < |bytes|
      invariant 0 <= j <= |bytes|
      invariant encoded + EscapeAll(bytes[j..]) == prefix + EscapeAll(bytes)
    {
      EscapeAllStep(bytes, j);
      encoded := encoded + Escape(bytes[j]);
      j := j + 1;
    }
    assert bytes[j..] == [];
  }

  /** `Query::url_encode`. */
  method UrlEncode(raw: string) returns (encoded: string)
    ensures encoded == UrlEncoding(raw)
  {
    encoded := [];
    var i := 0;
    while i < |raw|
      invariant 0 <= i <= |raw|
      invariant encoded + UrlEncoding(raw[i..]) == UrlEncoding(raw)
    {
      var c := raw[i];
      assert raw[i..][0] == c && raw[i..][1..] == raw[i + 1..];
      assert UrlEncoding(raw[i..]) == EncodedChar(c) + UrlEncoding(raw[i + 1..]);
      ghost var before := encoded;
      if ShouldEncode(c) {
        var bytes := EncodeChar(c);
        encoded := PushEscaped(encoded, bytes);
      } else {
        encoded := encoded + [c];
      }
      assert encoded == before + EncodedChar(c);
      Associative(before, EncodedChar(c), UrlEncoding(raw[i + 1..]));
      i := i + 1;
    }
    assert raw[i..] == [];
  }

  lemma EscapeAllStep(bytes: seq<Byte>, j: nat)
    requires j < |bytes|
    ensures EscapeAll(bytes[j..]) == Escape(bytes[j]) + EscapeAll(bytes[j + 1..])
  {
    assert bytes[j..][1..] == bytes[j + 1..];
  }

  lemma {:induction false} EscapeAllIsGraphic(bytes: seq<Byte>)
    ensures |EscapeAll(bytes)| == 3 * |bytes|
    ensures forall k :: 0 <= k < |EscapeAll(bytes)| ==>
              IsAsciiGraphic(EscapeAll(bytes)[k]) && EscapeAll(bytes)[k] != '+'
  {
    if bytes != [] {
      EscapeAllIsGraphic(bytes[1..]);
    }
  }

  /** The encoding uses only ASCII graphic characters and never a raw `+`. */
  lemma {:induction false} UrlEncodingIsGraphic(s: string)
    ensures forall k :: 0 <= k < |UrlEncoding(s)| ==>
              IsAsciiGraphic(UrlEncoding(s)[k]) && UrlEncoding(s)[k] != '+'
  {
    if s != [] {
      assert Reserved[8] == '+';
      EscapeAllIsGraphic(EncodeChar(s[0]));
      UrlEncodingIsGraphic(s[1..]);
    }
  }

  /** Encoding is done character by character: it distributes over concatenation. */
  lemma {:induction false} UrlEncodingAppend(s: string, t: string)
    ensures UrlEncoding(s + t) == UrlEncoding(s) + UrlEncoding(t)
  {
    if s == [] {
      assert s + t == t;
    } else {
      assert (s + t)[0] == s[0] && (s + t)[1..] == s[1..] + t;
      UrlEncodingAppend(s[1..], t);
    }
  }

  /** Decoding reads one escape back as the byte it was written for. */
  lemma DecodeEscapeStep(b: Byte, tail: string, plusAsSpace: bool)
    ensures DecodedBytes(Escape(b) + tail, plusAsSpace) == [b] + DecodedBytes(tail, plusAsSpace)
  {
    var e := Escape(b);
    DecodeEscape(e[1], e[2], tail, plusAsSpace);
    assert e == ['%', e[1], e[2]];
  }

  lemma {:induction false} DecodeEscapeAll(bytes: seq<Byte>, rest: string, plusAsSpace: bool)
    ensures DecodedBytes(EscapeAll(bytes) + rest, plusAsSpace) == bytes + DecodedBytes(rest, plusAsSpace)
  {
    if bytes == [] {
      assert EscapeAll(bytes) + rest == rest;
    } else {
      var more := EscapeAll(bytes[1..]);
      assert EscapeAll(bytes) == Escape(bytes[0]) + more;
      Associative(Escape(bytes[0]), more, rest);
      DecodeEscapeStep(bytes[0], more + rest, plusAsSpace);
      DecodeEscapeAll(bytes[1..], rest, plusAsSpace);
      Associative([bytes[0]], bytes[1..], DecodedBytes(rest, plusAsSpace));
      assert [bytes[0]] + bytes[1..] == bytes;
    }
  }

  lemma DecodeEncodedChar(c: char, rest: string, plusAsSpace: bool)
    ensures DecodedBytes(EncodedChar(c) + rest, plusAsSpace) == EncodeChar(c) + DecodedBytes(rest, plusAsSpace)
  {
    if ShouldEncode(c) {
      DecodeEscapeAll(EncodeChar(c), rest, plusAsSpace);
    } else {
      assert Reserved[3] == '%' && Reserved[8] == '+';
      assert ([c] + rest)[1..] == rest;
    }
  }

  lemma {:induction false} DecodedBytesOfEncoding(s: string, plusAsSpace: bool)
    ensures DecodedBytes(UrlEncoding(s), plusAsSpace) == EncodeString(s)
  {
    if s != [] {
      DecodeEncodedChar(s[0], UrlEncoding(s[1..]), plusAsSpace);
      DecodedBytesOfEncoding(s[1..], plusAsSpace);
    }
  }

  /** Decoding an encoded string gives it back, with `+` read either way. */
  lemma UrlRoundTrip(s: string, plusAsSpace: bool)
    ensures UrlDecoding(UrlEncoding(s), plusAsSpace) == Ok(s)
  {
    DecodedBytesOfEncoding(s, plusAsSpace);
    DecodeEncode(s);
  }

  // ---------------------------------------------------------------------
  // FromStr for Query and the lookups

  /** A parsed query: its parameters in the order they appear. */
  datatype Query = Query(parameters: seq<Parameter>)
  {
    /** `Query::has`: some parameter, of either kind, has this name. */
    predicate Has(key: string)
      decreases |parameters|
      ensures Has(key) <==> exists i :: 0 <= i < |parameters| && parameters[i].HasKey(key)
    {
      if parameters == [] then false
      else if parameters[0].HasKey(key) then true
      else
        var tail := Query(parameters[1..]);
        assert forall i :: 1 <= i < |parameters| ==> parameters[i] == tail.parameters[i - 1];
        tail.Has(key)
    }

    /** `Query::has_value`: some key-value parameter has this key. */
    predicate HasValue(key: string)
      decreases |parameters|
      ensures HasValue(key) <==> exists i :: 0 <= i < |parameters| && parameters[i].IsValueFor(key)
    {
      if parameters == [] then false
      else if parameters[0].IsValueFor(key) then true
      else
        var tail := Query(parameters[1..]);
        assert forall i :: 1 <= i < |parameters| ==> parameters[i] == tail.parameters[i - 1];
        tail.HasValue(key)
    }

    /** `Query::has_bool`: some bare parameter has this name. */
    predicate HasBool(name: string)
      decreases |parameters|
      ensures HasBool(name) <==> Bool(name) in parameters
    {
      if parameters == [] then false
      else if parameters[0] == Bool(name) then true
      else Query(parameters[1..]).HasBool(name)
    }

    /** `Query::get_first_value`: the value of the first key-value parameter with this key. */
    function GetFirstValue(search: string): (r: Option<string>)
      decreases |parameters|
      ensures r.None? <==> !exists i :: 0 <= i < |parameters| && parameters[i].IsValueFor(search)
      ensures r.Some? ==> exists i :: 0 <= i < |parameters| && parameters[i] == Value(search, r.value) &&
                                      forall j :: 0 <= j < i ==> !parameters[j].IsValueFor(search)
    {
      if parameters == [] then None
      else if parameters[0].IsValueFor(search) then Some(parameters[0].value)
      else
        var tail := Query(parameters[1..]);
        assert forall i :: 1 <= i < |parameters| ==> parameters[i] == tail.parameters[i - 1];
        var r := tail.GetFirstValue(search);
        assert r.Some? ==> exists i :: 0 <= i < |parameters| && parameters[i] == Value(search, r.value) &&
                                       forall j :: 0 <= j < i ==> !parameters[j].IsValueFor(search) by {
          if r.Some? {
            var i :| 0 <= i < |tail.parameters| && tail.parameters[i] == Value(search, r.value) &&
                     forall j :: 0 <= j < i ==> !tail.parameters[j].IsValueFor(search);
            assert parameters[i + 1] == Value(search, r.value);
            assert forall j :: 0 <= j < i + 1 ==> !parameters[j].IsValueFor(search);
          }
        }
        r
    }
  }

  /** `has` is `has_value` or `has_bool`. */
  lemma HasIsValueOrBool(q: Query, key: string)
    ensures q.Has(key) <==> q.HasValue(key) || q.HasBool(key)
  {
    if q.Has(key) {
      var i :| 0 <= i < |q.parameters| && q.parameters[i].HasKey(key);
      if q.parameters[i].Bool? {
        assert q.parameters[i] == Bool(key);
      }
    }
    if q.HasBool(key) {
      var i :| 0 <= i < |q.parameters| && q.parameters[i] == Bool(key);
      assert q.parameters[i].HasKey(key);
    }
  }

  /** `get_first_value` finds something exactly when `has_value` holds. */
  lemma FirstValueIffHasValue(q: Query, key: string)
    ensures q.GetFirstValue(key).Some? <==> q.HasValue(key)
  {
  }

  /** One `&`-separated piece: split at its first `=`, the raw value decoded with `+` as space. */
  function ParseParameter(piece: string): (r: Result<Parameter, QueryParseError>)
    ensures '=' !in piece ==> r == Ok(Bool(piece))
    ensures r.Ok? ==> (r.value.Bool? <==> '=' !in piece)
    ensures r.Ok? && r.value.Value? ==>
              exists raw :: piece == r.value.key + "=" + raw && '=' !in r.value.key &&
                            UrlDecoding(raw, true) == Ok(r.value.value)
    ensures r.Err? <==> exists key, raw :: piece == key + "=" + raw && '=' !in key &&
                                          UrlDecoding(raw, true).Err?
  {
    match SplitOnce(piece, '=')
    case None => Ok(Bool(piece))
    case Some((key, raw)) =>
      assert piece == key + "=" + raw;
      assert forall key', raw' :: piece == key' + "=" + raw' && '=' !in key' ==> key' == key && raw' == raw by {
        forall key', raw' | piece == key' + "=" + raw' && '=' !in key' ensures key' == key && raw' == raw {
          SplitOnceAt(key', '=', raw');
        }
      }
      match UrlDecoding(raw, true)
      case Err(e) => Err(e)
      case Ok(value) => Ok(Value(key, value))
  }

  /** The pieces parsed in order; the first piece that fails to decode fails the whole parse. */
  function ParseParameters(pieces: seq<string>): (r: Result<seq<Parameter>, QueryParseError>)
    ensures r.Ok? <==> forall k :: 0 <= k < |pieces| ==> ParseParameter(pieces[k]).Ok?
    ensures r.Ok? ==> |r.value| == |pieces| &&
                      forall k :: 0 <= k < |pieces| ==> r.value[k] == ParseParameter(pieces[k]).value
  {
    if pieces == [] then Ok([])
    else match ParseParameter(pieces[0])
      case Err(e) => Err(e)
      case Ok(p) =>
        match ParseParameters(pieces[1..])
        case Err(e) =>
          assert exists k :: 1 <= k < |pieces| && ParseParameter(pieces[k]).Err? by {
            var k :| 0 <= k < |pieces[1..]| && ParseParameter(pieces[1..][k]).Err?;
            assert pieces[k + 1] == pieces[1..][k];
          }
          Err(e)
        case Ok(ps) =>
          assert forall k :: 1 <= k < |pieces| ==> pieces[k] == pieces[1..][k - 1];
          Ok([p] + ps)
  }

  /** What `Query::from_str` returns. */
  function ParseQuery(s: string): (r: Result<Query, QueryParseError>)
    ensures r.Ok? <==> forall k :: 0 <= k < |Split(s, '&')| ==> ParseParameter(Split(s, '&')[k]).Ok?
    ensures r.Ok? ==> |r.value.parameters| == |Split(s, '&')| &&
                      forall k :: 0 <= k < |Split(s, '&')| ==>
                        r.value.parameters[k] == ParseParameter(Split(s, '&')[k]).value
  {
    match ParseParameters(Split(s, '&'))
    case Err(e) => Err(e)
    case Ok(ps) => Ok(Query(ps))
  }

  /** `FromStr for Query`: one parameter per `&`-separated piece, pushed in order. */
  method FromStr(s: string) returns (r: Result<Query, QueryParseError>)
    ensures r == ParseQuery(s)
  {
    var splits := Split(s, '&');
    var parameters: seq<Parameter> := [];
    for n := 0 to |splits|
      invariant |parameters| == n
      invariant forall k :: 0 <= k < n ==>
                  ParseParameter(splits[k]).Ok? && parameters[k] == ParseParameter(splits[k]).value
    {
      var split := splits[n];
      var p: Parameter;
      match SplitOnce(split, '=') {
        case None =>
          p := Bool(split);
        case Some((key, raw)) =>
          var value := UrlDecode(raw, true);
          if value.Err? {
            assert ParseParameter(splits[n]).Err?;
            assert ParseParameters(splits).Err?;
            assert ParseQuery(s).Err?;
            // `QueryParseError` has one case, so both errors are `InvalidUtf8`.
            assert ParseQuery(s).error == InvalidUtf8 && value.error == InvalidUtf8;
            return Err(value.error);
          }
          p := Value(key, value.value);
      }
      assert ParseParameter(split) == Ok(p);
      ghost var before := parameters;
      parameters := parameters + [p];
      forall k | 0 <= k < n + 1
        ensures ParseParameter(splits[k]).Ok? && parameters[k] == ParseParameter(splits[k]).value
      {
        if k < n {
          assert parameters[k] == before[k];
        }
      }
    }
    assert ParseParameters(splits).Ok? && ParseParameters(splits).value == parameters;
    assert ParseQuery(s) == Ok(Query(parameters));
    return Ok(Query(parameters));
  }
}
