/**
 * `src/cookie.rs`: the `SetCookie` builder with its `Set-Cookie` header
 * text, and `parse_header`, which reads a `Cookie` request header into a
 * map from cookie name to value.
 */
module Cookie {
  import opened Wrappers
  import opened Text

  /** `std::time::Duration`: whole seconds and the nanoseconds below one second. */
  datatype Duration = Duration(secs: nat, nanos: nat)

  /**
   * A `Set-Cookie` header under construction. The expiration is kept as
   * the date text the header carries (the date type and its formatting are
   * not part of this model).
   */
  datatype SetCookie = SetCookie(
    key: string,
    value: string,
    expiration: Option<string>,
    maxAge: Option<Duration>,
    secure: bool,
    httponly: bool,
    path: Option<string>)
  {
    /** `SetCookie::secure`: sets the `Secure` flag and nothing else. */
    function Secure(flag: bool): (c: SetCookie)
      ensures c.secure == flag
      ensures c.(secure := secure) == this
    {
      this.(secure := flag)
    }

    /** `SetCookie::httponly`: sets the `HttpOnly` flag and nothing else. */
    function HttpOnly(flag: bool): (c: SetCookie)
      ensures c.httponly == flag
      ensures c.(httponly := httponly) == this
    {
      this.(httponly := flag)
    }

    /** `SetCookie::max_age`: sets or clears the maximum age and nothing else. */
    function MaxAge(seconds: Option<Duration>): (c: SetCookie)
      ensures c.maxAge == seconds
      ensures c.(maxAge := maxAge) == this
    {
      this.(maxAge := seconds)
    }

    /** `SetCookie::path`: sets or clears the path and nothing else. */
    function Path(p: Option<string>): (c: SetCookie)
      ensures c.path == p
      ensures c.(path := path) == this
    {
      this.(path := p)
    }
  }

  /** `SetCookie::new`: secure and HTTP-only, with no expiration, maximum age or path. */
  function New(key: string, value: string): (c: SetCookie)
    ensures c.key == key && c.value == value
    ensures c.secure && c.httponly
    ensures c.expiration.None? && c.maxAge.None? && c.path.None?
  {
    SetCookie(key, value, None, None, true, true, None)
  }

  /** A call of one of the public builder methods. */
  datatype BuilderCall =
    | CallSecure(flag: bool)
    | CallHttpOnly(flag: bool)
    | CallMaxAge(seconds: Option<Duration>)
    | CallPath(p: Option<string>)

  function Apply(c: SetCookie, call: BuilderCall): SetCookie
  {
    match call
    case CallSecure(flag) => c.Secure(flag)
    case CallHttpOnly(flag) => c.HttpOnly(flag)
    case CallMaxAge(seconds) => c.MaxAge(seconds)
    case CallPath(p) => c.Path(p)
  }

  /** `SetCookie::new(key, value)` followed by the builder calls, in order. */
  function Build(key: string, value: string, calls: seq<BuilderCall>): SetCookie
  {
    if calls == [] then New(key, value)
    else Apply(Build(key, value, calls[..|calls| - 1]), calls[|calls| - 1])
  }

  /**
   * No public way of building a `SetCookie` sets an expiration, so the
   * `Expires` attribute is never written for such a cookie.
   */
  lemma {:induction false} BuildHasNoExpiration(key: string, value: string, calls: seq<BuilderCall>)
    ensures Build(key, value, calls).expiration.None?
    ensures Build(key, value, calls).key == key && Build(key, value, calls).value == value
  {
    if calls != [] {
      BuildHasNoExpiration(key, value, calls[..|calls| - 1]);
    }
  }

  // ---------------------------------------------------------------------
  // as_string

  /** One attribute of the header after `key=value`. */
  datatype Attribute =
    | Expires(date: string)
    | MaxAgeSeconds(secs: nat)
    | SecureFlag
    | HttpOnlyFlag
    | PathAttribute(path: string)
  {
    /** Where the attribute stands in the header: `Expires`, `Max-Age`, `Secure`, `HttpOnly`, `Path`. */
    function Rank(): nat
    {
      match this
      case Expires(_) => 0
      case MaxAgeSeconds(_) => 1
      case SecureFlag => 2
      case HttpOnlyFlag => 3
      case PathAttribute(_) => 4
    }

    /** The attribute as the header spells it, with the `"; "` that precedes it. */
    function Segment(): string
    {
      match this
      case Expires(date) => "; Expires=" + date
      case MaxAgeSeconds(secs) => "; Max-Age=" + DecimalString(secs)
      case SecureFlag => "; Secure"
      case HttpOnlyFlag => "; HttpOnly"
      case PathAttribute(path) => "; Path=" + path
    }
  }

  /** `attributes`, followed by `a` when `present` holds. */
  function AppendIf(attributes: seq<Attribute>, present: bool, a: Attribute): seq<Attribute>
  {
    if present then attributes + [a] else attributes
  }

  /**
   * The attributes `as_string` writes after `key=value`: each only when it
   * is set, always in the same order.
   */
  function Attributes(c: SetCookie): seq<Attribute>
  {
    var expires := AppendIf([], c.expiration.Some?, Expires(if c.expiration.Some? then c.expiration.value else []));
    var maxAge := AppendIf(expires, c.maxAge.Some?, MaxAgeSeconds(if c.maxAge.Some? then c.maxAge.value.secs else 0));
    var secure := AppendIf(maxAge, c.secure, SecureFlag);
    var httponly := AppendIf(secure, c.httponly, HttpOnlyFlag);
    AppendIf(httponly, c.path.Some?, PathAttribute(if c.path.Some? then c.path.value else []))
  }

  /** Each rank is below the next one, and the last is below `n`. */
  predicate RanksAscend(attributes: seq<Attribute>, n: nat)
  {
    attributes == [] ||
    var last := attributes[|attributes| - 1];
    last.Rank() < n && RanksAscend(attributes[..|attributes| - 1], last.Rank())
  }

  /** Ranks that ascend step by step increase between any two positions. */
  lemma {:induction false} RanksAscendIncreasing(attributes: seq<Attribute>, n: nat)
    requires RanksAscend(attributes, n)
    ensures forall k :: 0 <= k < |attributes| ==> attributes[k].Rank() < n
    ensures forall i, j :: 0 <= i < j < |attributes| ==> attributes[i].Rank() < attributes[j].Rank()
  {
    if attributes != [] {
      var init := attributes[..|attributes| - 1];
      RanksAscendIncreasing(init, attributes[|attributes| - 1].Rank());
      assert forall k :: 0 <= k < |init| ==> init[k] == attributes[k];
    }
  }

  lemma AppendIfAscends(attributes: seq<Attribute>, present: bool, a: Attribute)
    requires RanksAscend(attributes, a.Rank())
    ensures RanksAscend(AppendIf(attributes, present, a), a.Rank() + 1)
  {
    if present {
      assert (attributes + [a])[..|attributes|] == attributes;
    } else if attributes != [] {
      assert RanksAscend(attributes[..|attributes| - 1], attributes[|attributes| - 1].Rank());
    }
  }

  lemma ChainAscends(e: Attribute, m: Attribute, p: Attribute, b1: bool, b2: bool, b3: bool, b4: bool, b5: bool)
    requires e.Expires? && m.MaxAgeSeconds? && p.PathAttribute?
    ensures RanksAscend(AppendIf(AppendIf(AppendIf(AppendIf(AppendIf([], b1, e), b2, m), b3, SecureFlag), b4, HttpOnlyFlag), b5, p), 5)
  {
    AppendIfAscends([], b1, e);
    var s1 := AppendIf([], b1, e);
    AppendIfAscends(s1, b2, m);
    var s2 := AppendIf(s1, b2, m);
    AppendIfAscends(s2, b3, SecureFlag);
    var s3 := AppendIf(s2, b3, SecureFlag);
    AppendIfAscends(s3, b4, HttpOnlyFlag);
    AppendIfAscends(AppendIf(s3, b4, HttpOnlyFlag), b5, p);
  }

  /** Every attribute is written at most once, in the order `Expires`, `Max-Age`, `Secure`, `HttpOnly`, `Path`. */
  lemma AttributesInOrder(c: SetCookie)
    ensures forall i, j :: 0 <= i < j < |Attributes(c)| ==> Attributes(c)[i].Rank() < Attributes(c)[j].Rank()
  {
    var e := Expires(if c.expiration.Some? then c.expiration.value else []);
    var m := MaxAgeSeconds(if c.maxAge.Some? then c.maxAge.value.secs else 0);
    var p := PathAttribute(if c.path.Some? then c.path.value else []);
    ChainAscends(e, m, p, c.expiration.Some?, c.maxAge.Some?, c.secure, c.httponly, c.path.Some?);
    RanksAscendIncreasing(Attributes(c), 5);
  }

  /** An attribute is written exactly when the cookie sets it; the maximum age in whole seconds. */
  lemma AttributesPresent(c: SetCookie)
    ensures forall date :: Expires(date) in Attributes(c) <==> c.expiration == Some(date)
    ensures forall secs :: MaxAgeSeconds(secs) in Attributes(c) <==> c.maxAge.Some? && c.maxAge.value.secs == secs
    ensures SecureFlag in Attributes(c) <==> c.secure
    ensures HttpOnlyFlag in Attributes(c) <==> c.httponly
    ensures forall path :: PathAttribute(path) in Attributes(c) <==> c.path == Some(path)
  {
    forall date { AttributesMembers(c, Expires(date)); }
    forall secs { AttributesMembers(c, MaxAgeSeconds(secs)); }
    AttributesMembers(c, SecureFlag);
    AttributesMembers(c, HttpOnlyFlag);
    forall path { AttributesMembers(c, PathAttribute(path)); }
  }

  /** The field of `c` that puts attribute `x` into its header. */
  predicate Present(c: SetCookie, x: Attribute)
  {
    match x
    case Expires(date) => c.expiration == Some(date)
    case MaxAgeSeconds(secs) => c.maxAge.Some? && c.maxAge.value.secs == secs
    case SecureFlag => c.secure
    case HttpOnlyFlag => c.httponly
    case PathAttribute(path) => c.path == Some(path)
  }

  lemma AppendIfMembers(attributes: seq<Attribute>, present: bool, a: Attribute, x: Attribute)
    ensures x in AppendIf(attributes, present, a) <==> x in attributes || (present && x == a)
  {
  }

  /** An attribute is written exactly when the field behind it is set. */
  lemma AttributesMembers(c: SetCookie, x: Attribute)
    ensures x in Attributes(c) <==> Present(c, x)
  {
    var expires := AppendIf([], c.expiration.Some?, Expires(if c.expiration.Some? then c.expiration.value else []));
    var maxAge := AppendIf(expires, c.maxAge.Some?, MaxAgeSeconds(if c.maxAge.Some? then c.maxAge.value.secs else 0));
    var secure := AppendIf(maxAge, c.secure, SecureFlag);
    var httponly := AppendIf(secure, c.httponly, HttpOnlyFlag);
    assert Attributes(c) == AppendIf(httponly, c.path.Some?, PathAttribute(if c.path.Some? then c.path.value else []));
  }

  /** The segments of the attributes, one after another. */
  function Segments(attributes: seq<Attribute>): string
  {
    if attributes == [] then [] else attributes[0].Segment() + Segments(attributes[1..])
  }

  lemma {:induction false} SegmentsConcat(a: seq<Attribute>, b: seq<Attribute>)
    ensures Segments(a + b) == Segments(a) + Segments(b)
  {
    if a == [] {
      assert a + b == b;
    } else {
      assert (a + b)[0] == a[0] && (a + b)[1..] == a[1..] + b;
      SegmentsConcat(a[1..], b);
    }
  }

  /** The header text of a cookie: `key=value`, then its attributes. */
  function Header(c: SetCookie): (r: string)
    ensures c.key + "=" + c.value <= r
  {
    c.key + "=" + c.value + Segments(Attributes(c))
  }

  /** `SetCookie::as_string`: starts from `key=value` and appends each set attribute in turn. */
  method AsString(c: SetCookie) returns (cookie: string)
    ensures cookie == Header(c)
  {
    cookie := c.key + "=" + c.value;
    ghost var start := cookie;
    ghost var written: seq<Attribute> := [];
    assert cookie == start + Segments(written);
    if c.expiration.Some? {
      Written(start, written, Expires(c.expiration.value));
      cookie := cookie + Expires(c.expiration.value).Segment();
      written := written + [Expires(c.expiration.value)];
    }
    assert cookie == start + Segments(written);
    if c.maxAge.Some? {
      Written(start, written, MaxAgeSeconds(c.maxAge.value.secs));
      cookie := cookie + MaxAgeSeconds(c.maxAge.value.secs).Segment();
      written := written + [MaxAgeSeconds(c.maxAge.value.secs)];
    }
    assert cookie == start + Segments(written);
    if c.secure {
      Written(start, written, SecureFlag);
      cookie := cookie + SecureFlag.Segment();
      written := written + [SecureFlag];
    }
    assert cookie == start + Segments(written);
    if c.httponly {
      Written(start, written, HttpOnlyFlag);
      cookie := cookie + HttpOnlyFlag.Segment();
      written := written + [HttpOnlyFlag];
    }
    assert cookie == start + Segments(written);
    if c.path.Some? {
      Written(start, written, PathAttribute(c.path.value));
      cookie := cookie + PathAttribute(c.path.value).Segment();
      written := written + [PathAttribute(c.path.value)];
    }
    assert cookie == start + Segments(written);
    assert written == Attributes(c);
  }

  /** Appending one more segment to the text written so far. */
  lemma Written(start: string, written: seq<Attribute>, a: Attribute)
    ensures start + Segments(written) + a.Segment() == start + Segments(written + [a])
  {
    SegmentsConcat(written, [a]);
    SegmentsSingle(a);
    Associative(start, Segments(written), a.Segment());
  }

  lemma SegmentsSingle(a: Attribute)
    ensures Segments([a]) == a.Segment()
  {
    assert [a][1..] == [];
  }

  /** The `Max-Age` segment carries the decimal number of whole seconds, which reads back as that number. */
  lemma MaxAgeReadsBack(secs: nat)
    ensures "; Max-Age=" <= MaxAgeSeconds(secs).Segment()
    ensures DecimalValue(MaxAgeSeconds(secs).Segment()[10..]) == secs
  {
    assert MaxAgeSeconds(secs).Segment()[10..] == DecimalString(secs);
    DecimalRoundTrip(secs);
  }

  /** A new cookie's header holds exactly the two default flags. */
  lemma NewHeader(key: string, value: string)
    ensures Header(New(key, value)) == key + "=" + value + "; Secure; HttpOnly"
  {
    assert Attributes(New(key, value)) == [SecureFlag, HttpOnlyFlag];
    assert Segments([SecureFlag, HttpOnlyFlag]) == "; Secure" + ("; HttpOnly" + Segments([]));
  }

  // ---------------------------------------------------------------------
  // parse_header

  /** One `;`-separated piece: name and value around its first `=`, both trimmed; `None` without `=`. */
  function ParsePair(piece: string): (r: Option<(string, string)>)
    ensures r.None? <==> '=' !in piece
  {
    match SplitOnce(piece, '=')
    case None => None
    case Some((key, value)) => Some((Trim(key), Trim(value)))
  }

  /**
   * `f` applied to every element, in order, when it succeeds on all of
   * them; `None` when it fails on some element.
   */
  function Collect<A, B>(f: A -> Option<B>, xs: seq<A>): (r: Option<seq<B>>)
    ensures r.Some? ==> |r.value| == |xs|
  {
    if forall k :: 0 <= k < |xs| ==> f(xs[k]).Some? then
      Some(seq(|xs|, k requires 0 <= k < |xs| => f(xs[k]).value))
    else
      None
  }

  /** Running `f` on one more element extends the results so far, or fails when `f` fails on it. */
  lemma CollectStep<A, B>(f: A -> Option<B>, xs: seq<A>, n: nat, ys: seq<B>)
    requires n < |xs| && Collect(f, xs[..n]) == Some(ys)
    ensures f(xs[n]).None? ==> Collect(f, xs).None?
    ensures f(xs[n]).Some? ==> Collect(f, xs[..n + 1]) == Some(ys + [f(xs[n]).value])
  {
    if f(xs[n]).Some? {
      var prefix := xs[..n + 1];
      var zs := ys + [f(xs[n]).value];
      forall k | 0 <= k < n + 1
        ensures f(prefix[k]) == Some(zs[k])
      {
        if k < n {
          assert prefix[k] == xs[..n][k];
        }
      }
      assert Collect(f, prefix).value == zs;
    } else {
      assert !f(xs[n]).Some?;
    }
  }

  /** Every piece parsed, in order, or `None` when some piece has no `=`. */
  function ParsePairs(pieces: seq<string>): (r: Option<seq<(string, string)>>)
    ensures r.Some? ==> |r.value| == |pieces|
  {
    Collect(ParsePair, pieces)
  }

  /** The pieces parse exactly when each of them holds an `=`. */
  lemma ParsePairsSucceeds(pieces: seq<string>)
    ensures ParsePairs(pieces).Some? <==> forall k :: 0 <= k < |pieces| ==> '=' in pieces[k]
  {
    if !ParsePairs(pieces).Some? {
      var k :| 0 <= k < |pieces| && ParsePair(pieces[k]).None?;
      assert '=' !in pieces[k];
    }
  }

  /** The map left by inserting the pairs one after another: a later pair replaces an earlier one. */
  function Insertions(pairs: seq<(string, string)>): map<string, string>
  {
    if pairs == [] then map[]
    else Insertions(pairs[..|pairs| - 1])[pairs[|pairs| - 1].0 := pairs[|pairs| - 1].1]
  }

  /** The names in the map are exactly the names inserted. */
  lemma {:induction false} InsertionsDomain(pairs: seq<(string, string)>, name: string)
    ensures name in Insertions(pairs) <==> exists i :: 0 <= i < |pairs| && pairs[i].0 == name
  {
    if pairs != [] {
      var init := pairs[..|pairs| - 1];
      InsertionsDomain(init, name);
      assert forall i :: 0 <= i < |init| ==> init[i] == pairs[i];
    }
  }

  /** A name is bound to the value of its last occurrence. */
  lemma {:induction false} InsertionsLastWins(pairs: seq<(string, string)>, i: nat)
    requires i < |pairs|
    requires forall j :: i < j < |pairs| ==> pairs[j].0 != pairs[i].0
    ensures pairs[i].0 in Insertions(pairs) && Insertions(pairs)[pairs[i].0] == pairs[i].1
  {
    var init := pairs[..|pairs| - 1];
    if i < |pairs| - 1 {
      assert init[i] == pairs[i];
      InsertionsLastWins(init, i);
    }
  }

  /** What `parse_header` returns: the map of trimmed names to trimmed values, or `Err(())`. */
  function HeaderMap(header: string): (r: Result<map<string, string>, ()>)
    ensures r.Ok? <==> forall k :: 0 <= k < |Split(header, ';')| ==> '=' in Split(header, ';')[k]
  {
    var pieces := Split(header, ';');
    ParsePairsSucceeds(pieces);
    match ParsePairs(pieces)
    case None =>
      assert !forall k :: 0 <= k < |pieces| ==> '=' in pieces[k];
      assert pieces == Split(header, ';');
      assert !forall k :: 0 <= k < |Split(header, ';')| ==> '=' in Split(header, ';')[k];
      Err(())
    case Some(pairs) => Ok(Insertions(pairs))
  }

  /** Parsing one more piece extends the pairs parsed so far, or fails when that piece has no `=`. */
  lemma ParsePairsStep(pieces: seq<string>, n: nat, pairs: seq<(string, string)>)
    requires n < |pieces| && ParsePairs(pieces[..n]) == Some(pairs)
    ensures ParsePair(pieces[n]).None? ==> ParsePairs(pieces).None?
    ensures ParsePair(pieces[n]).Some? ==> ParsePairs(pieces[..n + 1]) == Some(pairs + [ParsePair(pieces[n]).value])
  {
    CollectStep(ParsePair, pieces, n, pairs);
  }

  lemma InsertionsSnoc(pairs: seq<(string, string)>, p: (string, string))
    ensures Insertions(pairs + [p]) == Insertions(pairs)[p.0 := p.1]
  {
    assert (pairs + [p])[..|pairs|] == pairs;
  }

  /** `parse_header`: inserts each piece into the map, and gives up at the first piece without `=`. */
  method ParseHeader(header: string) returns (r: Result<map<string, string>, ()>)
    ensures r == HeaderMap(header)
  {
    var pieces := Split(header, ';');
    var cookies: map<string, string> := map[];
    ghost var pairs: seq<(string, string)> := [];
    for n := 0 to |pieces|
      invariant ParsePairs(pieces[..n]) == Some(pairs)
      invariant cookies == Insertions(pairs)
    {
      ParsePairsStep(pieces, n, pairs);
      var pair := ParsePair(pieces[n]);
      if pair.None? {
        return Err(());
      }
      InsertionsSnoc(pairs, pair.value);
      cookies := cookies[pair.value.0 := pair.value.1];
      pairs := pairs + [pair.value];
    }
    assert pieces[..|pieces|] == pieces;
    return Ok(cookies);
  }

  // ---------------------------------------------------------------------
  // What parse_header accepts and what it reads

  /** A piece is cut at its first `=`: the value keeps any later `=`. */
  lemma ParsePairCutsAtFirstEquals(name: string, value: string)
    requires '=' !in name
    ensures ParsePair(name + "=" + value) == Some((Trim(name), Trim(value)))
  {
    SplitOnceAt(name, '=', value);
  }

  /**
   * A name is in the parsed map exactly when one of the parsed pairs
   * carries it.
   */
  lemma HeaderMapDomain(header: string, name: string)
    requires HeaderMap(header).Ok?
    ensures var pairs := ParsePairs(Split(header, ';')).value;
      name in HeaderMap(header).value <==> exists k :: 0 <= k < |pairs| && pairs[k].0 == name
  {
    HeaderMapIsInsertions(header);
    InsertionsDomain(ParsePairs(Split(header, ';')).value, name);
  }

  lemma HeaderMapIsInsertions(header: string)
    requires HeaderMap(header).Ok?
    ensures HeaderMap(header).value == Insertions(ParsePairs(Split(header, ';')).value)
  {
  }

  /** A name is bound to the value of the last piece that carries it. */
  lemma HeaderMapLastWins(header: string, k: nat)
    requires HeaderMap(header).Ok?
    requires k < |Split(header, ';')|
    requires forall j :: k < j < |Split(header, ';')| ==>
      ParsePair(Split(header, ';')[j]).value.0 != ParsePair(Split(header, ';')[k]).value.0
    ensures var (name, value) := ParsePair(Split(header, ';')[k]).value;
      name in HeaderMap(header).value && HeaderMap(header).value[name] == value
  {
    var pieces := Split(header, ';');
    HeaderMapIsInsertions(header);
    var pairs := ParsePairs(pieces).value;
    assert pairs[k] == ParsePair(pieces[k]).value;
    forall j | k < j < |pairs| ensures pairs[j].0 != pairs[k].0 {
      assert pairs[j] == ParsePair(pieces[j]).value;
    }
    InsertionsLastWins(pairs, k);
  }

  /** An empty header is one piece without `=`, and is refused. */
  lemma EmptyHeaderFails()
    ensures HeaderMap("") == Err(())
  {
    assert Split("", ';') == [""];
  }

  /** A string ending in `sep` splits into pieces whose last is empty. */
  lemma {:induction false} SplitEndsEmpty(s: string, sep: char)
    requires s != [] && s[|s| - 1] == sep
    ensures var pieces := Split(s, sep); pieces[|pieces| - 1] == []
    decreases |s|
  {
    var i := Find(s, sep).value;
    var rest := s[i + 1..];
    SplitLastOfRest(s, sep, i);
    if rest != [] {
      assert rest[|rest| - 1] == sep;
      SplitEndsEmpty(rest, sep);
    } else {
      assert Split(rest, sep) == [[]];
    }
  }

  /** Past the first separator, at `i`, the last piece is the last piece of what follows it. */
  lemma SplitLastOfRest(s: string, sep: char, i: nat)
    requires Find(s, sep) == Some(i)
    ensures Split(s, sep)[|Split(s, sep)| - 1] == Split(s[i + 1..], sep)[|Split(s[i + 1..], sep)| - 1]
  {
    SplitAtFind(s, sep, i);
    LastOfCons(Split(s, sep), s[..i], Split(s[i + 1..], sep));
  }

  lemma LastOfCons<T>(r: seq<T>, x: T, s: seq<T>)
    requires s != [] && r == [x] + s
    ensures r[|r| - 1] == s[|s| - 1]
  {
  }

  /** A header ending in `;` has an empty last piece, and is refused. */
  lemma TrailingSemicolonFails(header: string)
    ensures HeaderMap(header + ";") == Err(())
  {
    SplitEndsEmpty(header + ";", ';');
  }

  /** The pieces `name=value` of a header written from `pairs`. */
  function Rendered(pairs: seq<(string, string)>): (pieces: seq<string>)
    ensures |pieces| == |pairs|
  {
    seq(|pairs|, k requires 0 <= k < |pairs| => pairs[k].0 + "=" + pairs[k].1)
  }

  /** Neither end of `s` is whitespace, so trimming leaves it as it is. */
  predicate Untrimmable(s: string)
  {
    s != [] ==> !IsWhitespace(s[0]) && !IsWhitespace(s[|s| - 1])
  }

  /** A name without `=` or `;` and a value without `;`, neither with whitespace at its ends. */
  predicate WritablePair(p: (string, string))
  {
    '=' !in p.0 && ';' !in p.0 && ';' !in p.1 && Untrimmable(p.0) && Untrimmable(p.1)
  }

  predicate Writable(pairs: seq<(string, string)>)
  {
    forall k :: 0 <= k < |pairs| ==> WritablePair(pairs[k])
  }

  /** A writable pair parses back to itself. */
  lemma ParsePairRendered(p: (string, string))
    requires WritablePair(p)
    ensures ParsePair(p.0 + "=" + p.1) == Some(p)
  {
    ParsePairCutsAtFirstEquals(p.0, p.1);
    assert Trim(p.0) == p.0 by { TrimUnchanged(p.0); }
    assert Trim(p.1) == p.1 by { TrimUnchanged(p.1); }
  }

  /** Pieces written from writable pairs parse back to those pairs. */
  lemma ParsePairsRendered(pairs: seq<(string, string)>)
    requires Writable(pairs)
    ensures ParsePairs(Rendered(pairs)) == Some(pairs)
  {
    var pieces := Rendered(pairs);
    forall k | 0 <= k < |pairs|
      ensures ParsePair(pieces[k]) == Some(pairs[k])
    {
      ParsePairRendered(pairs[k]);
    }
    assert ParsePairs(pieces).value == pairs;
  }

  /**
   * `parse_header` reads back a header written as `name=value` pieces
   * joined by `;`: the later of two pieces with the same name wins.
   */
  lemma HeaderMapRoundTrip(pairs: seq<(string, string)>)
    requires |pairs| >= 1 && Writable(pairs)
    ensures HeaderMap(Join(Rendered(pairs), ';')) == Ok(Insertions(pairs))
  {
    var pieces := Rendered(pairs);
    forall k | 0 <= k < |pieces|
      ensures ';' !in pieces[k]
    {
      assert pieces[k] == pairs[k].0 + "=" + pairs[k].1;
    }
    SplitJoin(pieces, ';');
    ParsePairsRendered(pairs);
  }
}
