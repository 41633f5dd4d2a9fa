/** The part of Go's `net/url` package the resolver calls: `url.ParseQuery`
    (with `QueryUnescape` for each key and value) and `Values.Get`, together
    with two encoders whose output the parser is proved to decode back: the
    plain `key=value&...` concatenation and the same text with every key and
    value passed through `QueryEscape`.

    Go strings are byte strings; here a string is a `seq<char>` and a decoded
    "%XX" escape yields the character whose code is the byte XX. */
module Url {
  import opened Wrappers
  import opened Errors
  import opened Strings

  // ---------------------------------------------------------------------
  // Percent-decoding (QueryUnescape)
  // ---------------------------------------------------------------------

  predicate IsHex(c: char) {
    ('0' <= c <= '9') || ('a' <= c <= 'f') || ('A' <= c <= 'F')
  }

  function Unhex(c: char): (n: nat)
    requires IsHex(c)
    ensures n < 16
  {
    if '0' <= c <= '9' then c as int - '0' as int
    else if 'a' <= c <= 'f' then c as int - 'a' as int + 10
    else c as int - 'A' as int + 10
  }

  /** Every '%' starts a complete two-hex-digit escape. */
  predicate EscapesWellFormed(s: string) {
    forall i :: 0 <= i < |s| && s[i] == '%' ==> i + 2 < |s| && IsHex(s[i + 1]) && IsHex(s[i + 2])
  }

  /** url.QueryUnescape: "%XX" becomes the byte XX, '+' becomes a space, any
      other character is kept. The first '%' not followed by two hex digits
      fails with an EscapeError holding at most three characters from it. */
  function Unescape(s: string): (r: Result<string, Error>)
    ensures r.Success? ==> |r.value| <= |s|
    ensures r.Failure? ==> r.error.EscapeError? && 1 <= |r.error.fragment| <= 3
                           && r.error.fragment[0] == '%'
    decreases |s|
  {
    if s == [] then Success([])
    else if s[0] == '%' then
      if 2 < |s| && IsHex(s[1]) && IsHex(s[2]) then
        match Unescape(s[3..])
        case Failure(e) => Failure(e)
        case Success(t) => Success([(16 * Unhex(s[1]) + Unhex(s[2])) as char] + t)
      else
        Failure(EscapeError(if |s| > 3 then s[..3] else s))
    else
      match Unescape(s[1..])
      case Failure(e) => Failure(e)
      case Success(t) => Success([if s[0] == '+' then ' ' else s[0]] + t)
  }

  /** A first character other than '%' does not affect well-formedness. */
  lemma WellFormedAfterPlain(s: string)
    requires s != [] && s[0] != '%'
    ensures EscapesWellFormed(s) <==> EscapesWellFormed(s[1..])
  {
    var t := s[1..];
    if EscapesWellFormed(t) {
      forall i | 0 <= i < |s| && s[i] == '%'
        ensures i + 2 < |s| && IsHex(s[i + 1]) && IsHex(s[i + 2])
      {
        assert t[i - 1] == '%';
      }
    }
    if EscapesWellFormed(s) {
      forall j | 0 <= j < |t| && t[j] == '%'
        ensures j + 2 < |t| && IsHex(t[j + 1]) && IsHex(t[j + 2])
      {
        assert s[j + 1] == '%';
      }
    }
  }

  /** A complete first escape does not affect well-formedness. */
  lemma WellFormedAfterEscape(s: string)
    requires 2 < |s| && s[0] == '%' && IsHex(s[1]) && IsHex(s[2])
    ensures EscapesWellFormed(s) <==> EscapesWellFormed(s[3..])
  {
    var t := s[3..];
    if EscapesWellFormed(t) {
      forall i | 0 <= i < |s| && s[i] == '%'
        ensures i + 2 < |s| && IsHex(s[i + 1]) && IsHex(s[i + 2])
      {
        if i >= 3 { assert t[i - 3] == '%'; }
      }
    }
    if EscapesWellFormed(s) {
      forall j | 0 <= j < |t| && t[j] == '%'
        ensures j + 2 < |t| && IsHex(t[j + 1]) && IsHex(t[j + 2])
      {
        assert s[j + 3] == '%';
      }
    }
  }

  /** QueryUnescape fails exactly when some '%' does not start a well-formed escape. */
  lemma {:induction false} UnescapeSucceedsIff(s: string)
    ensures Unescape(s).Success? <==> EscapesWellFormed(s)
    decreases |s|
  {
    if s == [] {
    } else if s[0] == '%' {
      if 2 < |s| && IsHex(s[1]) && IsHex(s[2]) {
        UnescapeSucceedsIff(s[3..]);
        WellFormedAfterEscape(s);
      } else {
        assert !EscapesWellFormed(s);
      }
    } else {
      UnescapeSucceedsIff(s[1..]);
      WellFormedAfterPlain(s);
    }
  }

  /** Without any '%', QueryUnescape only turns each '+' into a space. */
  lemma {:induction false} UnescapeWithoutPercent(s: string)
    requires '%' !in s
    ensures Unescape(s) == Success(Replace(s, '+', ' '))
    decreases |s|
  {
    if s != [] {
      assert s[0] != '%';
      UnescapeWithoutPercent(s[1..]);
      assert Replace(s, '+', ' ') == [if s[0] == '+' then ' ' else s[0]] + Replace(s[1..], '+', ' ');
    }
  }

  // ---------------------------------------------------------------------
  // Percent-encoding (QueryEscape), the inverse of QueryUnescape
  // ---------------------------------------------------------------------

  /** Characters QueryEscape leaves alone. */
  predicate Unreserved(c: char) {
    ('A' <= c <= 'Z') || ('a' <= c <= 'z') || ('0' <= c <= '9')
    || c == '-' || c == '_' || c == '.' || c == '~'
  }

  /** Every character stands for one byte. */
  predicate IsByteString(s: string) {
    forall i :: 0 <= i < |s| ==> s[i] as int < 256
  }

  function UpperHex(n: nat): (c: char)
    requires n < 16
    ensures IsHex(c) && Unhex(c) == n
  {
    "0123456789ABCDEF"[n]
  }

  function EscapeChar(c: char): (e: string)
    requires c as int < 256
    ensures |e| == 1 || |e| == 3
    ensures EscapesWellFormed(e) && '&' !in e && ';' !in e && ' ' !in e && '=' !in e
  {
    if Unreserved(c) then [c]
    else if c == ' ' then "+"
    else ['%', UpperHex(c as int / 16), UpperHex(c as int % 16)]
  }

  /** url.QueryEscape: unreserved characters are kept, a space becomes '+',
      every other byte becomes "%XX" with upper-case hex digits. */
  function QueryEscape(s: string): (r: string)
    requires IsByteString(s)
    ensures EscapesWellFormed(r)
    ensures '&' !in r && ';' !in r && ' ' !in r && '=' !in r
    decreases |s|
  {
    if s == [] then []
    else
      var head := EscapeChar(s[0]);
      var tail := QueryEscape(s[1..]);
      WellFormedConcat(head, tail);
      head + tail
  }

  lemma WellFormedConcat(a: string, b: string)
    requires EscapesWellFormed(a) && EscapesWellFormed(b)
    ensures EscapesWellFormed(a + b)
  {
    var ab := a + b;
    forall i | 0 <= i < |ab| && ab[i] == '%'
      ensures i + 2 < |ab| && IsHex(ab[i + 1]) && IsHex(ab[i + 2])
    {
      if i < |a| {
        assert a[i] == '%';
      } else {
        assert b[i - |a|] == '%';
      }
    }
  }

  /** Text made only of unreserved characters is its own escape. */
  predicate UnreservedText(s: string) {
    forall i :: 0 <= i < |s| ==> Unreserved(s[i])
  }

  lemma {:induction false} UnreservedEscapesToItself(s: string)
    requires UnreservedText(s)
    ensures IsByteString(s) && QueryEscape(s) == s
    decreases |s|
  {
    if s != [] {
      assert UnreservedText(s[1..]) by {
        forall i | 0 <= i < |s[1..]| ensures s[1..][i] == s[i + 1] { }
      }
      UnreservedEscapesToItself(s[1..]);
      assert s == [s[0]] + s[1..];
    }
  }

  /** Unescaping an escaped character in front of text that unescapes to
      `u` gives the character in front of `u`. */
  lemma UnescapeEscapeChar(c: char, t: string, u: string)
    requires c as int < 256 && Unescape(t) == Success(u)
    ensures Unescape(EscapeChar(c) + t) == Success([c] + u)
  {
    var e := EscapeChar(c) + t;
    if Unreserved(c) {
      assert e[0] == c && e[1..] == t;
    } else if c == ' ' {
      assert e[0] == '+' && e[1..] == t;
    } else {
      assert e[0] == '%' && e[3..] == t;
      assert 16 * (c as int / 16) + c as int % 16 == c as int;
    }
  }

  /** QueryUnescape undoes QueryEscape. */
  lemma {:induction false} UnescapeQueryEscape(s: string)
    requires IsByteString(s)
    ensures Unescape(QueryEscape(s)) == Success(s)
    decreases |s|
  {
    if s != [] {
      var c, rest := s[0], s[1..];
      assert IsByteString(rest) by {
        forall i | 0 <= i < |rest| ensures rest[i] == s[i + 1] { }
      }
      assert QueryEscape(s) == EscapeChar(c) + QueryEscape(rest);
      UnescapeQueryEscape(rest);
      UnescapeEscapeChar(c, QueryEscape(rest), rest);
      assert s == [c] + rest;
    }
  }

  // ---------------------------------------------------------------------
  // Query strings (ParseQuery, Values.Get)
  // ---------------------------------------------------------------------

  datatype Param = Param(key: string, value: string)

  /** url.Values, as the ordered list of decoded pairs ParseQuery appends:
      for every key the values occur in the same order as in the map's
      per-key slices, which is all Get looks at. */
  type Values = seq<Param>

  /** The segments `for query != "" { key, query, _ = strings.Cut(query, "&") }`
      visits, in order. */
  function Segments(q: string): (segs: seq<string>)
    ensures forall i :: 0 <= i < |segs| ==> '&' !in segs[i]
    decreases |q|
  {
    if q == [] then []
    else
      var (seg, rest, _) := Cut(q, '&');
      [seg] + Segments(rest)
  }

  /** The state the parsing loop carries: the values collected so far and
      the error it will return. */
  datatype Parsed = Parsed(values: Values, err: Option<Error>)

  /** `if err == nil { err = err1 }`: the first escape error is kept. */
  function KeepFirst(err: Option<Error>, e: Error): Option<Error> {
    if err.None? then Some(e) else err
  }

  /** One iteration of the parsing loop. A segment holding ';' sets the
      error unconditionally; an empty segment is skipped; otherwise the
      segment is cut at its first '=' and key and value are unescaped. */
  function ParseSegment(acc: Parsed, seg: string): (r: Parsed)
    ensures acc.values <= r.values && |r.values| <= |acc.values| + 1
    ensures ';' in seg ==> r.err == Some(SemicolonSeparator)
    ensures ';' !in seg && acc.err.Some? ==> r.err == acc.err
    ensures ';' !in seg && acc.err.None? && r.err.Some? ==> r.err.value.EscapeError?
  {
    if ';' in seg then acc.(err := Some(SemicolonSeparator))
    else if seg == [] then acc
    else
      var (rawKey, rawValue, _) := Cut(seg, '=');
      match Unescape(rawKey)
      case Failure(e) => acc.(err := KeepFirst(acc.err, e))
      case Success(key) =>
        match Unescape(rawValue)
        case Failure(e) => acc.(err := KeepFirst(acc.err, e))
        case Success(value) => acc.(values := acc.values + [Param(key, value)])
  }

  function ParseSegments(acc: Parsed, segs: seq<string>): (r: Parsed)
    ensures acc.values <= r.values && |r.values| <= |acc.values| + |segs|
    ensures acc.err.Some? ==> r.err.Some?
    ensures r.err.Some? ==> r.err == acc.err || r.err.value == SemicolonSeparator || r.err.value.EscapeError?
    decreases |segs|
  {
    if segs == [] then acc else ParseSegments(ParseSegment(acc, segs[0]), segs[1..])
  }

  /** url.ParseQuery: the decoded pairs, or the error the loop ended with. */
  function ParseQuery(q: string): (r: Result<Values, Error>)
    ensures r.Success? ==> |r.value| <= |Segments(q)|
    ensures r.Failure? ==> r.error == SemicolonSeparator || r.error.EscapeError?
  {
    var p := ParseSegments(Parsed([], None), Segments(q));
    if p.err.Some? then Failure(p.err.value) else Success(p.values)
  }

  /** Values.Get: the first value stored under `key`, or "" when there is none. */
  function Get(vs: Values, key: string): (v: string)
    ensures (forall i :: 0 <= i < |vs| ==> vs[i].key != key) ==> v == ""
    decreases |vs|
  {
    if vs == [] then ""
    else if vs[0].key == key then vs[0].value
    else Get(vs[1..], key)
  }

  /** Get returns the value of the first pair with the key. */
  lemma {:induction false} GetFirst(vs: Values, key: string, i: nat)
    requires i < |vs| && vs[i].key == key
    requires forall j :: 0 <= j < i ==> vs[j].key != key
    ensures Get(vs, key) == vs[i].value
    decreases i
  {
    if i > 0 {
      GetFirst(vs[1..], key, i - 1);
    }
  }

  // ---------------------------------------------------------------------
  // What ParseQuery accepts and rejects
  // ---------------------------------------------------------------------

  /** A segment the parsing loop gets through without setting the error. */
  predicate SegmentParses(seg: string) {
    ';' !in seg
    && (seg != [] ==> EscapesWellFormed(Cut(seg, '=').0) && EscapesWellFormed(Cut(seg, '=').1))
  }

  predicate AllSegmentsParse(segs: seq<string>) {
    forall i :: 0 <= i < |segs| ==> SegmentParses(segs[i])
  }

  lemma ParseSegmentError(acc: Parsed, seg: string)
    ensures ParseSegment(acc, seg).err.None? <==> acc.err.None? && SegmentParses(seg)
  {
    if ';' !in seg && seg != [] {
      var (rawKey, rawValue, _) := Cut(seg, '=');
      UnescapeSucceedsIff(rawKey);
      UnescapeSucceedsIff(rawValue);
    }
  }

  lemma {:induction false} ParseSegmentsError(acc: Parsed, segs: seq<string>)
    ensures ParseSegments(acc, segs).err.None? <==> acc.err.None? && AllSegmentsParse(segs)
    decreases |segs|
  {
    if segs != [] {
      ParseSegmentError(acc, segs[0]);
      ParseSegmentsError(ParseSegment(acc, segs[0]), segs[1..]);
      assert forall i :: 1 <= i < |segs| ==> segs[i] == segs[1..][i - 1];
    }
  }

  /** ParseQuery fails exactly when some segment holds a ';' or a malformed
      escape in its key or its value. */
  lemma ParseQuerySucceedsIff(q: string)
    ensures ParseQuery(q).Success? <==> AllSegmentsParse(Segments(q))
  {
    ParseSegmentsError(Parsed([], None), Segments(q));
  }

  lemma {:induction false} SemicolonInSomeSegment(q: string)
    requires ';' in q
    ensures exists i :: 0 <= i < |Segments(q)| && ';' in Segments(q)[i]
    decreases |q|
  {
    var (seg, rest, found) := Cut(q, '&');
    var segs := Segments(q);
    assert segs == [seg] + Segments(rest);
    if ';' in seg {
      assert ';' in segs[0];
    } else {
      assert found && ';' in rest;
      SemicolonInSomeSegment(rest);
      var i :| 0 <= i < |Segments(rest)| && ';' in Segments(rest)[i];
      assert segs[i + 1] == Segments(rest)[i];
    }
  }

  lemma {:induction false} SemicolonSticks(acc: Parsed, segs: seq<string>)
    requires acc.err == Some(SemicolonSeparator)
    ensures ParseSegments(acc, segs).err == Some(SemicolonSeparator)
    decreases |segs|
  {
    if segs != [] {
      SemicolonSticks(ParseSegment(acc, segs[0]), segs[1..]);
    }
  }

  lemma {:induction false} SemicolonSegmentFails(acc: Parsed, segs: seq<string>, i: nat)
    requires i < |segs| && ';' in segs[i]
    ensures ParseSegments(acc, segs).err == Some(SemicolonSeparator)
    decreases i
  {
    if i == 0 {
      SemicolonSticks(ParseSegment(acc, segs[0]), segs[1..]);
    } else {
      SemicolonSegmentFails(ParseSegment(acc, segs[0]), segs[1..], i - 1);
    }
  }

  /** A ';' anywhere in the query makes ParseQuery fail with the semicolon
      error, whatever escape errors other segments hold. */
  lemma ParseQueryRejectsSemicolon(q: string)
    requires ';' in q
    ensures ParseQuery(q) == Failure(SemicolonSeparator)
  {
    SemicolonInSomeSegment(q);
    var i :| 0 <= i < |Segments(q)| && ';' in Segments(q)[i];
    SemicolonSegmentFails(Parsed([], None), Segments(q), i);
  }

  // ---------------------------------------------------------------------
  // Round trip through the plain `key=value&...` encoding
  // ---------------------------------------------------------------------

  function Field(p: Param): string {
    p.key + "=" + p.value
  }

  /** The pairs written as `k1=v1&k2=v2&...`, with nothing escaped. */
  function RawQuery(ps: Values): string
    decreases |ps|
  {
    if ps == [] then ""
    else if |ps| == 1 then Field(ps[0])
    else Field(ps[0]) + "&" + RawQuery(ps[1..])
  }

  /** Text that survives the plain encoding: it neither splits a segment
      nor holds a character ParseQuery treats specially. */
  predicate Plain(s: string) {
    '&' !in s && ';' !in s && '%' !in s
  }

  predicate RawEncodable(ps: Values) {
    forall i :: 0 <= i < |ps| ==> Plain(ps[i].key) && Plain(ps[i].value) && '=' !in ps[i].key
  }

  function PlusAsSpace(p: Param): Param {
    Param(Replace(p.key, '+', ' '), Replace(p.value, '+', ' '))
  }

  /** What ParseQuery recovers from the plain encoding of `ps`. */
  function PlusAsSpaceAll(ps: Values): (r: Values)
    ensures |r| == |ps|
    ensures forall i :: 0 <= i < |ps| ==> r[i] == PlusAsSpace(ps[i])
    decreases |ps|
  {
    if ps == [] then [] else [PlusAsSpace(ps[0])] + PlusAsSpaceAll(ps[1..])
  }

  function Fields(ps: Values): seq<string>
    decreases |ps|
  {
    if ps == [] then [] else [Field(ps[0])] + Fields(ps[1..])
  }

  /** Concatenation regrouped: stated once for any element type, it keeps
      the solver from searching for it on sequences of pairs. */
  lemma AppendAssoc<T>(a: seq<T>, b: seq<T>, c: seq<T>)
    ensures (a + b) + c == a + (b + c)
  {
  }

  /** No key or value splits a segment. */
  predicate NoAmpersand(ps: Values) {
    forall i :: 0 <= i < |ps| ==> '&' !in ps[i].key && '&' !in ps[i].value
  }

  /** Cut splits at the first separator. */
  lemma {:induction false} CutFirst(a: string, sep: char, b: string)
    requires sep !in a
    ensures Cut(a + [sep] + b, sep) == (a, b, true)
    decreases |a|
  {
    var s := a + [sep] + b;
    if a == [] {
      assert s == [sep] + b;
    } else {
      assert s[0] == a[0] != sep;
      assert s[1..] == a[1..] + [sep] + b;
      CutFirst(a[1..], sep, b);
      assert a == [a[0]] + a[1..];
    }
  }

  lemma {:induction false} SegmentsOfRawQuery(ps: Values)
    requires NoAmpersand(ps)
    ensures Segments(RawQuery(ps)) == Fields(ps)
    decreases |ps|
  {
    if ps != [] {
      var f := Field(ps[0]);
      assert '&' !in f by {
        assert f == ps[0].key + ['='] + ps[0].value;
      }
      if |ps| == 1 {
        assert f != [] && Cut(f, '&') == (f, [], false);
      } else {
        assert NoAmpersand(ps[1..]) by {
          forall i | 0 <= i < |ps[1..]| ensures ps[1..][i] == ps[i + 1] { }
        }
        SegmentsOfRawQuery(ps[1..]);
        CutFirst(f, '&', RawQuery(ps[1..]));
      }
    }
  }

  lemma ParseField(acc: Parsed, p: Param)
    requires Plain(p.key) && Plain(p.value) && '=' !in p.key
    ensures ParseSegment(acc, Field(p)) == Parsed(acc.values + [PlusAsSpace(p)], acc.err)
  {
    var f := Field(p);
    assert f == p.key + ['='] + p.value;
    assert ';' !in f && f != [];
    CutFirst(p.key, '=', p.value);
    UnescapeWithoutPercent(p.key);
    UnescapeWithoutPercent(p.value);
  }

  lemma {:induction false} ParseFields(acc: Parsed, ps: Values)
    requires acc.err.None? && RawEncodable(ps)
    ensures ParseSegments(acc, Fields(ps)) == Parsed(acc.values + PlusAsSpaceAll(ps), None)
    decreases |ps|
  {
    if ps == [] {
      assert acc.values + PlusAsSpaceAll(ps) == acc.values;
    } else {
      var segs := Fields(ps);
      assert segs[0] == Field(ps[0]) && segs[1..] == Fields(ps[1..]);
      ParseField(acc, ps[0]);
      var vs := acc.values + [PlusAsSpace(ps[0])];
      assert ParseSegments(acc, segs) == ParseSegments(Parsed(vs, None), Fields(ps[1..]));
      assert RawEncodable(ps[1..]) by {
        forall i | 0 <= i < |ps[1..]| ensures ps[1..][i] == ps[i + 1] { }
      }
      ParseFields(Parsed(vs, None), ps[1..]);
      assert PlusAsSpaceAll(ps) == [PlusAsSpace(ps[0])] + PlusAsSpaceAll(ps[1..]);
      AppendAssoc(acc.values, [PlusAsSpace(ps[0])], PlusAsSpaceAll(ps[1..]));
    }
  }

  /** Parsing the plain encoding gives back the pairs, in order, except that
      every '+' in them has been read as a space. */
  lemma ParseRawQuery(ps: Values)
    requires RawEncodable(ps)
    ensures ParseQuery(RawQuery(ps)) == Success(PlusAsSpaceAll(ps))
  {
    assert NoAmpersand(ps);
    SegmentsOfRawQuery(ps);
    ParseFields(Parsed([], None), ps);
    assert [] + PlusAsSpaceAll(ps) == PlusAsSpaceAll(ps);
  }

  // ---------------------------------------------------------------------
  // Round trip through the escaped `QueryEscape(key)=QueryEscape(value)&...`
  // encoding
  // ---------------------------------------------------------------------

  /** Keys and values hold one byte per character. */
  predicate ByteStrings(ps: Values) {
    forall i :: 0 <= i < |ps| ==> IsByteString(ps[i].key) && IsByteString(ps[i].value)
  }

  lemma ByteStringsTail(ps: Values)
    requires ps != [] && ByteStrings(ps)
    ensures ByteStrings(ps[1..])
  {
    forall i | 0 <= i < |ps[1..]| ensures ps[1..][i] == ps[i + 1] { }
  }

  function EscapeParam(p: Param): Param
    requires IsByteString(p.key) && IsByteString(p.value)
  {
    Param(QueryEscape(p.key), QueryEscape(p.value))
  }

  function EscapeAll(ps: Values): (r: Values)
    requires ByteStrings(ps)
    ensures |r| == |ps|
    ensures forall i :: 0 <= i < |ps| ==> r[i] == EscapeParam(ps[i])
    decreases |ps|
  {
    if ps == [] then []
    else
      ByteStringsTail(ps);
      [EscapeParam(ps[0])] + EscapeAll(ps[1..])
  }

  /** The pairs written as `k1=v1&k2=v2&...` with every key and value
      passed through QueryEscape. */
  function EscapedQuery(ps: Values): string
    requires ByteStrings(ps)
  {
    RawQuery(EscapeAll(ps))
  }

  lemma ParseEscapedField(acc: Parsed, p: Param)
    requires IsByteString(p.key) && IsByteString(p.value)
    ensures ParseSegment(acc, Field(EscapeParam(p))) == Parsed(acc.values + [p], acc.err)
  {
    var k := QueryEscape(p.key);
    var v := QueryEscape(p.value);
    var f := Field(EscapeParam(p));
    assert f == k + ['='] + v;
    assert ';' !in f && f != [];
    CutFirst(k, '=', v);
    UnescapeQueryEscape(p.key);
    UnescapeQueryEscape(p.value);
  }

  lemma EscapedFieldsCons(ps: Values)
    requires ps != [] && ByteStrings(ps)
    ensures ByteStrings(ps[1..])
    ensures Fields(EscapeAll(ps)) == [Field(EscapeParam(ps[0]))] + Fields(EscapeAll(ps[1..]))
  {
    ByteStringsTail(ps);
    assert EscapeAll(ps) == [EscapeParam(ps[0])] + EscapeAll(ps[1..]);
  }

  lemma {:induction false} ParseEscapedFields(acc: Parsed, ps: Values)
    requires acc.err.None? && ByteStrings(ps)
    ensures ParseSegments(acc, Fields(EscapeAll(ps))) == Parsed(acc.values + ps, None)
    decreases |ps|
  {
    if ps == [] {
      assert acc.values + ps == acc.values;
    } else {
      EscapedFieldsCons(ps);
      var f := Field(EscapeParam(ps[0]));
      var rest := Fields(EscapeAll(ps[1..]));
      assert ParseSegments(acc, [f] + rest) == ParseSegments(ParseSegment(acc, f), rest);
      ParseEscapedField(acc, ps[0]);
      var vs := acc.values + [ps[0]];
      ParseEscapedFields(Parsed(vs, None), ps[1..]);
      assert ps == [ps[0]] + ps[1..];
      AppendAssoc(acc.values, [ps[0]], ps[1..]);
    }
  }

  /** Values hold one byte per character. */
  predicate ValueBytes(ps: Values) {
    forall i :: 0 <= i < |ps| ==> IsByteString(ps[i].value)
  }

  lemma ValueBytesTail(ps: Values)
    requires ps != [] && ValueBytes(ps)
    ensures ValueBytes(ps[1..])
  {
    forall i | 0 <= i < |ps[1..]| ensures ps[1..][i] == ps[i + 1] { }
  }

  /** The pairs with only their values passed through QueryEscape. */
  function EscapeValues(ps: Values): (r: Values)
    requires ValueBytes(ps)
    ensures |r| == |ps|
    decreases |ps|
  {
    if ps == [] then []
    else
      ValueBytesTail(ps);
      [Param(ps[0].key, QueryEscape(ps[0].value))] + EscapeValues(ps[1..])
  }

  /** Keys of unreserved characters escape to themselves, so escaping only
      the values is escaping keys and values alike. */
  lemma {:induction false} EscapeValuesOfUnreservedKeys(ps: Values)
    requires forall i :: 0 <= i < |ps| ==> UnreservedText(ps[i].key) && IsByteString(ps[i].value)
    ensures ValueBytes(ps) && ByteStrings(ps) && EscapeAll(ps) == EscapeValues(ps)
    decreases |ps|
  {
    if ps != [] {
      UnreservedEscapesToItself(ps[0].key);
      var tail := ps[1..];
      assert forall i :: 0 <= i < |tail| ==> tail[i] == ps[i + 1];
      EscapeValuesOfUnreservedKeys(tail);
      assert ByteStrings(ps) by {
        forall i | 0 <= i < |ps| ensures IsByteString(ps[i].key) && IsByteString(ps[i].value) {
          if i > 0 { assert ps[i] == tail[i - 1]; }
        }
      }
      assert EscapeAll(ps) == [EscapeParam(ps[0])] + EscapeAll(tail);
    }
  }

  /** Parsing the escaped encoding gives back exactly the pairs, in order,
      whatever bytes their keys and values hold. */
  lemma ParseEscapedQuery(ps: Values)
    requires ByteStrings(ps)
    ensures ParseQuery(EscapedQuery(ps)) == Success(ps)
  {
    var es := EscapeAll(ps);
    assert NoAmpersand(es);
    SegmentsOfRawQuery(es);
    ParseEscapedFields(Parsed([], None), ps);
    assert [] + ps == ps;
  }
}
