/**
 * Whole requests, from the bytes of the stream to the target, in terms that name none of the reader's own helpers:
 * what a header line says, where a line ends, and what text gives a host and a port.
 */
module ProxyTarget {
  import opened Characters
  import opened Wrappers
  import opened Sequences
  import opened ProxyRequest

  // ----- What a header line says -----

  /** One letter, in either case. */
  predicate SameLetter(a: char, b: char) {
    || a == b
    || ('A' <= a <= 'Z' && b as int == a as int + 32)
    || ('A' <= b <= 'Z' && a as int == b as int + 32)
  }

  predicate SameLetters(a: string, b: string) {
    |a| == |b| && forall k :: 0 <= k < |a| ==> SameLetter(a[k], b[k])
  }

  lemma {:induction false} EqIgnoreCaseIff(a: string, b: string)
    ensures EqIgnoreCase(a, b) <==> SameLetters(a, b)
  {
    if a == "" || b == "" {
      assert Lowercased("") == "";
    } else {
      EqIgnoreCaseIff(a[1..], b[1..]);
      LowercasedStep(a);
      LowercasedStep(b);
      SameLettersStep(a, b);
      assert ToAsciiLowercase(a[0]) == ToAsciiLowercase(b[0]) <==> SameLetter(a[0], b[0]);
    }
  }

  lemma LowercasedStep(s: string)
    requires s != ""
    ensures Lowercased(s) != ""
    ensures Lowercased(s)[0] == ToAsciiLowercase(s[0]) && Lowercased(s)[1..] == Lowercased(s[1..])
    ensures Lowercased(s) == [Lowercased(s)[0]] + Lowercased(s)[1..]
  {
  }

  lemma SameLettersStep(a: string, b: string)
    requires a != "" && b != ""
    ensures SameLetters(a, b) <==> SameLetter(a[0], b[0]) && SameLetters(a[1..], b[1..])
  {
    if SameLetter(a[0], b[0]) && SameLetters(a[1..], b[1..]) {
      forall k | 0 <= k < |a| ensures SameLetter(a[k], b[k]) {
        assert k > 0 ==> a[k] == a[1..][k - 1] && b[k] == b[1..][k - 1];
      }
    }
    if SameLetters(a, b) {
      forall k | 0 <= k < |a| - 1 ensures SameLetter(a[1..][k], b[1..][k]) {
        assert a[1..][k] == a[k + 1] && b[1..][k] == b[k + 1];
      }
    }
  }

  /** Text that neither begins nor ends in whitespace. */
  predicate IsTight(s: string) {
    s != "" ==> !IsWhitespace(s[0]) && !IsWhitespace(s[|s| - 1])
  }

  /** A text with nothing but whitespace around it. */
  ghost predicate IsPadded(s: string, core: string) {
    IsTight(core) && exists a, b :: IsBlank(a) && IsBlank(b) && s == a + core + b
  }

  lemma {:induction false} TrimEndSplits(s: string) returns (b: string)
    ensures s == TrimEnd(s) + b && IsBlank(b)
    ensures TrimEnd(s) != "" ==> !IsWhitespace(TrimEnd(s)[|TrimEnd(s)| - 1])
  {
    if s != "" && IsWhitespace(s[|s| - 1]) {
      var init, last := s[..|s| - 1], s[|s| - 1];
      var b' := TrimEndSplits(init);
      b := b' + [last];
      assert s == init + [last];
      Regroup(TrimEnd(init), b', [last]);
    } else {
      b := "";
    }
  }

  lemma {:induction false} TrimStartSplits(s: string) returns (a: string)
    ensures s == a + TrimStart(s) && IsBlank(a)
    ensures TrimStart(s) != "" ==> !IsWhitespace(TrimStart(s)[0])
  {
    if s != "" && IsWhitespace(s[0]) {
      var a' := TrimStartSplits(s[1..]);
      a := [s[0]] + a';
      FrontAndRest(s);
      Regroup([s[0]], a', TrimStart(s[1..]));
    } else {
      a := "";
    }
  }

  lemma TrimIsCore(s: string)
    ensures IsPadded(s, Trim(s))
  {
    var b := TrimEndSplits(s);
    var a := TrimStartSplits(TrimEnd(s));
    var end, core := TrimEnd(s), Trim(s);
    assert core != "" ==> core[|core| - 1] == end[|end| - 1];
    assert s == a + core + b;
  }

  /** A text has one core only. */
  lemma CoreIsOnlyOne(s: string, v: string, w: string)
    requires IsPadded(s, v) && IsPadded(s, w)
    ensures v == w
  {
    var a, b :| IsBlank(a) && IsBlank(b) && s == a + v + b;
    var c, d :| IsBlank(c) && IsBlank(d) && s == c + w + d;
    if v == "" || w == "" {
      BlankCore(s, a, v, b, c, w, d);
    } else {
      CoreStarts(s, a, v, b, c, w, d);
      CoreStarts(s, c, w, d, a, v, b);
      CoreEnds(s, a, v, b, c, w, d);
      CoreEnds(s, c, w, d, a, v, b);
      assert v == s[|a|..|a| + |v|] && w == s[|c|..|c| + |w|];
    }
  }

  lemma CoreStarts(s: string, a: string, v: string, b: string, c: string, w: string, d: string)
    requires IsBlank(a) && IsTight(w) && w != "" && v != "" && s == a + v + b && s == c + w + d
    ensures |a| <= |c|
  {
    assert s[|c|] == w[0];
    Regroup(a, v, b);
    ElementOfConcat(a, v + b, |c|);
  }

  lemma CoreEnds(s: string, a: string, v: string, b: string, c: string, w: string, d: string)
    requires IsBlank(b) && IsTight(w) && w != "" && v != "" && s == a + v + b && s == c + w + d
    ensures |a| + |v| >= |c| + |w|
  {
    var k := |c| + |w| - 1;
    assert s[k] == w[|w| - 1];
    ElementOfConcat(a + v, b, k);
  }

  lemma ElementOfConcat(x: string, y: string, k: nat)
    requires k < |x| + |y|
    ensures (x + y)[k] == if k < |x| then x[k] else y[k - |x|]
  {
  }

  lemma BlankWithoutCore(s: string, a: string, v: string, b: string)
    requires IsBlank(a) && IsBlank(b) && IsTight(v) && s == a + v + b
    ensures v == "" <==> IsBlank(s)
  {
    if v != "" {
      assert s[|a|] == v[0];
    }
  }

  lemma BlankCore(s: string, a: string, v: string, b: string, c: string, w: string, d: string)
    requires IsBlank(a) && IsBlank(b) && IsBlank(c) && IsBlank(d) && IsTight(v) && IsTight(w)
    requires s == a + v + b && s == c + w + d && (v == "" || w == "")
    ensures v == "" && w == ""
  {
    BlankWithoutCore(s, a, v, b);
    BlankWithoutCore(s, c, w, d);
  }

  /** A line that is a field and, behind the first colon, the rest. */
  predicate IsField(line: string, field: string, rest: string) {
    ':' !in field && line == field + ":" + rest
  }

  /** A header line: the name in any case, a colon and the value, each with any whitespace around it. */
  ghost predicate Says(line: string, name: string, value: string) {
    exists field, written, rest ::
      IsField(line, field, rest) && IsPadded(field, written) && SameLetters(written, name) && IsPadded(rest, value)
  }

  ghost predicate IsFor(line: string, name: string) {
    exists value :: Says(line, name, value)
  }

  /** The value a header line gives to `name`, if it is a line for that name. */
  function HeaderValue(name: string, line: string): Option<string> {
    match SplitOnce(line, ':')
    case None => None
    case Some((n, value)) => if EqIgnoreCase(Trim(n), name) then Some(Trim(value)) else None
  }

  lemma FieldIsSplit(line: string, field: string, rest: string)
    ensures IsField(line, field, rest) <==> SplitOnce(line, ':') == Some((field, rest))
  {
    SplitOnceExactly(line, ':');
    if IsField(line, field, rest) {
      SplitOnceAt(field, ':', rest);
    }
  }

  lemma SaysIff(line: string, name: string, value: string)
    ensures Says(line, name, value) <==> HeaderValue(name, line) == Some(value)
  {
    if Says(line, name, value) {
      var field, written, rest :|
        IsField(line, field, rest) && IsPadded(field, written) && SameLetters(written, name) && IsPadded(rest, value);
      FieldIsSplit(line, field, rest);
      TrimIsCore(field);
      TrimIsCore(rest);
      CoreIsOnlyOne(field, written, Trim(field));
      CoreIsOnlyOne(rest, value, Trim(rest));
      EqIgnoreCaseIff(written, name);
    }
    if HeaderValue(name, line) == Some(value) {
      var (field, rest) := SplitOnce(line, ':').value;
      FieldIsSplit(line, field, rest);
      TrimIsCore(field);
      TrimIsCore(rest);
      EqIgnoreCaseIff(Trim(field), name);
    }
  }

  lemma ForIff(line: string, name: string)
    ensures IsFor(line, name) <==> HeaderValue(name, line).Some?
  {
    if HeaderValue(name, line).Some? {
      SaysIff(line, name, HeaderValue(name, line).value);
    }
    if IsFor(line, name) {
      var value :| Says(line, name, value);
      SaysIff(line, name, value);
    }
  }

  // ----- The last line of each kind -----

  /** The last line for `name` gives its value; without one there is none. */
  ghost predicate IsLastValue(name: string, lines: seq<string>, value: Option<string>) {
    if value.None? then forall line <- lines :: !IsFor(line, name)
    else exists k: nat :: k < |lines| && Says(lines[k], name, value.value) && NoneAfter(name, lines, k)
  }

  ghost predicate NoneAfter(name: string, lines: seq<string>, k: nat) {
    forall j: nat :: k < j < |lines| ==> !IsFor(lines[j], name)
  }

  lemma LastValueOfOneMore(name: string, lines: seq<string>, line: string, value: Option<string>)
    requires IsLastValue(name, lines, value)
    ensures IsLastValue(name, lines + [line], if HeaderValue(name, line).Some? then HeaderValue(name, line) else value)
  {
    var all := lines + [line];
    ForIff(line, name);
    if HeaderValue(name, line).Some? {
      SaysIff(line, name, HeaderValue(name, line).value);
      assert all[|lines|] == line && NoneAfter(name, all, |lines|);
    } else if value.Some? {
      var k: nat :| k < |lines| && Says(lines[k], name, value.value) && NoneAfter(name, lines, k);
      assert all[k] == lines[k] && NoneAfter(name, all, k);
    }
  }

  /** There is one last value only. */
  lemma LastValueIsOnlyOne(name: string, lines: seq<string>, v: Option<string>, w: Option<string>)
    requires IsLastValue(name, lines, v) && IsLastValue(name, lines, w)
    ensures v == w
  {
    if v.Some? && w.Some? {
      var k: nat :| k < |lines| && Says(lines[k], name, v.value) && NoneAfter(name, lines, k);
      var j: nat :| j < |lines| && Says(lines[j], name, w.value) && NoneAfter(name, lines, j);
      assert IsFor(lines[k], name) && IsFor(lines[j], name);
      SaysIff(lines[k], name, v.value);
      SaysIff(lines[j], name, w.value);
    } else if v.Some? || w.Some? {
      var some := if v.Some? then v else w;
      var k: nat :| k < |lines| && Says(lines[k], name, some.value) && NoneAfter(name, lines, k);
      assert IsFor(lines[k], name);
    }
  }

  lemma NoteLineValues(names: Names, fields: Fields, line: string)
    requires !EqIgnoreCase(names.host, names.proxyAuth)
    ensures var host := HeaderValue(names.host, line);
            NoteLine(names, fields, line).host == if host.Some? then host else fields.host
    ensures var auth := HeaderValue(names.proxyAuth, line);
            NoteLine(names, fields, line).proxyAuth == if auth.Some? then auth else fields.proxyAuth
  {
  }

  /** No line is for both of the headers the reader looks for. */
  lemma HeaderNamesDiffer(names: Names)
    requires |names.host| != |names.proxyAuth|
    ensures !EqIgnoreCase(names.host, names.proxyAuth)
  {
    EqIgnoreCaseIff(names.host, names.proxyAuth);
  }

  /** Of several lines for one header the last one counts, for the host and for the credentials alike. */
  lemma {:induction false} LastHeaderCounts(names: Names, lines: seq<string>)
    requires |names.host| != |names.proxyAuth|
    ensures IsLastValue(names.host, lines, NoteAll(names, lines).host)
    ensures IsLastValue(names.proxyAuth, lines, NoteAll(names, lines).proxyAuth)
  {
    if lines != [] {
      var init, last := lines[..|lines| - 1], lines[|lines| - 1];
      var before := NoteAll(names, init);
      LastHeaderCounts(names, init);
      HeaderNamesDiffer(names);
      NoteLineValues(names, before, last);
      LastValueOfOneMore(names.host, init, last, before.host);
      LastValueOfOneMore(names.proxyAuth, init, last, before.proxyAuth);
      assert init + [last] == lines;
    }
  }

  // ----- From bytes to target, with the reader's own words and limit -----

  lemma NamesAreApart()
    ensures |NAMES.host| != |NAMES.proxyAuth|
    ensures !(NAMES.http <= NAMES.https)
  {
    assert NAMES.http[4] != NAMES.https[4];
  }

  lemma LongerKeepsPrefix(a: string, b: string, more: string)
    requires |a| <= |b| && !(a <= b)
    ensures !(a <= b + more)
  {
    assert (b + more)[..|a|] == b[..|a|];
  }

  lemma SchemesAreApart(scheme: string, more: string)
    requires scheme == NAMES.http || scheme == NAMES.https
    ensures IsScheme(NAMES, scheme, scheme + more)
  {
    NamesAreApart();
    DropFront(scheme, more);
    if scheme == NAMES.https {
      LongerKeepsPrefix(NAMES.http, scheme, more);
    }
  }

  /** The header lines of a request, behind its first line. */
  function LinesOf(decode: Decoder, input: seq<Byte>): seq<string> {
    HeaderLines(decode, input[|FirstLine(input)|..])
  }

  /** A request that is read at all: its line is two words or more, its head is text and within the limit. */
  predicate IsRequest(decode: Decoder, input: seq<Byte>, verb: string, target: string) {
    IsRequestLine(decode, FirstLine(input), verb, target) && IsReadable(decode, input, MAX_HEADER_BYTES)
  }

  /** What the last Host and Proxy-Authorization lines of a request say is what the reader notes. */
  lemma FieldsOf(decode: Decoder, input: seq<Byte>, asked: Option<string>, auth: Option<string>)
    requires IsLastValue("host", LinesOf(decode, input), asked)
    requires IsLastValue("proxy-authorization", LinesOf(decode, input), auth)
    ensures NoteAll(NAMES, LinesOf(decode, input)) == Fields(asked, auth)
  {
    var lines := LinesOf(decode, input);
    NamesAreApart();
    LastHeaderCounts(NAMES, lines);
    LastValueIsOnlyOne("host", lines, asked, NoteAll(NAMES, lines).host);
    LastValueIsOnlyOne("proxy-authorization", lines, auth, NoteAll(NAMES, lines).proxyAuth);
  }

  /** There always are such values, so what follows covers every request. */
  lemma FieldsExist(decode: Decoder, input: seq<Byte>) returns (asked: Option<string>, auth: Option<string>)
    ensures IsLastValue("host", LinesOf(decode, input), asked)
    ensures IsLastValue("proxy-authorization", LinesOf(decode, input), auth)
  {
    NamesAreApart();
    LastHeaderCounts(NAMES, LinesOf(decode, input));
    asked, auth := NoteAll(NAMES, LinesOf(decode, input)).host, NoteAll(NAMES, LinesOf(decode, input)).proxyAuth;
  }

  /**
   * A tunnel request, read from its bytes: the target is the host and the port that its line prints, with the whole
   * head and the last credentials, exactly when the host is neither empty nor opened by a bracket.
   */
  lemma TunnelIsRead(decode: Decoder, input: seq<Byte>, verb: string, host: string, port: nat,
                     asked: Option<string>, auth: Option<string>)
    requires SameLetters(verb, "CONNECT") && port < 0x1_0000
    requires IsRequest(decode, input, verb, host + ":" + PrintNumber(port))
    requires IsLastValue("host", LinesOf(decode, input), asked)
    requires IsLastValue("proxy-authorization", LinesOf(decode, input), auth)
    ensures TargetOf(decode, input) == Ok(Some(Target(true, host, port, input[..HeadLength(decode, input)], auth)))
       <==> host != "" && host[0] != '['
  {
    EqIgnoreCaseIff(verb, "CONNECT");
    FieldsOf(decode, input, asked, auth);
    RequestIsRead(decode, NAMES, input, MAX_HEADER_BYTES, verb, host + ":" + PrintNumber(port));
    ConnectResolves(NAMES, verb, host, port, input[..HeadLength(decode, input)], Fields(asked, auth));
  }

  /** A request with an absolute target, read from its bytes: the target's own authority decides, whatever Host says. */
  lemma AbsoluteIsRead(decode: Decoder, input: seq<Byte>, verb: string, scheme: string, host: string, port: nat,
                       path: string, asked: Option<string>, auth: Option<string>)
    requires !SameLetters(verb, "CONNECT") && port < 0x1_0000 && (scheme == "http://" || scheme == "https://")
    requires '/' !in host && '?' !in host && (path != "" ==> path[0] == '/' || path[0] == '?')
    requires IsRequest(decode, input, verb, scheme + (host + ":" + PrintNumber(port) + path))
    requires IsLastValue("host", LinesOf(decode, input), asked)
    requires IsLastValue("proxy-authorization", LinesOf(decode, input), auth)
    ensures TargetOf(decode, input) == Ok(Some(Target(false, host, port, input[..HeadLength(decode, input)], auth)))
       <==> host != "" && host[0] != '['
  {
    var more := host + ":" + PrintNumber(port) + path;
    EqIgnoreCaseIff(verb, "CONNECT");
    FieldsOf(decode, input, asked, auth);
    SchemesAreApart(scheme, more);
    RequestIsRead(decode, NAMES, input, MAX_HEADER_BYTES, verb, scheme + more);
    AbsoluteResolves(NAMES, verb, scheme, host, port, path, input[..HeadLength(decode, input)], Fields(asked, auth));
  }

  /** Any other request, read from its bytes: the last Host line decides, and without one it is refused. */
  lemma OriginIsRead(decode: Decoder, input: seq<Byte>, verb: string, target: string, host: string, port: nat,
                     asked: Option<string>, auth: Option<string>)
    requires !SameLetters(verb, "CONNECT") && port < 0x1_0000
    requires !("http://" <= target) && !("https://" <= target) && IsRequest(decode, input, verb, target)
    requires IsLastValue("host", LinesOf(decode, input), asked)
    requires IsLastValue("proxy-authorization", LinesOf(decode, input), auth)
    ensures asked == None ==> TargetOf(decode, input) == Err(NoHost)
    ensures asked == Some(host + ":" + PrintNumber(port)) ==>
              (TargetOf(decode, input) == Ok(Some(Target(false, host, port, input[..HeadLength(decode, input)], auth)))
               <==> host != "" && host[0] != '[')
  {
    EqIgnoreCaseIff(verb, "CONNECT");
    FieldsOf(decode, input, asked, auth);
    RequestIsRead(decode, NAMES, input, MAX_HEADER_BYTES, verb, target);
    OriginResolves(NAMES, verb, target, host, port, input[..HeadLength(decode, input)], Fields(asked, auth));
  }

  // ----- Authorities, with and without a port -----

  /** The ways to write a host and a port: without a port it is the default one, and a host may be in brackets. */
  predicate IsAuthority(text: string, defaultPort: nat, host: string, port: nat) {
    || (':' !in host && (host != "" ==> host[0] != '[') && text == host && port == defaultPort)
    || (host != "" && host[0] != '[' && text == host + ":" + PrintNumber(port) && port < 0x1_0000)
    || (']' !in host && text == "[" + (host + "]") && port == defaultPort)
    || (']' !in host && text == "[" + (host + "]" + (":" + PrintNumber(port))) && port < 0x1_0000)
  }

  lemma AuthorityIsSplit(text: string, defaultPort: nat, host: string, port: nat)
    requires IsAuthority(text, defaultPort, host, port)
    ensures SplitHostPort(text, defaultPort) == Ok((host, port))
  {
    BareHostGetsDefault(host, defaultPort);
    if port < 0x1_0000 {
      HostPortIsRecovered(host, port, defaultPort);
      BracketedHostIsRecovered(host, port, defaultPort);
    }
  }

  /** An absolute target is a scheme, an authority, and from the first slash or question mark on anything. */
  predicate IsAbsolute(target: string, scheme: string, authority: string, path: string) {
    && (scheme == "http://" || scheme == "https://") && target == scheme + (authority + path)
    && '/' !in authority && '?' !in authority && (path != "" ==> path[0] == '/' || path[0] == '?')
  }

  /** Where a request wants to go: a tunnel to its target, on 443; the authority of its target, or Host, on 80. */
  ghost predicate GoesTo(verb: string, target: string, asked: Option<string>, isConnect: bool, host: string,
                         port: nat)
  {
    if SameLetters(verb, "CONNECT") then isConnect && IsAuthority(target, 443, host, port)
    else
      && !isConnect
      && if "http://" <= target || "https://" <= target then
           exists scheme, text, path :: IsAbsolute(target, scheme, text, path) && IsAuthority(text, 80, host, port)
         else asked.Some? && IsAuthority(asked.value, 80, host, port)
  }

  lemma AbsoluteAuthority(names: Names, target: string, scheme: string, text: string, path: string,
                          asked: Option<string>)
    requires names == NAMES && IsAbsolute(target, scheme, text, path)
    ensures Authority(names, target, asked) == Some(text)
  {
    SchemesAreApart(scheme, text + path);
    DropFront(scheme, text + path);
    BeforePathStops(text, path);
  }

  lemma ResolvesWhereItGoes(verb: string, target: string, head: seq<Byte>, asked: Option<string>, auth: Option<string>,
                            isConnect: bool, host: string, port: nat)
    requires GoesTo(verb, target, asked, isConnect, host, port)
    ensures Resolve(NAMES, verb, target, head, Fields(asked, auth)) == Ok(Target(isConnect, host, port, head, auth))
  {
    EqIgnoreCaseIff(verb, "CONNECT");
    if SameLetters(verb, "CONNECT") {
      AuthorityIsSplit(target, 443, host, port);
    } else if "http://" <= target || "https://" <= target {
      var scheme, text, path :| IsAbsolute(target, scheme, text, path) && IsAuthority(text, 80, host, port);
      AbsoluteAuthority(NAMES, target, scheme, text, path, asked);
      AuthorityIsSplit(text, 80, host, port);
    } else {
      AuthorityIsSplit(asked.value, 80, host, port);
    }
  }

  /**
   * Every readable request of any of the three forms is read as going where its line and its last Host line say, on
   * the port they print or the default one, with its whole head and its last credentials.
   */
  lemma RequestGoesWhereItSays(decode: Decoder, input: seq<Byte>, verb: string, target: string, asked: Option<string>,
                               auth: Option<string>, isConnect: bool, host: string, port: nat)
    requires IsRequest(decode, input, verb, target)
    requires IsLastValue("host", LinesOf(decode, input), asked)
    requires IsLastValue("proxy-authorization", LinesOf(decode, input), auth)
    requires GoesTo(verb, target, asked, isConnect, host, port)
    ensures TargetOf(decode, input)
         == Ok(Some(Target(isConnect, host, port, input[..HeadLength(decode, input)], auth)))
  {
    FieldsOf(decode, input, asked, auth);
    RequestIsRead(decode, NAMES, input, MAX_HEADER_BYTES, verb, target);
    ResolvesWhereItGoes(verb, target, input[..HeadLength(decode, input)], asked, auth, isConnect, host, port);
  }

  // ----- Ordinary requests, byte for byte -----

  /** A line as it is sent: one newline, at its end. */
  predicate IsWholeLine(line: seq<Byte>) {
    EndsWithNewline(line) && forall k :: 0 <= k < |line| - 1 ==> line[k] != NEWLINE
  }

  lemma FirstOfLines(line: seq<Byte>, rest: seq<Byte>)
    requires IsWholeLine(line)
    ensures FirstLine(line + rest) == line && (line + rest)[|line|..] == rest
  {
    var input := line + rest;
    LineEndIsFirst(input, 0, |input|);
    var n := LineLength(input, |input|);
    assert input[|line| - 1] == NEWLINE;
    assert forall k :: 0 <= k < |line| - 1 ==> input[k] == line[k];
    DropFront(line, rest);
    assert n == |line|;
  }

  function Joined(lines: seq<seq<Byte>>): seq<Byte> {
    if lines == [] then [] else lines[0] + Joined(lines[1..])
  }

  /** Lines that say these texts, none of them blank. */
  predicate Spell(decode: Decoder, lines: seq<seq<Byte>>, texts: seq<string>) {
    && |lines| == |texts|
    && forall k :: 0 <= k < |lines| ==>
         IsWholeLine(lines[k]) && decode(lines[k]) == Some(texts[k]) && !IsBlank(texts[k])
  }

  /** A line that ends the headers: a newline with only whitespace before it. */
  predicate IsBlankLine(decode: Decoder, line: seq<Byte>) {
    IsWholeLine(line) && decode(line).Some? && IsBlank(decode(line).value)
  }

  /** What reading makes of a head is what its lines say. */
  ghost predicate HeadIs(decode: Decoder, input: seq<Byte>, texts: seq<string>, length: nat) {
    && HeaderLines(decode, input) == texts && HeadersLength(decode, input) == length
    && HeadersAreText(decode, input) && EndsWithBlankLine(decode, input)
  }

  lemma BlankEndsHead(decode: Decoder, blank: seq<Byte>, rest: seq<Byte>)
    requires IsBlankLine(decode, blank)
    ensures HeadIs(decode, blank + rest, [], |blank|)
  {
    FirstOfLines(blank, rest);
  }

  lemma LineGoesBefore(decode: Decoder, line: seq<Byte>, text: string, more: seq<Byte>, texts: seq<string>, length: nat)
    requires IsWholeLine(line) && decode(line) == Some(text) && !IsBlank(text) && HeadIs(decode, more, texts, length)
    ensures HeadIs(decode, line + more, [text] + texts, |line| + length)
  {
    FirstOfLines(line, more);
  }

  lemma {:induction false} LinesAreTheHead(decode: Decoder, lines: seq<seq<Byte>>, texts: seq<string>, blank: seq<Byte>,
                                           rest: seq<Byte>)
    requires Spell(decode, lines, texts) && IsBlankLine(decode, blank)
    ensures HeadIs(decode, Joined(lines) + (blank + rest), texts, |Joined(lines)| + |blank|)
  {
    if lines == [] {
      BlankEndsHead(decode, blank, rest);
      assert [] + (blank + rest) == blank + rest;
    } else {
      LinesAreTheHead(decode, lines[1..], texts[1..], blank, rest);
      var more := Joined(lines[1..]) + (blank + rest);
      LineGoesBefore(decode, lines[0], texts[0], more, texts[1..], |Joined(lines[1..])| + |blank|);
      Regroup(lines[0], Joined(lines[1..]), blank + rest);
      FrontAndRest(texts);
    }
  }

  lemma OrdinaryHead(decode: Decoder, first: seq<Byte>, lines: seq<seq<Byte>>, texts: seq<string>, blank: seq<Byte>,
                     rest: seq<Byte>, verb: string, target: string)
    requires IsWholeLine(first) && IsRequestLine(decode, first, verb, target)
    requires Spell(decode, lines, texts) && IsBlankLine(decode, blank)
    requires |first + Joined(lines) + blank| <= MAX_HEADER_BYTES
    ensures var input := first + (Joined(lines) + (blank + rest));
            && IsRequest(decode, input, verb, target) && LinesOf(decode, input) == texts
            && input[..HeadLength(decode, input)] == first + Joined(lines) + blank
  {
    var more := Joined(lines) + (blank + rest);
    LinesAreTheHead(decode, lines, texts, blank, rest);
    FirstOfLines(first, more);
    var input := first + more;
    assert HeadLength(decode, input) == |first| + (|Joined(lines)| + |blank|);
    assert input == (first + Joined(lines) + blank) + rest;
    DropFront(first + Joined(lines) + blank, rest);
  }

  /**
   * From the bytes of an ordinary request to its target. A request line of a method and a target, header lines that
   * are text and not blank, a blank line, and 64 KiB at most up to there: whatever bytes follow, the request is read as
   * going where its line and its last Host line say, with exactly those bytes as its head and the last credentials.
   */
  lemma OrdinaryRequestIsRead(decode: Decoder, first: seq<Byte>, lines: seq<seq<Byte>>, texts: seq<string>,
                              blank: seq<Byte>, rest: seq<Byte>, verb: string, target: string, asked: Option<string>,
                              auth: Option<string>, isConnect: bool, host: string, port: nat)
    requires IsWholeLine(first) && IsRequestLine(decode, first, verb, target)
    requires Spell(decode, lines, texts) && IsBlankLine(decode, blank)
    requires |first + Joined(lines) + blank| <= 65536
    requires IsLastValue("host", texts, asked) && IsLastValue("proxy-authorization", texts, auth)
    requires GoesTo(verb, target, asked, isConnect, host, port)
    ensures TargetOf(decode, first + (Joined(lines) + (blank + rest)))
         == Ok(Some(Target(isConnect, host, port, first + Joined(lines) + blank, auth)))
  {
    OrdinaryHead(decode, first, lines, texts, blank, rest, verb, target);
    RequestGoesWhereItSays(decode, first + (Joined(lines) + (blank + rest)), verb, target, asked, auth,
                           isConnect, host, port);
  }

  // ----- And nothing else is read -----

  /** What is read at all is such a request: a line of two words or more, text throughout, within the limit. */
  lemma OnlyRequestsAreRead(decode: Decoder, input: seq<Byte>) returns (verb: string, target: string)
    requires TargetOf(decode, input).Ok? && TargetOf(decode, input).value.Some?
    ensures IsRequest(decode, input, verb, target)
  {
    var line := FirstLine(input);
    CappedLineExactly(decode, input, MAX_HEADER_BYTES);
    var text := decode(line).value;
    SplitAreWords(text);
    verb, target := RequestTarget(text).value.0, RequestTarget(text).value.1;
    OnlyReadableFinishes(decode, NAMES, line, input[|line|..], MAX_HEADER_BYTES, verb, target);
  }

  lemma OnlyReadableFinishes(decode: Decoder, names: Names, line: seq<Byte>, rest: seq<Byte>, limit: nat,
                             verb: string, target: string)
    requires |line| <= limit && Finish(decode, names, line, rest, limit, verb, target).Ok?
    ensures HeadersAreText(decode, rest) && HeadFits(decode, rest, limit - |line|)
  {
    HeadersExactly(decode, rest, limit - |line|);
  }

  lemma {:induction false} SplitLastExactly(s: string, c: char)
    ensures match SplitLast(s, c)
            case None => c !in s
            case Some((before, after)) => c !in after && s == before + [c] + after
  {
    if s != "" && s[|s| - 1] != c {
      SplitLastExactly(s[..|s| - 1], c);
      assert s == s[..|s| - 1] + [s[|s| - 1]];
    }
  }

  /** How a text splits: in brackets, without a colon, at its last colon, or not at all when nothing is before that. */
  ghost predicate SplitsAs(text: string, defaultPort: nat, host: string, port: nat) {
    if text != "" && text[0] == '[' then
      exists rest :: ']' !in host && text == "[" + (host + "]" + rest) && PortBehind(rest, defaultPort, port)
    else if ':' !in text then host == text && port == defaultPort
    else exists digits :: SplitsAtLast(text, digits, defaultPort, host, port)
  }

  predicate SplitsAtLast(text: string, digits: string, defaultPort: nat, host: string, port: nat) {
    && ':' !in digits
    && if text == ":" + digits then host == text && port == defaultPort
       else text == host + ":" + digits && ParsePort(digits) == Some(port)
  }

  predicate PortBehind(rest: string, defaultPort: nat, port: nat) {
    if rest != "" && rest[0] == ':' then ParsePort(rest[1..]) == Some(port) else port == defaultPort
  }

  lemma BracketedExactly(text: string, defaultPort: nat, host: string, port: nat)
    requires text != "" && text[0] == '['
    ensures SplitHostPort(text, defaultPort) == Ok((host, port)) <==> SplitsAs(text, defaultPort, host, port)
  {
    SplitOnceExactly(text[1..], ']');
    FrontAndRest(text);
    if SplitHostPort(text, defaultPort) == Ok((host, port)) {
      var (h, rest) := SplitOnce(text[1..], ']').value;
      assert text == "[" + (host + "]" + rest) && PortBehind(rest, defaultPort, port);
    }
    if SplitsAs(text, defaultPort, host, port) {
      var rest :| ']' !in host && text == "[" + (host + "]" + rest) && PortBehind(rest, defaultPort, port);
      DropFront("[", host + "]" + rest);
      SplitOnceAt(host, ']', rest);
    }
  }

  /** The last colon of a text is where it is split, if it is split at all. */
  lemma LastColon(before: string, digits: string, defaultPort: nat, host: string, port: nat)
    requires ':' !in digits && (before == "" || before[0] != '[')
    ensures SplitHostPort(before + ":" + digits, defaultPort)
         == if before == "" then Ok((before + ":" + digits, defaultPort))
            else if ParsePort(digits).Some? then Ok((before, ParsePort(digits).value)) else Err(BadHostPort)
  {
    SplitLastAt(before, ':', digits);
  }

  lemma FrontIs(before: string, other: string, digits: string, more: string)
    requires ':' !in digits && ':' !in more && before + ":" + digits == other + ":" + more
    ensures before == other && digits == more
  {
    SplitLastAt(before, ':', digits);
    SplitLastAt(other, ':', more);
  }

  lemma ColonExactly(before: string, digits: string, defaultPort: nat, host: string, port: nat)
    requires ':' !in digits && (before == "" || before[0] != '[')
    ensures SplitHostPort(before + ":" + digits, defaultPort) == Ok((host, port))
       <==> exists more :: SplitsAtLast(before + ":" + digits, more, defaultPort, host, port)
  {
    var text := before + ":" + digits;
    LastColon(before, digits, defaultPort, host, port);
    assert "" + ":" + digits == ":" + digits;
    if SplitHostPort(text, defaultPort) == Ok((host, port)) {
      assert before != "" ==> |text| > |":" + digits|;
      assert SplitsAtLast(text, digits, defaultPort, host, port);
    }
    if exists more :: SplitsAtLast(text, more, defaultPort, host, port) {
      var more :| SplitsAtLast(text, more, defaultPort, host, port);
      assert "" + ":" + more == ":" + more;
      FrontIs(before, if text == ":" + more then "" else host, digits, more);
    }
  }

  lemma PlainExactly(text: string, defaultPort: nat, host: string, port: nat)
    requires text == "" || text[0] != '['
    ensures SplitHostPort(text, defaultPort) == Ok((host, port)) <==> SplitsAs(text, defaultPort, host, port)
  {
    SplitLastExactly(text, ':');
    if SplitLast(text, ':').Some? {
      var (before, digits) := SplitLast(text, ':').value;
      assert before + [':'] + digits == before + ":" + digits;
      ColonExactly(before, digits, defaultPort, host, port);
    }
  }

  /** A host and a port come out of a text exactly when it splits as them; everything else is refused. */
  lemma SplitHostPortExactly(text: string, defaultPort: nat, host: string, port: nat)
    ensures SplitHostPort(text, defaultPort) == Ok((host, port)) <==> SplitsAs(text, defaultPort, host, port)
  {
    if text != "" && text[0] == '[' {
      BracketedExactly(text, defaultPort, host, port);
    } else {
      PlainExactly(text, defaultPort, host, port);
    }
  }

  // ----- Ports -----

  predicate AreZeros(s: string) {
    forall k :: 0 <= k < |s| ==> s[k] == '0'
  }

  /** A number, with a plus sign or without, and with any zeros in front. */
  ghost predicate Writes(s: string, n: nat) {
    exists sign, zeros :: (sign == "" || sign == "+") && AreZeros(zeros) && s == sign + (zeros + PrintNumber(n))
  }

  lemma {:induction false} DigitsArePrinted(s: string) returns (zeros: string)
    requires s != "" && AllDigits(s)
    ensures AreZeros(zeros) && s == zeros + PrintNumber(DigitsValue(s))
  {
    var init, last := s[..|s| - 1], s[|s| - 1];
    assert s == init + [last] && IsDigit(last);
    var digit := last as int - '0' as int;
    assert PrintNumber(digit) == [last];
    if init == "" {
      zeros := "";
    } else {
      zeros := DigitsArePrinted(init);
      var v := DigitsValue(init);
      if v == 0 {
        zeros := init;
        ZeroIsZeros(init);
      } else {
        assert (10 * v + digit) / 10 == v && (10 * v + digit) % 10 == digit;
        Regroup(zeros, PrintNumber(v), [last]);
      }
    }
  }

  lemma {:induction false} ZeroIsZeros(s: string)
    requires AllDigits(s) && DigitsValue(s) == 0
    ensures AreZeros(s)
  {
    if s != "" {
      ZeroIsZeros(s[..|s| - 1]);
      assert IsDigit(s[|s| - 1]);
      assert s == s[..|s| - 1] + [s[|s| - 1]];
    }
  }

  lemma {:induction false} ZerosAddNothing(zeros: string, s: string)
    requires AreZeros(zeros) && AllDigits(s)
    ensures AllDigits(zeros + s) && DigitsValue(zeros + s) == DigitsValue(s)
    decreases |s|, |zeros|
  {
    if s == "" {
      assert zeros + s == zeros;
      if zeros != "" {
        assert zeros[..|zeros| - 1] + s == zeros[..|zeros| - 1];
        ZerosAddNothing(zeros[..|zeros| - 1], s);
      }
    } else {
      assert (zeros + s)[..|zeros + s| - 1] == zeros + s[..|s| - 1];
      ZerosAddNothing(zeros, s[..|s| - 1]);
    }
  }

  /** A port is read from exactly the texts that write a number of 16 bits. */
  lemma ParsePortExactly(s: string, n: nat)
    ensures ParsePort(s) == Some(n) <==> n < 0x1_0000 && Writes(s, n)
  {
    if ParsePort(s) == Some(n) {
      var digits := if s != "" && s[0] == '+' then s[1..] else s;
      var zeros := DigitsArePrinted(digits);
      var sign := if s != "" && s[0] == '+' then "+" else "";
      assert s == sign + (zeros + PrintNumber(n));
    }
    if n < 0x1_0000 && Writes(s, n) {
      var sign, zeros :| (sign == "" || sign == "+") && AreZeros(zeros) && s == sign + (zeros + PrintNumber(n));
      ZerosAddNothing(zeros, PrintNumber(n));
      PrintedValue(n);
      var digits := zeros + PrintNumber(n);
      assert IsDigit(digits[0]);
      DropFront(sign, digits);
      NothingInFront(digits);
    }
  }
}
