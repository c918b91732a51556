/** The egress proxy's request reader: a budgeted line loop over an arbitrary byte stream, and host:port parsing. */
module ProxyRequest {
  import opened Characters
  import opened Wrappers
  import opened Sequences

  const NEWLINE: Byte := 10
  const MAX_HEADER_BYTES: nat := 64 * 1024

  /** Reads bytes as UTF-8 text; `None` when they are not. The decoder itself is the standard library's. */
  type Decoder = seq<Byte> -> Option<string>

  datatype Error = HeadersTooLarge | LineTooLarge | NotText | MissingTarget | NoHost | BadHostPort

  datatype Target = Target(isConnect: bool, host: string, port: nat, headerBytes: seq<Byte>, proxyAuth: Option<string>)

  // ----- Text helpers of the standard library -----

  function TrimEnd(s: string): string {
    if s != "" && IsWhitespace(s[|s| - 1]) then TrimEnd(s[..|s| - 1]) else s
  }

  function TrimStart(s: string): string {
    if s != "" && IsWhitespace(s[0]) then TrimStart(s[1..]) else s
  }

  /** Only whitespace, which is what trimming reduces to nothing. */
  predicate IsBlank(s: string) {
    forall i :: 0 <= i < |s| ==> IsWhitespace(s[i])
  }

  lemma {:induction false} BlankTrimsToNothing(s: string)
    ensures IsBlank(s) <==> TrimEnd(s) == ""
  {
    if s != "" && IsWhitespace(s[|s| - 1]) {
      BlankTrimsToNothing(s[..|s| - 1]);
    }
  }

  function Trim(s: string): string {
    TrimStart(TrimEnd(s))
  }

  /** The text before and after the first `c`. */
  function SplitOnce(s: string, c: char): Option<(string, string)> {
    if s == "" then None
    else if s[0] == c then Some(("", s[1..]))
    else
      match SplitOnce(s[1..], c)
      case None => None
      case Some((before, after)) => Some(([s[0]] + before, after))
  }

  /** The text before and after the last `c`. */
  function SplitLast(s: string, c: char): Option<(string, string)> {
    if s == "" then None
    else
      var init, last := s[..|s| - 1], s[|s| - 1];
      if last == c then Some((init, ""))
      else
        match SplitLast(init, c)
        case None => None
        case Some((before, after)) => Some((before, after + [last]))
  }

  function Lowercased(s: string): string {
    if s == "" then "" else [ToAsciiLowercase(s[0])] + Lowercased(s[1..])
  }

  predicate EqIgnoreCase(a: string, b: string) {
    Lowercased(a) == Lowercased(b)
  }

  // ----- host:port -----

  predicate IsDigit(c: char) {
    '0' <= c <= '9'
  }

  predicate AllDigits(s: string) {
    forall i :: 0 <= i < |s| ==> IsDigit(s[i])
  }

  function DigitsValue(s: string): nat
    requires AllDigits(s)
  {
    if s == "" then 0
    else
      var last := s[|s| - 1];
      assert IsDigit(last);
      DigitsValue(s[..|s| - 1]) * 10 + (last as int - '0' as int)
  }

  /** An unsigned 16-bit number, with the optional plus sign that number parsing accepts. */
  function ParsePort(s: string): Option<nat> {
    var digits := if s != "" && s[0] == '+' then s[1..] else s;
    if digits != "" && AllDigits(digits) && DigitsValue(digits) < 0x1_0000
    then Some(DigitsValue(digits)) else None
  }

  function PrintNumber(n: nat): (s: string)
    ensures s != "" && AllDigits(s)
  {
    var digit := '0' + (n % 10) as char;
    if n < 10 then [digit] else PrintNumber(n / 10) + [digit]
  }

  function SplitHostPort(authority: string, defaultPort: nat): Result<(string, nat), Error> {
    if authority != "" && authority[0] == '[' then
      match SplitOnce(authority[1..], ']')
      case None => Err(BadHostPort)
      case Some((host, rest)) =>
        if rest != "" && rest[0] == ':' then
          var port := ParsePort(rest[1..]);
          if port.Some? then Ok((host, port.value)) else Err(BadHostPort)
        else Ok((host, defaultPort))
    else
      match SplitLast(authority, ':')
      case Some((host, port)) =>
        if host != "" then
          if ParsePort(port).Some? then Ok((host, ParsePort(port).value)) else Err(BadHostPort)
        else Ok((authority, defaultPort))
      case None => Ok((authority, defaultPort))
  }

  // ----- Lines under a budget -----

  /** Where the line that goes on at `from` ends: behind its newline, or at `stop`. */
  function LineEnd(input: seq<Byte>, from: nat, stop: nat): (n: nat)
    requires from <= stop <= |input|
    ensures from <= n <= stop
    decreases stop - from
  {
    if from == stop then from
    else if input[from] == NEWLINE then from + 1
    else LineEnd(input, from + 1, stop)
  }

  /** How many bytes a line takes: through the first newline, to the end of the stream, or to the limit. */
  function LineLength(input: seq<Byte>, limit: nat): (n: nat)
    ensures n <= |input| && n <= limit
  {
    LineEnd(input, 0, if limit < |input| then limit else |input|)
  }

  predicate EndsWithNewline(line: seq<Byte>) {
    line != [] && line[|line| - 1] == NEWLINE
  }

  /** One capped line: its bytes and its text. */
  function CappedLine(decode: Decoder, input: seq<Byte>, budget: nat): Result<(seq<Byte>, string), Error> {
    if budget == 0 then Err(HeadersTooLarge)
    else
      var line := input[..LineLength(input, budget)];
      if decode(line).None? then Err(NotText)
      else if |line| == budget && !EndsWithNewline(line) then Err(LineTooLarge)
      else Ok((line, decode(line).value))
  }

  /** What the header lines have said so far; the last of each kind counts. */
  datatype Fields = Fields(host: Option<string>, proxyAuth: Option<string>)

  /** The words the reader looks for: two header names, the tunnel verb and the two schemes of an absolute target. */
  datatype Names = Names(host: string, proxyAuth: string, connect: string, http: string, https: string)

  const NAMES := Names("host", "proxy-authorization", "CONNECT", "http://", "https://")

  function NoteLine(names: Names, fields: Fields, line: string): Fields {
    match SplitOnce(line, ':')
    case None => fields
    case Some((name, value)) =>
      if EqIgnoreCase(Trim(name), names.host) then fields.(host := Some(Trim(value)))
      else if EqIgnoreCase(Trim(name), names.proxyAuth) then fields.(proxyAuth := Some(Trim(value)))
      else fields
  }

  /** What a whole list of header lines says. */
  function NoteAll(names: Names, lines: seq<string>): Fields {
    if lines == [] then Fields(None, None)
    else NoteLine(names, NoteAll(names, lines[..|lines| - 1]), lines[|lines| - 1])
  }

  /** Header lines as they were read: their bytes with the line that ended them, and the text of the others. */
  datatype Head = Head(bytes: seq<Byte>, lines: seq<string>)

  /** The header lines from `input` on, up to the one that ends them. */
  function Headers(decode: Decoder, input: seq<Byte>, budget: nat): Result<Head, Error>
    decreases budget
  {
    match CappedLine(decode, input, budget)
    case Err(e) => Err(e)
    case Ok((line, text)) =>
      if line == [] || IsBlank(text) then Ok(Head(line, []))
      else Behind(Head(line, [text]), Headers(decode, input[|line|..], budget - |line|))
  }

  /** What has been read so far, with the rest of the headers behind it. */
  function Behind(so: Head, rest: Result<Head, Error>): Result<Head, Error> {
    match rest
    case Err(e) => Err(e)
    case Ok(head) => Ok(Head(so.bytes + head.bytes, so.lines + head.lines))
  }

  /** What the header loop comes to from `input` on. */
  ghost function LoopFrom(decode: Decoder, so: Head, input: seq<Byte>, budget: nat): Result<Head, Error> {
    Behind(so, Headers(decode, input, budget))
  }

  lemma BehindTwice(so: Head, line: Head, rest: Result<Head, Error>)
    ensures Behind(so, Behind(line, rest)) == Behind(Head(so.bytes + line.bytes, so.lines + line.lines), rest)
  {
    if rest.Ok? {
      assert so.bytes + (line.bytes + rest.value.bytes) == (so.bytes + line.bytes) + rest.value.bytes;
      assert so.lines + (line.lines + rest.value.lines) == (so.lines + line.lines) + rest.value.lines;
    }
  }

  /** One turn of the header loop: a blank line stops it, any other line is kept. */
  lemma HeadersTurn(decode: Decoder, so: Head, line: seq<Byte>, text: string, rest: seq<Byte>, budget: nat)
    requires CappedLine(decode, line + rest, budget) == Ok((line, text)) && |line| <= budget
    ensures LoopFrom(decode, so, line + rest, budget)
         == if line == [] || IsBlank(text) then Ok(Head(so.bytes + line, so.lines))
            else LoopFrom(decode, Head(so.bytes + line, so.lines + [text]), rest, budget - |line|)
  {
    assert (line + rest)[|line|..] == rest;
    assert so.lines + [] == so.lines;
    BehindTwice(so, Head(line, [text]), Headers(decode, rest, budget - |line|));
  }

  lemma BehindNothing(r: Result<Head, Error>)
    ensures Behind(Head([], []), r) == r
  {
    if r.Ok? {
      assert [] + r.value.bytes == r.value.bytes && [] + r.value.lines == r.value.lines;
    }
  }

  function RequestTarget(requestLine: string): Option<(string, string)> {
    match SplitOnce(TrimEnd(requestLine), ' ')
    case None => None
    case Some((verb, rest)) =>
      match SplitOnce(rest, ' ')
      case None => Some((verb, rest))
      case Some((target, _)) => Some((verb, target))
  }

  function BeforePath(s: string): string {
    if s == "" || s[0] == '/' || s[0] == '?' then "" else [s[0]] + BeforePath(s[1..])
  }

  function StripPrefix(s: string, prefix: string): Option<string> {
    if prefix <= s then Some(s[|prefix|..]) else None
  }

  function Authority(names: Names, target: string, host: Option<string>): Option<string> {
    var rest := StripPrefix(target, names.http);
    var rest' := if rest.Some? then rest else StripPrefix(target, names.https);
    if rest'.Some? then Some(BeforePath(rest'.value)) else host
  }

  function Resolve(names: Names, verb: string, target: string, headerBytes: seq<Byte>, fields: Fields)
    : Result<Target, Error>
  {
    if EqIgnoreCase(verb, names.connect) then
      match SplitHostPort(target, 443)
      case Err(e) => Err(e)
      case Ok((host, port)) => Ok(Target(true, host, port, headerBytes, fields.proxyAuth))
    else
      match Authority(names, target, fields.host)
      case None => Err(NoHost)
      case Some(authority) =>
        match SplitHostPort(authority, 80)
        case Err(e) => Err(e)
        case Ok((host, port)) => Ok(Target(false, host, port, headerBytes, fields.proxyAuth))
  }

  lemma ResolvedHead(names: Names, verb: string, target: string, headerBytes: seq<Byte>, fields: Fields)
    ensures var r := Resolve(names, verb, target, headerBytes, fields);
            r.Ok? ==> r.value.headerBytes == headerBytes
  {
  }

  /** The request behind its first line, with `limit` bytes for the whole head. */
  function Finish(decode: Decoder, names: Names, line: seq<Byte>, rest: seq<Byte>, limit: nat,
                  verb: string, target: string): Result<Option<Target>, Error>
    requires |line| <= limit
  {
    match Headers(decode, rest, limit - |line|)
    case Err(e) => Err(e)
    case Ok(head) =>
      match Resolve(names, verb, target, line + head.bytes, NoteAll(names, head.lines))
      case Err(e) => Err(e)
      case Ok(t) => Ok(Some(t))
  }

  /** What the reader makes of a stream; `Ok(None)` is a stream with no bytes at all. */
  function TargetWithin(decode: Decoder, names: Names, input: seq<Byte>, limit: nat): Result<Option<Target>, Error> {
    match CappedLine(decode, input, limit)
    case Err(e) => Err(e)
    case Ok((line, text)) =>
      if line == [] then Ok(None)
      else
        match RequestTarget(text)
        case None => Err(MissingTarget)
        case Some((verb, target)) => Finish(decode, names, line, input[|line|..], limit, verb, target)
  }

  function TargetOf(decode: Decoder, input: seq<Byte>): Result<Option<Target>, Error> {
    TargetWithin(decode, NAMES, input, MAX_HEADER_BYTES)
  }

  // ----- The loops -----

  /** The buffered stream the proxy reads from. */
  class Reader {
    var rest: seq<Byte>

    constructor (input: seq<Byte>)
      ensures rest == input
    {
      rest := input;
    }

    method ReadCappedLine(decode: Decoder, budget: nat) returns (r: Result<(seq<Byte>, string), Error>, left: nat)
      modifies this
      ensures r == CappedLine(decode, old(rest), budget)
      ensures r.Ok? ==> old(rest) == r.value.0 + rest && left == budget - |r.value.0|
    {
      left := budget;
      if budget == 0 {
        return Err(HeadersTooLarge), left;
      }
      var n := LineLength(rest, budget);
      var line := rest[..n];
      rest := rest[n..];
      var text := decode(line);
      if text.None? {
        return Err(NotText), left;
      }
      if n == budget && !EndsWithNewline(line) {
        return Err(LineTooLarge), left;
      }
      left := budget - n;
      r := Ok((line, text.value));
    }
  }

  /** What one turn of the header loop reads: an error, the line that ends the headers, or one more line. */
  datatype Turn = Failed(error: Error) | Last(line: seq<Byte>) | More(line: seq<Byte>, fields: Fields)

  /** One turn of the header loop, after the lines of `so`; a further line is noted. */
  method ReadHeader(client: Reader, decode: Decoder, names: Names, ghost so: Head, fields: Fields, budget: nat)
    returns (turn: Turn, left: nat, ghost next: Head)
    requires fields == NoteAll(names, so.lines)
    modifies client
    ensures turn.Failed? ==> LoopFrom(decode, so, old(client.rest), budget) == Err(turn.error)
    ensures !turn.Failed? ==> old(client.rest) == turn.line + client.rest && next.bytes == so.bytes + turn.line
    ensures turn.Last? ==> LoopFrom(decode, so, old(client.rest), budget) == Ok(next) && next.lines == so.lines
    ensures turn.More? ==>
              && turn.fields == NoteAll(names, next.lines) && left < budget
              && LoopFrom(decode, so, old(client.rest), budget) == LoopFrom(decode, next, client.rest, left)
  {
    var read;
    read, left := client.ReadCappedLine(decode, budget);
    if read.Err? {
      return Failed(read.error), left, so;
    }
    var (line, text) := read.value;
    HeadersTurn(decode, so, line, text, client.rest, budget);
    BlankTrimsToNothing(text);
    if line == [] || TrimEnd(text) == "" {
      return Last(line), left, Head(so.bytes + line, so.lines);
    }
    NoteOne(names, so.lines, text);
    return More(line, NoteLine(names, fields, text)), left, Head(so.bytes + line, so.lines + [text]);
  }

  /** The header loop: reads lines until one ends the headers, and gathers their bytes. */
  method ReadHeaders(client: Reader, decode: Decoder, names: Names, budget: nat)
    returns (r: Result<(seq<Byte>, Fields), Error>)
    modifies client
    ensures r.Err? ==> Headers(decode, old(client.rest), budget) == Err(r.error)
    ensures r.Ok? ==>
              && old(client.rest) == r.value.0 + client.rest
              && Headers(decode, old(client.rest), budget).Ok?
              && Headers(decode, old(client.rest), budget).value.bytes == r.value.0
              && NoteAll(names, Headers(decode, old(client.rest), budget).value.lines) == r.value.1
  {
    ghost var input := client.rest;
    ghost var all := Headers(decode, input, budget);
    ghost var so := Head([], []);
    var left := budget;
    var bytes := [];
    var fields := Fields(None, None);
    BehindNothing(all);
    while true
      invariant input == bytes + client.rest && so.bytes == bytes
      invariant all == LoopFrom(decode, so, client.rest, left)
      invariant fields == NoteAll(names, so.lines)
      decreases left
    {
      ghost var next;
      var turn;
      turn, left, next := ReadHeader(client, decode, names, so, fields, left);
      if turn.Failed? {
        return Err(turn.error);
      }
      Regroup(bytes, turn.line, client.rest);
      bytes := bytes + turn.line;
      if turn.Last? {
        return Ok((bytes, fields));
      }
      so, fields := next, turn.fields;
    }
  }

  lemma NoteOne(names: Names, lines: seq<string>, text: string)
    ensures NoteAll(names, lines + [text]) == NoteLine(names, NoteAll(names, lines), text)
  {
    assert (lines + [text])[..|lines|] == lines;
  }

  method ReadTarget(client: Reader, decode: Decoder) returns (r: Result<Option<Target>, Error>)
    modifies client
    ensures r == TargetOf(decode, old(client.rest))
    ensures r.Ok? && r.value.Some? ==> old(client.rest) == r.value.value.headerBytes + client.rest
  {
    r := ReadTargetWithin(client, decode, NAMES, MAX_HEADER_BYTES);
  }

  method ReadTargetWithin(client: Reader, decode: Decoder, names: Names, limit: nat)
    returns (r: Result<Option<Target>, Error>)
    modifies client
    ensures r == TargetWithin(decode, names, old(client.rest), limit)
    ensures r.Ok? && r.value.Some? ==> old(client.rest) == r.value.value.headerBytes + client.rest
  {
    var first, budget := client.ReadCappedLine(decode, limit);
    if first.Err? {
      return Err(first.error);
    }
    var (requestLine, requestText) := first.value;
    if requestLine == [] {
      return Ok(None);
    }
    var parts := RequestTarget(requestText);
    if parts.None? {
      return Err(MissingTarget);
    }
    r := ReadRest(client, decode, names, requestLine, limit, parts.value.0, parts.value.1);
  }

  method ReadRest(client: Reader, decode: Decoder, names: Names, requestLine: seq<Byte>, limit: nat,
                  verb: string, target: string)
    returns (r: Result<Option<Target>, Error>)
    requires |requestLine| <= limit
    modifies client
    ensures r == Finish(decode, names, requestLine, old(client.rest), limit, verb, target)
    ensures r.Ok? ==> r.value.Some? && requestLine + old(client.rest) == r.value.value.headerBytes + client.rest
  {
    var headers := ReadHeaders(client, decode, names, limit - |requestLine|);
    if headers.Err? {
      return Err(headers.error);
    }
    var (bytes, fields) := headers.value;
    Regroup(requestLine, bytes, client.rest);
    var resolved := Resolve(names, verb, target, requestLine + bytes, fields);
    ResolvedHead(names, verb, target, requestLine + bytes, fields);
    match resolved {
      case Err(e) => return Err(e);
      case Ok(t) => return Ok(Some(t));
    }
  }

  // ----- The head of a request, without a budget -----

  /** The first line of the stream, through its newline or to the end. */
  function FirstLine(input: seq<Byte>): seq<Byte> {
    input[..LineLength(input, |input|)]
  }

  /** A line that ends the headers: the end of the stream, or only whitespace. */
  predicate EndsHeaders(decode: Decoder, line: seq<Byte>) {
    line == [] || (decode(line).Some? && IsBlank(decode(line).value))
  }

  /** Where the headers end, counting their terminating line. */
  function HeadersLength(decode: Decoder, input: seq<Byte>): (n: nat)
    ensures n <= |input|
    decreases |input|
  {
    var line := FirstLine(input);
    if EndsHeaders(decode, line) then |line|
    else |line| + HeadersLength(decode, input[|line|..])
  }

  /** Whether every header line is text. */
  predicate HeadersAreText(decode: Decoder, input: seq<Byte>)
    decreases |input|
  {
    var line := FirstLine(input);
    decode(line).Some? && (EndsHeaders(decode, line) || HeadersAreText(decode, input[|line|..]))
  }

  /** Whether a newline, rather than the end of the stream, ends the line that ends the headers. */
  predicate EndsWithBlankLine(decode: Decoder, input: seq<Byte>)
    decreases |input|
  {
    var line := FirstLine(input);
    if EndsHeaders(decode, line) then EndsWithNewline(line) else EndsWithBlankLine(decode, input[|line|..])
  }

  /** Only the last byte of a line is a newline, and a line without one runs to `stop`. */
  lemma {:induction false} LineEndIsFirst(input: seq<Byte>, from: nat, stop: nat)
    requires from <= stop <= |input|
    ensures var n := LineEnd(input, from, stop);
            && (forall k: nat :: from <= k < n - 1 ==> input[k] != NEWLINE)
            && (n == stop || (from < n && input[n - 1] == NEWLINE))
            && (from < stop ==> from < n)
    decreases stop - from
  {
    if from < stop && input[from] != NEWLINE {
      LineEndIsFirst(input, from + 1, stop);
    }
  }

  lemma LineUnderLimit(input: seq<Byte>, limit: nat)
    ensures LineLength(input, limit)
         == if limit <= LineLength(input, |input|) then limit else LineLength(input, |input|)
    ensures LineLength(input, |input|) == 0 <==> input == []
  {
    LineEndIsFirst(input, 0, |input|);
    LineEndIsFirst(input, 0, if limit < |input| then limit else |input|);
  }

  lemma NewlineIsLast(input: seq<Byte>, k: nat)
    requires k < LineLength(input, |input|) && input[k] == NEWLINE
    ensures k + 1 == LineLength(input, |input|)
  {
    LineEndIsFirst(input, 0, |input|);
  }

  lemma NoNewlineIsEnd(input: seq<Byte>)
    ensures EndsWithNewline(FirstLine(input)) || FirstLine(input) == input
  {
    LineEndIsFirst(input, 0, |input|);
  }

  /** The budget lets a line through exactly when the whole line fits in it, or is shorter than it at end of stream. */
  predicate LineFits(line: seq<Byte>, budget: nat) {
    |line| < budget || (|line| == budget && EndsWithNewline(line))
  }

  lemma CappedLineExactly(decode: Decoder, input: seq<Byte>, budget: nat)
    ensures LineFits(FirstLine(input), budget) && decode(FirstLine(input)).Some? ==>
              CappedLine(decode, input, budget) == Ok((FirstLine(input), decode(FirstLine(input)).value))
    ensures CappedLine(decode, input, budget).Ok? ==>
              LineFits(FirstLine(input), budget) && decode(FirstLine(input)).Some?
  {
    var line := FirstLine(input);
    LineUnderLimit(input, budget);
    if budget < |line| && EndsWithNewline(input[..budget]) {
      NewlineIsLast(input, budget - 1);
    }
  }

  /** The head of `input` fits: below the budget, or exactly at it when a newline closes its last line. */
  predicate HeadFits(decode: Decoder, input: seq<Byte>, budget: nat) {
    || HeadersLength(decode, input) < budget
    || (HeadersLength(decode, input) == budget && EndsWithBlankLine(decode, input))
  }

  lemma HeadFitsStep(decode: Decoder, input: seq<Byte>, budget: nat)
    ensures var line := FirstLine(input);
            && (EndsHeaders(decode, line) || !LineFits(line, budget) ==>
                  (HeadFits(decode, input, budget) <==> LineFits(line, budget)))
            && (!EndsHeaders(decode, line) && LineFits(line, budget) ==>
                  (HeadFits(decode, input, budget) <==> HeadFits(decode, input[|line|..], budget - |line|)))
  {
    NoNewlineIsEnd(input);
    var line := FirstLine(input);
    assert !EndsWithNewline(line) ==> input[|line|..] == [];
    assert FirstLine([]) == [] && HeadersLength(decode, []) == 0 && !EndsWithBlankLine(decode, []);
  }

  lemma HeadersStep(decode: Decoder, input: seq<Byte>, budget: nat)
    ensures var line := FirstLine(input);
            && (!LineFits(line, budget) || decode(line).None? ==> Headers(decode, input, budget).Err?)
            && (LineFits(line, budget) && decode(line).Some? ==>
                  Headers(decode, input, budget)
                  == if EndsHeaders(decode, line) then Ok(Head(line, []))
                     else Behind(Head(line, [decode(line).value]), Headers(decode, input[|line|..], budget - |line|)))
  {
    CappedLineExactly(decode, input, budget);
  }

  /**
   * The headers are read exactly when every line is text and they fit: up to and including the budget when a
   * blank line ends them, strictly below it when the stream does. What is consumed is then the whole head.
   */
  lemma HeadersExactly(decode: Decoder, input: seq<Byte>, budget: nat)
    ensures Headers(decode, input, budget).Ok? <==> HeadersAreText(decode, input) && HeadFits(decode, input, budget)
    ensures Headers(decode, input, budget).Ok? ==>
              Headers(decode, input, budget).value.bytes == input[..HeadersLength(decode, input)]
  {
    HeadersReadWhen(decode, input, budget);
    HeadersConsume(decode, input, budget);
  }

  lemma HeadersStepReads(decode: Decoder, input: seq<Byte>, budget: nat)
    ensures var line := FirstLine(input);
            Headers(decode, input, budget).Ok?
            <==> && LineFits(line, budget) && decode(line).Some?
                 && (EndsHeaders(decode, line) || Headers(decode, input[|line|..], budget - |line|).Ok?)
  {
    HeadersStep(decode, input, budget);
  }

  lemma LineIsNonempty(input: seq<Byte>)
    requires FirstLine(input) != []
    ensures |input[|FirstLine(input)|..]| < |input|
  {
  }

  lemma TextStep(decode: Decoder, input: seq<Byte>)
    ensures var line := FirstLine(input);
            HeadersAreText(decode, input)
            <==> decode(line).Some? && (EndsHeaders(decode, line) || HeadersAreText(decode, input[|line|..]))
  {
  }

  lemma {:induction false} HeadersReadWhen(decode: Decoder, input: seq<Byte>, budget: nat)
    ensures Headers(decode, input, budget).Ok? <==> HeadersAreText(decode, input) && HeadFits(decode, input, budget)
    decreases |input|
  {
    var line := FirstLine(input);
    HeadFitsStep(decode, input, budget);
    HeadersStepReads(decode, input, budget);
    TextStep(decode, input);
    if LineFits(line, budget) && !EndsHeaders(decode, line) && decode(line).Some? {
      LineIsNonempty(input);
      HeadersReadWhen(decode, input[|line|..], budget - |line|);
    }
  }

  lemma {:induction false} HeadersConsume(decode: Decoder, input: seq<Byte>, budget: nat)
    ensures Headers(decode, input, budget).Ok? ==>
              Headers(decode, input, budget).value.bytes == input[..HeadersLength(decode, input)]
    decreases |input|
  {
    var line := FirstLine(input);
    HeadersStep(decode, input, budget);
    if LineFits(line, budget) && !EndsHeaders(decode, line) && decode(line).Some? {
      var rest := input[|line|..];
      HeadersConsume(decode, rest, budget - |line|);
      PrefixAndMore(input, |line|, HeadersLength(decode, rest));
    }
  }

  lemma PrefixAndMore(input: seq<Byte>, k: nat, n: nat)
    requires k + n <= |input|
    ensures input[..k] + input[k..][..n] == input[..k + n]
  {
  }

  // ----- Round trips -----

  lemma {:induction false} SplitOnceAt(a: string, c: char, b: string)
    requires c !in a
    ensures SplitOnce(a + [c] + b, c) == Some((a, b))
  {
    if a == "" {
      assert a + [c] + b == [c] + b;
    } else {
      assert (a + [c] + b)[1..] == a[1..] + [c] + b;
      SplitOnceAt(a[1..], c, b);
      assert [a[0]] + a[1..] == a;
    }
  }

  lemma {:induction false} SplitOnceBefore(s: string, c: char)
    ensures SplitOnce(s, c).Some? ==> SplitOnce(s, c).value.0 <= s && c !in SplitOnce(s, c).value.0
  {
    if s != "" {
      SplitOnceBefore(s[1..], c);
    }
  }

  lemma {:induction false} SplitLastAt(a: string, c: char, b: string)
    requires c !in b
    ensures SplitLast(a + [c] + b, c) == Some((a, b))
  {
    if b == "" {
      assert (a + [c] + b)[..|a|] == a;
    } else {
      assert (a + [c] + b)[..|a| + |b|] == a + [c] + b[..|b| - 1];
      SplitLastAt(a, c, b[..|b| - 1]);
      assert b[..|b| - 1] + [b[|b| - 1]] == b;
    }
  }

  lemma {:induction false} PrintedValue(n: nat)
    ensures DigitsValue(PrintNumber(n)) == n
  {
    if n >= 10 {
      PrintedValue(n / 10);
      var s := PrintNumber(n);
      assert s[..|s| - 1] == PrintNumber(n / 10);
    }
  }

  lemma PortIsRecovered(port: nat)
    ensures ParsePort(PrintNumber(port)) == if port < 0x1_0000 then Some(port) else None
  {
    PrintedValue(port);
    assert IsDigit(PrintNumber(port)[0]);
  }

  /** Nothing that starts with a bracket is its own text shifted by one and ended by a colon. */
  lemma {:induction false} NoShiftedBracket(host: string, port: string, k: nat)
    requires host != "" && host[0] == '[' && k < |host|
    requires host <= host[1..] + ":" + port
    ensures host[k] == '['
  {
    if k > 0 {
      NoShiftedBracket(host, port, k - 1);
      assert host[k - 1] == (host[1..] + ":" + port)[k - 1];
    }
  }

  lemma BracketIsNotRecovered(host: string, digits: string, defaultPort: nat)
    requires host != "" && host[0] == '['
    ensures SplitHostPort(host + ":" + digits, defaultPort).Ok? ==>
              SplitHostPort(host + ":" + digits, defaultPort).value.0 != host
  {
    var authority := host + ":" + digits;
    var shifted := host[1..] + ":" + digits;
    assert authority[1..] == shifted;
    assert shifted[|host| - 1] == ':';
    if host <= shifted {
      NoShiftedBracket(host, digits, |host| - 1);
      assert false;
    }
    SplitOnceBefore(shifted, ']');
  }

  /**
   * Printing a host and a port and splitting them again gives both back exactly when the host is neither empty
   * nor opened by a bracket. Colons inside the host do no harm, since the last colon is the one that splits.
   */
  lemma HostPortIsRecovered(host: string, port: nat, defaultPort: nat)
    requires port < 0x1_0000
    ensures SplitHostPort(host + ":" + PrintNumber(port), defaultPort) == Ok((host, port))
       <==> host != "" && host[0] != '['
  {
    PortIsRecovered(port);
    var digits := PrintNumber(port);
    if host != "" && host[0] == '[' {
      BracketIsNotRecovered(host, digits, defaultPort);
    } else {
      assert ':' !in digits by {
        assert !IsDigit(':');
      }
      SplitLastAt(host, ':', digits);
    }
  }

  lemma BracketedIsSplit(host: string, rest: string)
    ensures SplitOnce(host + "]" + rest, ']').Some?
    ensures var split := SplitOnce(host + "]" + rest, ']').value;
            split == (host, rest) || (']' in host && split.0 != host)
  {
    SplitOnceBefore(host + "]" + rest, ']');
    SplitOnceFinds(host + "]" + rest, ']', |host|);
    if ']' !in host {
      SplitOnceAt(host, ']', rest);
    }
  }

  lemma {:induction false} SplitOnceFinds(s: string, c: char, k: nat)
    requires k < |s| && s[k] == c
    ensures SplitOnce(s, c).Some?
  {
    if k > 0 {
      SplitOnceFinds(s[1..], c, k - 1);
    }
  }

  /** A bracketed host comes back with its port exactly when it holds no closing bracket itself. */
  lemma BracketedHostIsRecovered(host: string, port: nat, defaultPort: nat)
    requires port < 0x1_0000
    ensures SplitHostPort("[" + (host + "]" + (":" + PrintNumber(port))), defaultPort) == Ok((host, port))
       <==> ']' !in host
  {
    PortIsRecovered(port);
    var rest := ":" + PrintNumber(port);
    assert rest[1..] == PrintNumber(port);
    assert ("[" + (host + "]" + rest))[1..] == host + "]" + rest;
    BracketedIsSplit(host, rest);
    SplitOnceBefore(host + "]" + rest, ']');
  }

  // ----- Whole requests -----

  /** How many bytes the request head takes: its first line and its headers. */
  function HeadLength(decode: Decoder, input: seq<Byte>): (n: nat)
    ensures n <= |input|
  {
    var line := FirstLine(input);
    |line| + HeadersLength(decode, input[|line|..])
  }

  lemma FinishCarriesTheHead(decode: Decoder, names: Names, line: seq<Byte>, rest: seq<Byte>, limit: nat,
                             verb: string, target: string)
    requires |line| <= limit
    ensures var r := Finish(decode, names, line, rest, limit, verb, target);
            r.Ok? ==>
              && r.value.Some?
              && r.value.value.headerBytes == line + rest[..HeadersLength(decode, rest)]
              && |line| + HeadersLength(decode, rest) <= limit
  {
    var head := Headers(decode, rest, limit - |line|);
    HeadersExactly(decode, rest, limit - |line|);
    if head.Ok? {
      ResolvedHead(names, verb, target, line + head.value.bytes, NoteAll(names, head.value.lines));
    }
  }

  lemma NothingIsRead(decode: Decoder, names: Names, input: seq<Byte>, limit: nat)
    requires limit > 0
    ensures TargetWithin(decode, names, input, limit) == Ok(None) <==> input == [] && decode([]).Some?
  {
    CappedLineExactly(decode, input, limit);
    LineUnderLimit(input, |input|);
  }

  lemma HeadIsCarried(decode: Decoder, names: Names, input: seq<Byte>, limit: nat)
    ensures var r := TargetWithin(decode, names, input, limit);
            r.Ok? && r.value.Some? ==>
              && r.value.value.headerBytes == input[..HeadLength(decode, input)]
              && HeadLength(decode, input) <= limit
  {
    var line := FirstLine(input);
    CappedLineExactly(decode, input, limit);
    if line != [] && LineFits(line, limit) && decode(line).Some? && RequestTarget(decode(line).value).Some? {
      var (verb, target) := RequestTarget(decode(line).value).value;
      var rest := input[|line|..];
      FinishCarriesTheHead(decode, names, line, rest, limit, verb, target);
      PrefixAndMore(input, |line|, HeadersLength(decode, rest));
    }
  }

  /**
   * A request that is read carries exactly the head of the stream, first line through blank line, and no more
   * than the limit; nothing at all is read as a peer that went away exactly when the stream is empty.
   */
  lemma TargetCarriesTheHead(decode: Decoder, input: seq<Byte>)
    ensures TargetOf(decode, input) == Ok(None) <==> input == [] && decode([]).Some?
    ensures TargetOf(decode, input).Ok? && TargetOf(decode, input).value.Some? ==>
              && TargetOf(decode, input).value.value.headerBytes == input[..HeadLength(decode, input)]
              && HeadLength(decode, input) <= 65536
  {
    NothingIsRead(decode, NAMES, input, MAX_HEADER_BYTES);
    HeadIsCarried(decode, NAMES, input, MAX_HEADER_BYTES);
  }

  lemma {:induction false} TrimEndKeeps(s: string, t: string)
    requires TrimEnd(t) != ""
    ensures TrimEnd(s + t) == s + TrimEnd(t)
  {
    if IsWhitespace(t[|t| - 1]) {
      assert (s + t)[..|s + t| - 1] == s + t[..|t| - 1];
      TrimEndKeeps(s, t[..|t| - 1]);
    }
  }

  /** The text of the header lines, up to the one that ends them. */
  function HeaderLines(decode: Decoder, input: seq<Byte>): seq<string>
    decreases |input|
  {
    var line := FirstLine(input);
    if EndsHeaders(decode, line) || decode(line).None? then []
    else [decode(line).value] + HeaderLines(decode, input[|line|..])
  }

  lemma LinesStep(decode: Decoder, input: seq<Byte>)
    ensures var line := FirstLine(input);
            HeaderLines(decode, input)
            == if EndsHeaders(decode, line) || decode(line).None? then []
               else [decode(line).value] + HeaderLines(decode, input[|line|..])
  {
  }

  lemma LinesEnd(decode: Decoder, input: seq<Byte>, budget: nat)
    requires Headers(decode, input, budget).Ok? && EndsHeaders(decode, FirstLine(input))
    ensures Headers(decode, input, budget).value.lines == [] && HeaderLines(decode, input) == []
  {
    HeadersStep(decode, input, budget);
    LinesStep(decode, input);
  }

  lemma HeadersGoOn(decode: Decoder, input: seq<Byte>, budget: nat) returns (text: string, left: nat)
    requires Headers(decode, input, budget).Ok? && !EndsHeaders(decode, FirstLine(input))
    ensures var rest := Headers(decode, input[|FirstLine(input)|..], left);
            rest.Ok? && Headers(decode, input, budget).value.lines == [text] + rest.value.lines
    ensures decode(FirstLine(input)) == Some(text)
  {
    var line := FirstLine(input);
    HeadersStep(decode, input, budget);
    text, left := decode(line).value, budget - |line|;
  }

  /** Both lists go on with one and the same line. */
  lemma LinesGoOn(decode: Decoder, input: seq<Byte>, budget: nat) returns (text: string, left: nat)
    requires Headers(decode, input, budget).Ok? && !EndsHeaders(decode, FirstLine(input))
    ensures var rest := Headers(decode, input[|FirstLine(input)|..], left);
            rest.Ok? && Headers(decode, input, budget).value.lines == [text] + rest.value.lines
    ensures HeaderLines(decode, input) == [text] + HeaderLines(decode, input[|FirstLine(input)|..])
  {
    LinesStep(decode, input);
    text, left := HeadersGoOn(decode, input, budget);
  }

  lemma {:induction false} HeadersKeepLines(decode: Decoder, input: seq<Byte>, budget: nat)
    requires Headers(decode, input, budget).Ok?
    ensures Headers(decode, input, budget).value.lines == HeaderLines(decode, input)
    decreases |input|
  {
    if EndsHeaders(decode, FirstLine(input)) {
      LinesEnd(decode, input, budget);
    } else {
      var _, left := LinesGoOn(decode, input, budget);
      HeadersKeepLines(decode, input[|FirstLine(input)|..], left);
    }
  }

  function Wrapped(r: Result<Target, Error>): Result<Option<Target>, Error> {
    match r
    case Err(e) => Err(e)
    case Ok(target) => Ok(Some(target))
  }

  lemma FinishResolves(decode: Decoder, names: Names, line: seq<Byte>, rest: seq<Byte>, limit: nat,
                       verb: string, target: string)
    requires |line| <= limit && HeadersAreText(decode, rest) && HeadFits(decode, rest, limit - |line|)
    ensures Finish(decode, names, line, rest, limit, verb, target)
         == Wrapped(Resolve(names, verb, target, line + rest[..HeadersLength(decode, rest)],
                            NoteAll(names, HeaderLines(decode, rest))))
  {
    HeadersExactly(decode, rest, limit - |line|);
    HeadersKeepLines(decode, rest, limit - |line|);
  }

  /** The first two words of a text, of which there may be no more. */
  predicate AreWords(text: string, verb: string, target: string) {
    && ' ' !in verb && ' ' !in target
    && (text == verb + [' '] + target || verb + [' '] + (target + [' ']) <= text)
  }

  /** A line whose first word is the method and whose second is the target; a version may follow. */
  predicate IsRequestLine(decode: Decoder, line: seq<Byte>, verb: string, target: string) {
    line != [] && decode(line).Some? && AreWords(TrimEnd(decode(line).value), verb, target)
  }

  /** The head is text and fits: what reading does not refuse for its shape. */
  predicate IsReadable(decode: Decoder, input: seq<Byte>, limit: nat) {
    var line := FirstLine(input);
    |line| <= limit && HeadersAreText(decode, input[|line|..]) && HeadFits(decode, input[|line|..], limit - |line|)
  }

  lemma TargetFinishes(decode: Decoder, names: Names, input: seq<Byte>, limit: nat, line: seq<Byte>,
                       verb: string, target: string)
    requires line != [] && |line| <= |input| && |line| <= limit && decode(line).Some?
    requires CappedLine(decode, input, limit) == Ok((line, decode(line).value))
    requires RequestTarget(decode(line).value) == Some((verb, target))
    ensures TargetWithin(decode, names, input, limit)
         == Finish(decode, names, line, input[|line|..], limit, verb, target)
  {
  }

  /**
   * Every request with a line of two words or more and a head that is text and fits is read as its method, its
   * target, its header lines and its whole head say, and as nothing else.
   */
  lemma RequestIsRead(decode: Decoder, names: Names, input: seq<Byte>, limit: nat,
                      verb: string, target: string)
    requires IsRequestLine(decode, FirstLine(input), verb, target) && IsReadable(decode, input, limit)
    ensures TargetWithin(decode, names, input, limit)
         == Wrapped(Resolve(names, verb, target, input[..HeadLength(decode, input)],
                            NoteAll(names, HeaderLines(decode, input[|FirstLine(input)|..]))))
  {
    var line := FirstLine(input);
    var rest := input[|line|..];
    LineIsRead(decode, input, limit, verb, target);
    TargetFinishes(decode, names, input, limit, line, verb, target);
    HeadIsLineAndHeaders(decode, input);
    FinishResolves(decode, names, line, rest, limit, verb, target);
  }

  lemma HeadIsLineAndHeaders(decode: Decoder, input: seq<Byte>)
    ensures var line := FirstLine(input);
            var rest := input[|line|..];
            line + rest[..HeadersLength(decode, rest)] == input[..HeadLength(decode, input)]
  {
    var line := FirstLine(input);
    PrefixAndMore(input, |line|, HeadersLength(decode, input[|line|..]));
  }

  lemma LineIsRead(decode: Decoder, input: seq<Byte>, limit: nat, verb: string, target: string)
    requires IsRequestLine(decode, FirstLine(input), verb, target) && IsReadable(decode, input, limit)
    ensures CappedLine(decode, input, limit) == Ok((FirstLine(input), decode(FirstLine(input)).value))
    ensures RequestTarget(decode(FirstLine(input)).value) == Some((verb, target))
  {
    WordsAreSplit(decode(FirstLine(input)).value, verb, target);
    HeadFitsLine(decode, input, limit);
    CappedLineExactly(decode, input, limit);
  }

  /** A tunnel request names its host and port, and gets exactly those when they can be told apart. */
  lemma ConnectResolves(names: Names, verb: string, host: string, port: nat, head: seq<Byte>, fields: Fields)
    requires EqIgnoreCase(verb, names.connect) && port < 0x1_0000
    ensures Resolve(names, verb, host + ":" + PrintNumber(port), head, fields)
            == Ok(Target(true, host, port, head, fields.proxyAuth))
       <==> host != "" && host[0] != '['
  {
    HostPortIsRecovered(host, port, 443);
  }

  lemma {:induction false} BeforePathStops(authority: string, path: string)
    requires '/' !in authority && '?' !in authority && (path != "" ==> path[0] == '/' || path[0] == '?')
    ensures BeforePath(authority + path) == authority
  {
    if authority == "" {
      assert authority + path == path;
    } else {
      assert (authority + path)[1..] == authority[1..] + path;
      BeforePathStops(authority[1..], path);
    }
  }

  /** A scheme that starts an absolute target, and is not mistaken for the other one. */
  predicate IsScheme(names: Names, scheme: string, target: string) {
    scheme <= target && (scheme == names.http || (scheme == names.https && !(names.http <= target)))
  }

  /** An absolute target's own authority decides, whatever Host says; its path and query do not. */
  lemma AbsoluteResolves(names: Names, verb: string, scheme: string, host: string, port: nat, path: string,
                         head: seq<Byte>, fields: Fields)
    requires !EqIgnoreCase(verb, names.connect) && port < 0x1_0000
    requires '/' !in host && '?' !in host && (path != "" ==> path[0] == '/' || path[0] == '?')
    requires IsScheme(names, scheme, scheme + (host + ":" + PrintNumber(port) + path))
    ensures Resolve(names, verb, scheme + (host + ":" + PrintNumber(port) + path), head, fields)
            == Ok(Target(false, host, port, head, fields.proxyAuth))
       <==> host != "" && host[0] != '['
  {
    var authority := host + ":" + PrintNumber(port);
    assert '/' !in authority && '?' !in authority by {
      assert !IsDigit('/') && !IsDigit('?');
    }
    DropFront(scheme, authority + path);
    BeforePathStops(authority, path);
    HostPortIsRecovered(host, port, 80);
  }

  /** Any other target goes where the last Host line says, and nowhere without one. */
  lemma OriginResolves(names: Names, verb: string, target: string, host: string, port: nat,
                       head: seq<Byte>, fields: Fields)
    requires !EqIgnoreCase(verb, names.connect) && port < 0x1_0000
    requires !(names.http <= target) && !(names.https <= target)
    ensures fields.host == None ==> Resolve(names, verb, target, head, fields) == Err(NoHost)
    ensures fields.host == Some(host + ":" + PrintNumber(port)) ==>
              (Resolve(names, verb, target, head, fields) == Ok(Target(false, host, port, head, fields.proxyAuth))
               <==> host != "" && host[0] != '[')
  {
    HostPortIsRecovered(host, port, 80);
  }

  /** A host without a port, bare or in brackets, gets the default one. */
  lemma BareHostGetsDefault(host: string, defaultPort: nat)
    ensures ':' !in host && (host != "" ==> host[0] != '[') ==>
              SplitHostPort(host, defaultPort) == Ok((host, defaultPort))
    ensures ']' !in host ==> SplitHostPort("[" + (host + "]"), defaultPort) == Ok((host, defaultPort))
  {
    SplitLastAbsent(host, ':');
    if ']' !in host {
      SplitOnceAt(host, ']', "");
      DropFront("[", host + "]");
      assert host + [']'] + "" == host + "]";
    }
  }

  lemma {:induction false} SplitLastAbsent(s: string, c: char)
    ensures c !in s ==> SplitLast(s, c).None?
  {
    if s != "" {
      SplitLastAbsent(s[..|s| - 1], c);
    }
  }

  lemma {:induction false} SplitOnceExactly(s: string, c: char)
    ensures match SplitOnce(s, c)
            case None => c !in s
            case Some((before, after)) => c !in before && s == before + [c] + after
  {
    if s != "" && s[0] != c {
      SplitOnceExactly(s[1..], c);
      FrontAndRest(s);
    }
  }

  lemma TwoWords(text: string, verb: string, target: string)
    requires ' ' !in verb && ' ' !in target && text == verb + [' '] + target
    ensures SplitOnce(text, ' ') == Some((verb, target)) && SplitOnce(target, ' ') == None
  {
    SplitOnceAt(verb, ' ', target);
    SplitOnceExactly(target, ' ');
  }

  lemma MoreWords(text: string, verb: string, target: string) returns (more: string)
    requires ' ' !in verb && ' ' !in target && verb + [' '] + (target + [' ']) <= text
    ensures SplitOnce(text, ' ') == Some((verb, target + [' '] + more))
    ensures SplitOnce(target + [' '] + more, ' ') == Some((target, more))
  {
    more := text[|verb + [' '] + (target + [' '])|..];
    assert text == verb + [' '] + (target + [' '] + more);
    SplitOnceAt(verb, ' ', target + [' '] + more);
    SplitOnceAt(target, ' ', more);
  }

  lemma WordsAreSplit(line: string, verb: string, target: string)
    requires AreWords(TrimEnd(line), verb, target)
    ensures RequestTarget(line) == Some((verb, target))
  {
    if TrimEnd(line) == verb + [' '] + target {
      TwoWords(TrimEnd(line), verb, target);
    } else {
      var more := MoreWords(TrimEnd(line), verb, target);
    }
  }

  lemma SplitAreWords(line: string)
    ensures match RequestTarget(line)
            case None => ' ' !in TrimEnd(line)
            case Some((verb, target)) => AreWords(TrimEnd(line), verb, target)
  {
    var text := TrimEnd(line);
    SplitOnceExactly(text, ' ');
    if SplitOnce(text, ' ').Some? {
      var (verb, rest) := SplitOnce(text, ' ').value;
      SplitOnceExactly(rest, ' ');
      if SplitOnce(rest, ' ').Some? {
        var (target, more) := SplitOnce(rest, ' ').value;
        Regroup(verb + [' '], target + [' '], more);
      }
    }
  }

  /** A line is split into exactly its first two words, whether or not a version follows; one word is refused. */
  lemma RequestTargetExactly(line: string, verb: string, target: string)
    ensures RequestTarget(line) == Some((verb, target)) <==> AreWords(TrimEnd(line), verb, target)
    ensures RequestTarget(line) == None <==> ' ' !in TrimEnd(line)
  {
    SplitAreWords(line);
    if AreWords(TrimEnd(line), verb, target) {
      WordsAreSplit(line, verb, target);
    }
    if ' ' !in TrimEnd(line) {
      SplitOnceExactly(TrimEnd(line), ' ');
    }
  }

  /** The usual line, of method, target and version, with whatever whitespace ends it. */
  lemma ThreeWords(verb: string, target: string, version: string)
    requires ' ' !in verb && ' ' !in target && TrimEnd(version) != ""
    ensures AreWords(TrimEnd(verb + " " + target + " " + version), verb, target)
  {
    var front := verb + " " + target + " ";
    TrimEndKeeps(front, version);
    assert front == verb + [' '] + (target + [' ']);
  }

  /** When the rest of the head fits behind the first line, so does that line. */
  lemma HeadFitsLine(decode: Decoder, input: seq<Byte>, budget: nat)
    requires |FirstLine(input)| <= budget && HeadFits(decode, input[|FirstLine(input)|..], budget - |FirstLine(input)|)
    ensures LineFits(FirstLine(input), budget)
  {
    NoNewlineIsEnd(input);
    var line := FirstLine(input);
    assert !EndsWithNewline(line) ==> input[|line|..] == [];
    assert FirstLine([]) == [] && !EndsWithBlankLine(decode, []);
  }
}
