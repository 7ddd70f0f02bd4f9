/** Rewriting a request head (`rewrite_head` of src/mitm/proxy.rs), judged by a
    reader of request heads after sections 3 and 5 of RFC 9112. */
module HeadRewrite {
  import opened Wrappers
  import opened Sequences
  import opened HttpHead
  import Utf8
  import Text
  import opened TextLaws

  const SP: byte := 32
  const HTAB: byte := 9
  const COLON: byte := 58
  const SEPARATOR: seq<byte> := [COLON, SP]
  const VERSION: seq<byte> := [72, 84, 84, 80, 47, 49, 46, 49]                    // HTTP/1.1
  const HOST: seq<byte> := [104, 111, 115, 116]                                   // host
  const CONNECTION: seq<byte> := [99, 111, 110, 110, 101, 99, 116, 105, 111, 110] // connection
  const KEEP_ALIVE: seq<byte> := [107, 101, 101, 112, 45, 97, 108, 105, 118, 101] // keep-alive
  const CLOSE_NAME: seq<byte> := [67, 111, 110, 110, 101, 99, 116, 105, 111, 110] // Connection
  const CLOSE_VALUE: seq<byte> := [99, 108, 111, 115, 101]                        // close

  datatype Field = Field(name: seq<byte>, value: seq<byte>)

  const CLOSE: Field := Field(CLOSE_NAME, CLOSE_VALUE)

  /** What the HTTP parsing library makes of a head: an error, or what it found;
      an incomplete head leaves parts missing and empty header slots. */
  datatype Parse = Unparseable | Parsed(verb: Option<seq<byte>>, path: Option<seq<byte>>, headers: seq<Field>)

  // ---- Rewriting ----

  function LowerByte(b: byte): byte { Text.LowerCode(b) }

  /** A header name in lower case. */
  function LowerName(s: seq<byte>): seq<byte>
  {
    seq(|s|, i requires 0 <= i < |s| => LowerByte(s[i]))
  }

  predicate Sets(overrides: seq<Field>, lowerName: seq<byte>)
  {
    exists i :: 0 <= i < |overrides| && LowerName(overrides[i].name) == lowerName
  }

  predicate Keeps(overrides: seq<Field>, f: Field)
  {
    f.name != [] && !Sets(overrides, LowerName(f.name)) && LowerName(f.name) != CONNECTION && LowerName(f.name) != KEEP_ALIVE
  }

  function Kept(overrides: seq<Field>, headers: seq<Field>): seq<Field>
  {
    if headers == [] then []
    else
      var front, last := Kept(overrides, headers[..|headers| - 1]), headers[|headers| - 1];
      if Keeps(overrides, last) then front + [last] else front
  }

  function Closing(overrides: seq<Field>): seq<Field>
  {
    if Sets(overrides, CONNECTION) then [] else [CLOSE]
  }

  function FieldLine(f: Field): seq<byte> { f.name + SEPARATOR + f.value + CRLF }

  function FieldLines(fs: seq<Field>): seq<byte>
  {
    if fs == [] then [] else FieldLines(fs[..|fs| - 1]) + FieldLine(fs[|fs| - 1])
  }

  function RequestLine(verb: seq<byte>, path: seq<byte>): seq<byte>
  {
    verb + [SP] + path + [SP] + VERSION + CRLF
  }

  /** The fields of the rewritten head. */
  function Outgoing(overrides: seq<Field>, headers: seq<Field>): seq<Field>
  {
    Kept(overrides, headers) + overrides + Closing(overrides)
  }

  function Rebuilt(verb: seq<byte>, path: seq<byte>, overrides: seq<Field>, headers: seq<Field>): seq<byte>
  {
    RequestLine(verb, path) + FieldLines(Outgoing(overrides, headers)) + CRLF
  }

  function FirstHost(headers: seq<Field>): Option<seq<byte>>
  {
    if headers == [] then None
    else if LowerName(headers[0].name) == HOST then Some(headers[0].value)
    else FirstHost(headers[1..])
  }

  /** Up to the last colon, if any. */
  function StripPort(s: string): string
  {
    StripFrom(s, |s|)
  }

  function StripFrom(s: string, n: nat): string
    requires n <= |s|
  {
    if n == 0 then s else if s[n - 1] == ':' then s[..n - 1] else StripFrom(s, n - 1)
  }

  /** The host a request is matched by: the first Host header as text, trimmed,
      without port, lowercased; empty when missing or not UTF-8. */
  function HostOf(headers: seq<Field>): string
  {
    var value := FirstHost(headers);
    var text := if value.Some? then Utf8.Decode(value.value) else None;
    Text.Lower(StripPort(if text.Some? then Text.Trim(text.value) else ""))
  }

  type Rules = string -> Option<seq<Field>>

  function Rewrite(head: seq<byte>, parse: Parse, rules: Rules): Result<seq<byte>>
  {
    match parse
    case Unparseable => Ok(head)
    case Parsed(verb, path, headers) =>
      match rules(HostOf(headers))
      case None => Ok(head)
      case Some(overrides) =>
        if verb.None? || path.None? then Err
        else Ok(Rebuilt(verb.value, path.value, overrides, headers))
  }

  lemma Assoc(a: seq<byte>, b: seq<byte>, c: seq<byte>)
    ensures (a + b) + c == a + (b + c)
  {}

  lemma FieldLinesSnoc(fs: seq<Field>, f: Field)
    ensures FieldLines(fs + [f]) == FieldLines(fs) + FieldLine(f)
  {
    assert (fs + [f])[..|fs|] == fs;
  }

  lemma {:induction false} FieldLinesConcat(fs: seq<Field>, gs: seq<Field>)
    ensures FieldLines(fs + gs) == FieldLines(fs) + FieldLines(gs)
  {
    if gs == [] {
      assert fs + gs == fs;
    } else {
      var front, last := gs[..|gs| - 1], gs[|gs| - 1];
      FieldLinesConcat(fs, front);
      assert fs + gs == (fs + front) + [last];
      FieldLinesSnoc(fs + front, last);
      Assoc(FieldLines(fs), FieldLines(front), FieldLine(last));
    }
  }

  /** `rewrite_head`: the two loops that append header lines. */
  method RewriteHead(head: seq<byte>, parse: Parse, rules: Rules) returns (r: Result<seq<byte>>)
    ensures r == Rewrite(head, parse, rules)
  {
    if parse.Unparseable? {
      return Ok(head);
    }
    var rule := rules(HostOf(parse.headers));
    if rule.None? {
      return Ok(head);
    }
    if parse.verb.None? || parse.path.None? {
      return Err;
    }
    var kept := KeepLoop(rule.value, parse.headers);
    var added := AddLoop(rule.value);
    var out := RequestLine(parse.verb.value, parse.path.value) + (kept + added);
    var last: seq<byte> := [];
    if !Sets(rule.value, CONNECTION) {
      last := FieldLine(CLOSE);
    }
    Assoc(RequestLine(parse.verb.value, parse.path.value), kept + added, last);
    out := out + last + CRLF;
    OutgoingLines(rule.value, parse.headers);
    return Ok(out);
  }

  lemma OutgoingLines(overrides: seq<Field>, headers: seq<Field>)
    ensures FieldLines(Outgoing(overrides, headers)) ==
            (FieldLines(Kept(overrides, headers)) + FieldLines(overrides))
            + if Sets(overrides, CONNECTION) then [] else FieldLine(CLOSE)
  {
    FieldLinesConcat(Kept(overrides, headers), overrides);
    var fs := Kept(overrides, headers) + overrides;
    FieldLinesConcat(fs, Closing(overrides));
    FieldLinesSnoc([], CLOSE);
    assert [] + [CLOSE] == [CLOSE];
  }

  /** Preserve every header except those overridden or forced. */
  method KeepLoop(overrides: seq<Field>, headers: seq<Field>) returns (out: seq<byte>)
    ensures out == FieldLines(Kept(overrides, headers))
  {
    out := [];
    for i := 0 to |headers|
      invariant out == FieldLines(Kept(overrides, headers[..i]))
    {
      var h := headers[i];
      assert headers[..i + 1][..i] == headers[..i];
      if h.name == [] || Sets(overrides, LowerName(h.name)) || LowerName(h.name) == CONNECTION || LowerName(h.name) == KEEP_ALIVE {
        continue;
      }
      FieldLinesSnoc(Kept(overrides, headers[..i]), h);
      out := out + FieldLine(h);
    }
    assert headers[..|headers|] == headers;
  }

  /** Add the configured headers. */
  method AddLoop(overrides: seq<Field>) returns (out: seq<byte>)
    ensures out == FieldLines(overrides)
  {
    out := [];
    for i := 0 to |overrides|
      invariant out == FieldLines(overrides[..i])
    {
      assert overrides[..i + 1][..i] == overrides[..i];
      out := out + FieldLine(overrides[i]);
    }
    assert overrides[..|overrides|] == overrides;
  }

  // ---- Reading a head ----

  datatype Request = Request(verb: seq<byte>, path: seq<byte>, headers: seq<Field>)

  lemma IndexAfter(a: seq<byte>, x: byte, b: seq<byte>)
    requires x !in a
    ensures IndexOf(a + [x] + b, x) == |a|
  {
    var s := a + [x] + b;
    assert s[..|a|] == a;
    IndexOfIs(s, x, |a|);
  }

  predicate IsOws(b: byte) { b == SP || b == HTAB }

  function TrimOws(s: seq<byte>): seq<byte>
  {
    if s != [] && IsOws(s[0]) then TrimOws(s[1..])
    else if s != [] && IsOws(s[|s| - 1]) then TrimOws(s[..|s| - 1])
    else s
  }

  predicate IsFieldName(s: seq<byte>)
  {
    s != [] && forall i :: 0 <= i < |s| ==> s[i] != CR && s[i] != LF && s[i] != COLON && !IsOws(s[i])
  }

  predicate OneLine(s: seq<byte>) { CR !in s && LF !in s }

  /** One field line without its line break: a name, a colon, a value with
      whitespace around it. */
  function ReadField(line: seq<byte>): Option<Field>
  {
    var c := IndexOf(line, COLON);
    if c == |line| || !IsFieldName(line[..c]) then None
    else Some(Field(line[..c], TrimOws(line[c + 1..])))
  }

  /** Field lines up to the blank line that must end the head. A line ends at
      its first CR, which LF must follow. */
  function ReadFields(b: seq<byte>): Option<seq<Field>>
    decreases |b|
  {
    if b == CRLF then Some([])
    else
      var k := IndexOf(b, CR);
      if k + 1 >= |b| || b[k + 1] != LF then None
      else
        match ReadField(b[..k])
        case None => None
        case Some(f) =>
          match ReadFields(b[k + 2..])
          case None => None
          case Some(fs) => Some([f] + fs)
  }

  /** The bytes are those of an ASCII text. */
  predicate IsText(b: seq<byte>, text: string)
  {
    |b| == |text| && forall i :: 0 <= i < |b| ==> b[i] == text[i] as int
  }

  /** Method, path and version with single spaces between. */
  function ReadRequestLine(line: seq<byte>): Option<(seq<byte>, seq<byte>)>
  {
    var v := IndexOf(line, SP);
    if v == |line| then None
    else
      var rest := line[v + 1..];
      var p := IndexOf(rest, SP);
      if p == |rest| || !IsText(rest[p + 1..], "HTTP/1.1") then None
      else Some((line[..v], rest[..p]))
  }

  function ReadRequest(b: seq<byte>): Option<Request>
  {
    var k := IndexOf(b, CR);
    if k + 1 >= |b| || b[k + 1] != LF then None
    else
      match ReadRequestLine(b[..k])
      case None => None
      case Some((verb, path)) =>
        match ReadFields(b[k + 2..])
        case None => None
        case Some(fs) => Some(Request(verb, path, fs))
  }

  // ---- The rewritten head, read back ----

  /** A field that stays one line and whose name is one. */
  predicate CleanField(f: Field) { IsFieldName(f.name) && OneLine(f.value) }

  ghost predicate Clean(fs: seq<Field>)
  {
    forall i :: 0 <= i < |fs| ==> CleanField(fs[i])
  }

  function Trimmed(fs: seq<Field>): seq<Field>
  {
    seq(|fs|, i requires 0 <= i < |fs| => Field(fs[i].name, TrimOws(fs[i].value)))
  }

  lemma ReadFieldLine(f: Field)
    requires CleanField(f)
    ensures ReadField(f.name + SEPARATOR + f.value) == Some(Field(f.name, TrimOws(f.value)))
  {
    var line := f.name + SEPARATOR + f.value;
    assert line == f.name + [COLON] + ([SP] + f.value);
    IndexAfter(f.name, COLON, [SP] + f.value);
    assert line[..|f.name|] == f.name;
    var after := line[|f.name| + 1..];
    assert after == [SP] + f.value && after[1..] == f.value;
  }

  /** Where a line ends. */
  lemma CutLine(line: seq<byte>, rest: seq<byte>, b: seq<byte>)
    requires CR !in line && b == line + CRLF + rest
    ensures IndexOf(b, CR) == |line| && |line| + 1 < |b| && b[|line| + 1] == LF
    ensures b[..|line|] == line && b[|line| + 2..] == rest
  {
    assert b == line + [CR] + ([LF] + rest);
    IndexAfter(line, CR, [LF] + rest);
  }

  lemma ReadFirst(f: Field, rest: seq<byte>, b: seq<byte>)
    requires CleanField(f) && b == FieldLine(f) + rest && ReadFields(rest).Some?
    ensures ReadFields(b) == Some([Field(f.name, TrimOws(f.value))] + ReadFields(rest).value)
  {
    var line := f.name + SEPARATOR + f.value;
    assert CR !in line;
    CutLine(line, rest, b);
    assert b[0] == f.name[0];
    ReadFieldLine(f);
  }

  lemma FirstLine(fs: seq<Field>)
    requires fs != []
    ensures FieldLines(fs) + CRLF == FieldLine(fs[0]) + (FieldLines(fs[1..]) + CRLF)
  {
    var f, more := fs[0], fs[1..];
    FieldLinesConcat([f], more);
    assert [f] + more == fs;
    assert [f][..0] == [];
    assert FieldLines([f]) == [] + FieldLine(f) == FieldLine(f);
    Assoc(FieldLine(f), FieldLines(more), CRLF);
  }

  lemma TrimmedFirst(fs: seq<Field>)
    requires fs != []
    ensures [Field(fs[0].name, TrimOws(fs[0].value))] + Trimmed(fs[1..]) == Trimmed(fs)
  {}

  lemma TrimmedConcat(fs: seq<Field>, gs: seq<Field>)
    ensures Trimmed(fs + gs) == Trimmed(fs) + Trimmed(gs)
  {}

  lemma {:induction false} ReadFieldLines(fs: seq<Field>)
    requires Clean(fs)
    ensures ReadFields(FieldLines(fs) + CRLF) == Some(Trimmed(fs))
  {
    if fs == [] {
      assert FieldLines(fs) + CRLF == CRLF && Trimmed(fs) == [];
    } else {
      var f, more := fs[0], fs[1..];
      ReadFieldLines(more);
      FirstLine(fs);
      ReadFirst(f, FieldLines(more) + CRLF, FieldLines(fs) + CRLF);
      TrimmedFirst(fs);
    }
  }

  lemma ReadFirstLine(verb: seq<byte>, path: seq<byte>, version: seq<byte>)
    requires SP !in verb && SP !in path && IsText(version, "HTTP/1.1")
    ensures ReadRequestLine(verb + [SP] + path + [SP] + version) == Some((verb, path))
  {
    var line := verb + [SP] + path + [SP] + version;
    var after := path + [SP] + version;
    assert line == verb + [SP] + after;
    IndexAfter(verb, SP, after);
    assert line[..|verb|] == verb && line[|verb| + 1..] == after;
    IndexAfter(path, SP, version);
    assert after[..|path|] == path && after[|path| + 1..] == version;
  }

  lemma ReadRebuilt(verb: seq<byte>, path: seq<byte>, fs: seq<Field>)
    requires OneLine(verb) && SP !in verb && OneLine(path) && SP !in path && Clean(fs)
    ensures ReadRequest(RequestLine(verb, path) + FieldLines(fs) + CRLF) == Some(Request(verb, path, Trimmed(fs)))
  {
    var line, lines := verb + [SP] + path + [SP] + VERSION, FieldLines(fs);
    assert CR !in line;
    Assoc(line + CRLF, lines, CRLF);
    CutLine(line, lines + CRLF, RequestLine(verb, path) + lines + CRLF);
    WireTexts();
    ReadFirstLine(verb, path, VERSION);
    ReadFieldLines(fs);
  }

  /** What the library hands over for a head it can read: names and values as
      written, values trimmed. */
  ghost predicate WellParsed(parse: Parse)
  {
    && parse.Parsed? && parse.verb.Some? && parse.path.Some?
    && OneLine(parse.verb.value) && SP !in parse.verb.value
    && OneLine(parse.path.value) && SP !in parse.path.value
    && Clean(parse.headers) && Trimmed(parse.headers) == parse.headers
  }

  lemma {:induction false} KeptAre(overrides: seq<Field>, headers: seq<Field>)
    requires Clean(headers) && Trimmed(headers) == headers
    ensures Clean(Kept(overrides, headers)) && Trimmed(Kept(overrides, headers)) == Kept(overrides, headers)
    ensures forall i :: 0 <= i < |Kept(overrides, headers)| ==> Keeps(overrides, Kept(overrides, headers)[i])
  {
    if headers != [] {
      var front, last := headers[..|headers| - 1], headers[|headers| - 1];
      assert Trimmed(headers)[|headers| - 1] == last;
      assert forall i :: 0 <= i < |front| ==> Trimmed(front)[i] == Trimmed(headers)[i];
      KeptAre(overrides, front);
    }
  }

  /** The rewritten head, read as a request, has the client's method and path,
      its headers other than the overridden and the connection ones in their
      order, then the rule's, then `Connection: close` unless the rule sets
      Connection. */
  lemma RewrittenReadsBack(head: seq<byte>, parse: Parse, rules: Rules, overrides: seq<Field>)
    requires WellParsed(parse) && rules(HostOf(parse.headers)) == Some(overrides) && Clean(overrides)
    ensures Rewrite(head, parse, rules).Ok?
    ensures ReadRequest(Rewrite(head, parse, rules).value) ==
            Some(Request(parse.verb.value, parse.path.value,
                         Kept(overrides, parse.headers) + Trimmed(overrides) + Closing(overrides)))
  {
    OutgoingReadsBack(parse.verb.value, parse.path.value, overrides, parse.headers);
  }

  lemma OutgoingReadsBack(verb: seq<byte>, path: seq<byte>, overrides: seq<Field>, headers: seq<Field>)
    requires OneLine(verb) && SP !in verb && OneLine(path) && SP !in path
    requires Clean(overrides) && Clean(headers) && Trimmed(headers) == headers
    ensures ReadRequest(Rebuilt(verb, path, overrides, headers)) ==
            Some(Request(verb, path, Kept(overrides, headers) + Trimmed(overrides) + Closing(overrides)))
  {
    var kept, closing := Kept(overrides, headers), Closing(overrides);
    KeptAre(overrides, headers);
    CloseIsClean();
    assert Trimmed(closing) == closing;
    TrimmedConcat(kept, overrides);
    TrimmedConcat(kept + overrides, closing);
    CleanConcat(kept, overrides);
    CleanConcat(kept + overrides, closing);
    ReadRebuilt(verb, path, Outgoing(overrides, headers));
  }

  lemma CleanConcat(fs: seq<Field>, gs: seq<Field>)
    requires Clean(fs) && Clean(gs)
    ensures Clean(fs + gs)
  {}

  lemma CloseIsClean()
    ensures CleanField(CLOSE) && TrimOws(CLOSE.value) == CLOSE.value
    ensures LowerName(CLOSE.name) == CONNECTION
  {
    assert LowerName(CLOSE_NAME) == CONNECTION;
  }

  // ---- Which headers those are ----

  /** Header names are compared up to ASCII case. */
  predicate SameName(a: seq<byte>, b: seq<byte>)
  {
    |a| == |b| && forall i :: 0 <= i < |a| ==> SameCode(a[i], b[i])
  }

  predicate Named(name: seq<byte>, text: string)
  {
    |name| == |text| && forall i :: 0 <= i < |name| ==> SameCode(name[i], text[i] as int)
  }

  /** The rule does not set the header, and it does not steer the connection. */
  ghost predicate PassesOn(overrides: seq<Field>, f: Field)
  {
    && (forall i :: 0 <= i < |overrides| ==> !SameName(overrides[i].name, f.name))
    && !Named(f.name, "connection") && !Named(f.name, "keep-alive")
  }

  lemma LowerSameName(a: seq<byte>, b: seq<byte>)
    ensures LowerName(a) == LowerName(b) <==> SameName(a, b)
  {
    if LowerName(a) == LowerName(b) {
      assert |a| == |LowerName(a)| == |LowerName(b)| == |b|;
      assert forall i :: 0 <= i < |a| ==> LowerName(a)[i] == LowerByte(a[i]) && LowerName(b)[i] == LowerByte(b[i]);
    }
  }

  lemma LowerNamed(name: seq<byte>, lower: seq<byte>, text: string)
    requires IsText(lower, text) && forall i :: 0 <= i < |lower| ==> !(65 <= lower[i] <= 90)
    ensures LowerName(name) == lower <==> Named(name, text)
  {
    assert LowerName(lower) == lower;
    LowerSameName(name, lower);
  }

  lemma WireTexts()
    ensures IsText([CR, LF, HTAB, SP, COLON], "\r\n\t :") && IsText(VERSION, "HTTP/1.1")
    ensures IsText(HOST, "host") && IsText(CONNECTION, "connection") && IsText(KEEP_ALIVE, "keep-alive")
    ensures IsText(CLOSE.name, "Connection") && IsText(CLOSE.value, "close")
  {}

  lemma SetsIff(overrides: seq<Field>, name: seq<byte>)
    ensures Sets(overrides, LowerName(name)) <==> exists i :: 0 <= i < |overrides| && SameName(overrides[i].name, name)
  {
    forall i | 0 <= i < |overrides|
      ensures LowerName(overrides[i].name) == LowerName(name) <==> SameName(overrides[i].name, name)
    {
      LowerSameName(overrides[i].name, name);
    }
  }

  lemma KeepsIff(overrides: seq<Field>, f: Field)
    ensures Keeps(overrides, f) <==> f.name != [] && PassesOn(overrides, f)
  {
    WireTexts();
    SetsIff(overrides, f.name);
    LowerNamed(f.name, CONNECTION, "connection");
    LowerNamed(f.name, KEEP_ALIVE, "keep-alive");
  }

  /** `fs` are the headers at the strictly increasing positions `ps`. */
  ghost predicate Picks(headers: seq<Field>, ps: seq<nat>, fs: seq<Field>)
  {
    && |ps| == |fs|
    && (forall a, b :: 0 <= a < b < |ps| ==> ps[a] < ps[b])
    && (forall a :: 0 <= a < |ps| ==> ps[a] < |headers| && fs[a] == headers[ps[a]])
  }

  /** Kept are the named headers that pass on; the empty slots an incomplete parse
      leaves are not. */
  lemma {:induction false} KeptPositions(overrides: seq<Field>, headers: seq<Field>) returns (ps: seq<nat>)
    ensures Picks(headers, ps, Kept(overrides, headers))
    ensures forall i :: 0 <= i < |headers| ==> (i in ps <==> headers[i].name != [] && PassesOn(overrides, headers[i]))
  {
    ps := [];
    if headers != [] {
      var n := |headers| - 1;
      ps := KeptPositions(overrides, headers[..n]);
      KeepsIff(overrides, headers[n]);
      assert n !in ps;
      if Keeps(overrides, headers[n]) {
        ps := ps + [n];
      }
    }
  }

  /** The rewritten head, read as a request: the client's headers that the rule
      does not set and that do not steer the connection, each as it was and in
      its order; then the rule's; then `Connection: close` unless the rule sets
      Connection. */
  lemma RewrittenHeaders(head: seq<byte>, parse: Parse, rules: Rules, overrides: seq<Field>)
    returns (ps: seq<nat>, kept: seq<Field>, closing: seq<Field>)
    requires WellParsed(parse) && rules(HostOf(parse.headers)) == Some(overrides) && Clean(overrides)
    ensures Rewrite(head, parse, rules).Ok?
    ensures ReadRequest(Rewrite(head, parse, rules).value) ==
            Some(Request(parse.verb.value, parse.path.value, kept + Trimmed(overrides) + closing))
    ensures Picks(parse.headers, ps, kept)
    ensures forall i :: 0 <= i < |parse.headers| ==> (i in ps <==> PassesOn(overrides, parse.headers[i]))
    ensures if exists i :: 0 <= i < |overrides| && Named(overrides[i].name, "connection") then closing == []
            else |closing| == 1 && IsText(closing[0].name, "Connection") && IsText(closing[0].value, "close")
  {
    RewrittenReadsBack(head, parse, rules, overrides);
    ps := KeptPositions(overrides, parse.headers);
    kept, closing := Kept(overrides, parse.headers), Closing(overrides);
    ClosingIs(overrides);
  }

  lemma ClosingIs(overrides: seq<Field>)
    ensures
      var closing := Closing(overrides);
      if exists i :: 0 <= i < |overrides| && Named(overrides[i].name, "connection") then closing == []
      else |closing| == 1 && IsText(closing[0].name, "Connection") && IsText(closing[0].value, "close")
  {
    WireTexts();
    forall i | 0 <= i < |overrides|
      ensures LowerName(overrides[i].name) == CONNECTION <==> Named(overrides[i].name, "connection")
    {
      LowerNamed(overrides[i].name, CONNECTION, "connection");
    }
  }

  /** Which heads are changed and which are refused. */
  lemma RewriteOutcome(head: seq<byte>, parse: Parse, rules: Rules)
    ensures
      var matched := parse.Parsed? && rules(HostOf(parse.headers)).Some?;
      && (!matched ==> Rewrite(head, parse, rules) == Ok(head))
      && (Rewrite(head, parse, rules).Err? <==> matched && (parse.verb.None? || parse.path.None?))
  {}

  // ---- Which host a request is for ----

  /** The header at `i` is the first Host header. */
  ghost predicate IsFirstHost(headers: seq<Field>, i: int)
  {
    && 0 <= i < |headers| && Named(headers[i].name, "host")
    && forall j :: 0 <= j < i ==> !Named(headers[j].name, "host")
  }

  lemma {:induction false} FirstHostIs(headers: seq<Field>, i: int)
    requires IsFirstHost(headers, i)
    ensures FirstHost(headers) == Some(headers[i].value)
  {
    WireTexts();
    LowerNamed(headers[0].name, HOST, "host");
    if i > 0 {
      FirstHostIs(headers[1..], i - 1);
    }
  }

  lemma {:induction false} NoHost(headers: seq<Field>)
    requires forall i :: 0 <= i < |headers| ==> !Named(headers[i].name, "host")
    ensures FirstHost(headers) == None
  {
    if headers != [] {
      WireTexts();
      LowerNamed(headers[0].name, HOST, "host");
      NoHost(headers[1..]);
    }
  }

  lemma {:induction false} StripFromCuts(s: string, n: nat, k: nat)
    requires k < n <= |s| && s[k] == ':' && forall i :: k < i < n ==> s[i] != ':'
    ensures StripFrom(s, n) == s[..k]
  {
    if n > k + 1 {
      StripFromCuts(s, n - 1, k);
    }
  }

  lemma {:induction false} StripFromKeeps(s: string, n: nat)
    requires n <= |s| && forall i :: 0 <= i < n ==> s[i] != ':'
    ensures StripFrom(s, n) == s
  {
    if n > 0 {
      StripFromKeeps(s, n - 1);
    }
  }

  lemma StripPortCuts(host: string, port: string)
    requires if port == "" then ':' !in host else port[0] == ':' && ':' !in port[1..]
    ensures StripPort(host + port) == host
  {
    var s := host + port;
    if port == "" {
      assert s == host;
      StripFromKeeps(s, |s|);
    } else {
      assert s[..|host|] == host;
      assert forall i :: |host| < i < |s| ==> s[i] == port[1..][i - |host| - 1];
      StripFromCuts(s, |s|, |host|);
    }
  }

  /** A request is for the host its first Host header names: white space around
      it, a port after its last colon and upper case do not count. */
  lemma HostIs(headers: seq<Field>, i: int, before: string, host: string, port: string, after: string)
    requires IsFirstHost(headers, i)
    requires headers[i].value == Utf8.Encode(before + (host + port) + after)
    requires White(before, 0, |before|) && White(after, 0, |after|)
    requires host + port != "" ==>
               !Text.IsWhitespace((host + port)[0]) && !Text.IsWhitespace((host + port)[|host + port| - 1])
    requires if port == "" then ':' !in host else port[0] == ':' && ':' !in port[1..]
    ensures SameWord(HostOf(headers), host) && forall k :: 0 <= k < |host| ==> !('A' <= HostOf(headers)[k] <= 'Z')
  {
    var x := host + port;
    var text := before + x + after;
    FirstHostIs(headers, i);
    Utf8.DecodeEncode(text);
    assert text[|before|..|before + x|] == x;
    assert forall k :: |before + x| <= k < |text| ==> text[k] == after[k - |before + x|];
    TrimOuter(text, |before|, |before + x|);
    TrimOfTrimmed(x);
    StripPortCuts(host, port);
    LowerIsSameWord(host);
  }

  /** Without a Host header, or with one that is not text, it is for no host. */
  lemma NoHostNamed(headers: seq<Field>)
    requires || (forall i :: 0 <= i < |headers| ==> !Named(headers[i].name, "host"))
             || (exists i :: IsFirstHost(headers, i) && Utf8.Decode(headers[i].value).None?)
    ensures HostOf(headers) == ""
  {
    if i :| IsFirstHost(headers, i) && Utf8.Decode(headers[i].value).None? {
      FirstHostIs(headers, i);
    } else {
      NoHost(headers);
    }
    StripFromKeeps("", 0);
  }

  // ---- Rewriting twice ----

  lemma {:induction false} KeptConcat(overrides: seq<Field>, fs: seq<Field>, gs: seq<Field>)
    ensures Kept(overrides, fs + gs) == Kept(overrides, fs) + Kept(overrides, gs)
  {
    if gs == [] {
      assert fs + gs == fs;
    } else {
      assert (fs + gs)[..|fs + gs| - 1] == fs + gs[..|gs| - 1];
      KeptConcat(overrides, fs, gs[..|gs| - 1]);
    }
  }

  lemma {:induction false} KeptAll(overrides: seq<Field>, fs: seq<Field>)
    requires forall i :: 0 <= i < |fs| ==> Keeps(overrides, fs[i])
    ensures Kept(overrides, fs) == fs
  {
    if fs != [] {
      KeptAll(overrides, fs[..|fs| - 1]);
    }
  }

  lemma {:induction false} KeptNone(overrides: seq<Field>, fs: seq<Field>)
    requires forall i :: 0 <= i < |fs| ==> !Keeps(overrides, fs[i])
    ensures Kept(overrides, fs) == []
  {
    if fs != [] {
      KeptNone(overrides, fs[..|fs| - 1]);
    }
  }

  /** Of a rewritten head's fields, the ones kept next time are those kept
      before. */
  lemma KeptAgain(overrides: seq<Field>, headers: seq<Field>)
    requires Clean(headers) && Trimmed(headers) == headers
    ensures Kept(overrides, Kept(overrides, headers) + Trimmed(overrides) + Closing(overrides))
            == Kept(overrides, headers)
  {
    var kept, closing := Kept(overrides, headers), Closing(overrides);
    var again := Trimmed(overrides);
    KeptAre(overrides, headers);
    KeptAll(overrides, kept);
    forall i | 0 <= i < |again| ensures !Keeps(overrides, again[i]) {
      assert LowerName(again[i].name) == LowerName(overrides[i].name);
    }
    KeptNone(overrides, again);
    CloseIsClean();
    KeptNone(overrides, closing);
    KeptConcat(overrides, kept, again);
    KeptConcat(overrides, kept + again, closing);
  }

  lemma {:induction false} FirstHostConcat(fs: seq<Field>, gs: seq<Field>)
    ensures FirstHost(fs + gs) == if FirstHost(fs).Some? then FirstHost(fs) else FirstHost(gs)
  {
    if fs == [] {
      assert fs + gs == gs;
    } else {
      assert (fs + gs)[1..] == fs[1..] + gs;
      FirstHostConcat(fs[1..], gs);
    }
  }

  lemma {:induction false} FirstHostNone(fs: seq<Field>)
    requires forall i :: 0 <= i < |fs| ==> LowerName(fs[i].name) != HOST
    ensures FirstHost(fs).None?
  {
    if fs != [] {
      FirstHostNone(fs[1..]);
    }
  }

  /** The client's Host survives unless the rule sets it. */
  lemma {:induction false} FirstHostKept(overrides: seq<Field>, headers: seq<Field>)
    requires !Sets(overrides, HOST)
    ensures FirstHost(Kept(overrides, headers)) == FirstHost(headers)
  {
    if headers != [] {
      var front, last := headers[..|headers| - 1], headers[|headers| - 1];
      FirstHostKept(overrides, front);
      assert headers == front + [last];
      FirstHostConcat(front, [last]);
      FirstHostConcat(Kept(overrides, front), [last]);
      assert LowerName(last.name) == HOST ==> Keeps(overrides, last) by { HostIsKept(overrides, last); }
    }
  }

  lemma HostIsKept(overrides: seq<Field>, f: Field)
    requires !Sets(overrides, HOST)
    ensures LowerName(f.name) == HOST ==> Keeps(overrides, f)
  {
    if LowerName(f.name) == HOST {
      assert |LowerName(f.name)| == 4 && |CONNECTION| == 10 && |KEEP_ALIVE| == 10;
    }
  }

  /** A rewritten head still names the same host. */
  lemma SameHost(overrides: seq<Field>, headers: seq<Field>)
    requires !Sets(overrides, HOST)
    ensures FirstHost(Kept(overrides, headers) + Trimmed(overrides) + Closing(overrides)) == FirstHost(headers)
  {
    var kept, again, closing := Kept(overrides, headers), Trimmed(overrides), Closing(overrides);
    FirstHostKept(overrides, headers);
    forall i | 0 <= i < |again| ensures LowerName(again[i].name) != HOST {
      assert LowerName(again[i].name) == LowerName(overrides[i].name);
    }
    FirstHostNone(again);
    CloseIsClean();
    assert CONNECTION != HOST by { assert |CONNECTION| != |HOST|; }
    FirstHostNone(closing);
    FirstHostConcat(kept, again);
    FirstHostConcat(kept + again, closing);
  }

  /** What the library makes of a head that reads as a request. */
  function AsParse(r: Request): Parse { Parsed(Some(r.verb), Some(r.path), r.headers) }

  function Fields(overrides: seq<Field>, headers: seq<Field>): seq<Field>
  {
    Kept(overrides, headers) + Trimmed(overrides) + Closing(overrides)
  }

  /** Rewriting a rewritten head changes nothing, provided its host falls under
      the same rule again or under none. */
  lemma RewriteAgain(head: seq<byte>, parse: Parse, rules: Rules, overrides: seq<Field>)
    requires WellParsed(parse) && rules(HostOf(parse.headers)) == Some(overrides) && Clean(overrides)
    requires
      var next := rules(HostOf(Fields(overrides, parse.headers)));
      next == None || next == Some(overrides)
    ensures
      var once := Rewrite(head, parse, rules);
      && once.Ok? && ReadRequest(once.value).Some?
      && Rewrite(once.value, AsParse(ReadRequest(once.value).value), rules) == once
  {
    RewrittenReadsBack(head, parse, rules, overrides);
    KeptAgain(overrides, parse.headers);
  }

  /** In particular when the rule does not set Host. */
  lemma RewriteTwice(head: seq<byte>, parse: Parse, rules: Rules, overrides: seq<Field>)
    requires WellParsed(parse) && rules(HostOf(parse.headers)) == Some(overrides) && Clean(overrides)
    requires !Sets(overrides, HOST)
    ensures
      var once := Rewrite(head, parse, rules);
      && once.Ok? && ReadRequest(once.value).Some?
      && Rewrite(once.value, AsParse(ReadRequest(once.value).value), rules) == once
  {
    SameHost(overrides, parse.headers);
    assert HostOf(Fields(overrides, parse.headers)) == HostOf(parse.headers);
    RewriteAgain(head, parse, rules, overrides);
  }

  // ---- Head to upstream ----

  /** `handle_conn` from the first read to the splice: the bytes sent upstream.
      For a head that cannot be parsed or that no rule matches they are exactly
      the bytes of all reads made. */
  method ForwardHead(chunks: seq<seq<byte>>, parser: seq<byte> -> Parse, rules: Rules)
    returns (r: HeadResult, sent: Option<seq<byte>>)
    requires Reads(chunks)
    ensures CutsHead(chunks, r) && (!r.Head? ==> sent.None?)
    ensures r.Head? ==>
      var parse := parser(r.buf[..r.end]);
      && (parse.Unparseable? || rules(HostOf(parse.headers)).None? ==>
            sent.Some? && ReadSoFar(chunks, sent.value))
      && (sent.Some? <==> Rewrite(r.buf[..r.end], parse, rules).Ok?)
      && (sent.Some? ==> sent.value == Rewrite(r.buf[..r.end], parse, rules).value + r.buf[r.end..])
  {
    sent := None;
    r := HttpHead.ReadHead(chunks);
    if r.Head? {
      var head, leftover := r.buf[..r.end], r.buf[r.end..];
      var newHead := RewriteHead(head, parser(head), rules);
      assert head + leftover == r.buf;
      if newHead.Ok? {
        sent := Some(newHead.value + leftover);
      }
    }
  }
}
