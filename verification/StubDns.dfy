/** The stub resolver's response builder (src/mitm/dns.rs) and a reader of DNS
    messages after sections 4.1.1 to 4.1.4 of RFC 1035 to judge it by. */
module StubDns {
  import opened Wrappers

  const TYPE_A := 1
  const TYPE_AAAA := 28
  const CLASS_IN := 1
  const TTL := 60
  const STACK_IP: seq<byte> := [10, 0, 0, 1]
  const STACK_IP6: seq<byte> := [0xfd, 0, 0, 0, 0, 0, 0, 0, 0, 0, 0, 0, 0, 0, 0, 1]

  function U16(hi: byte, lo: byte): (v: nat)
    ensures v < 0x1_0000
  {
    hi * 256 + lo
  }

  function Be16(v: nat): seq<byte>
    requires v < 0x1_0000
  {
    [v / 256, v % 256]
  }

  // ---- The builder ----

  /** The index after the uncompressed name at `i`, if there is one. */
  function WalkName(q: seq<byte>, i: nat): (end: Option<nat>)
    decreases |q| - i
  {
    if i >= |q| then None
    else if q[i] == 0 then Some(i + 1)
    else if q[i] >= 64 then None
    else WalkName(q, i + 1 + q[i])
  }

  function Rdata(qtype: nat, qclass: nat): Option<seq<byte>>
  {
    if qclass == CLASS_IN && qtype == TYPE_A then Some(STACK_IP)
    else if qclass == CLASS_IN && qtype == TYPE_AAAA then Some(STACK_IP6)
    else None
  }

  /** ID copied; QR=1, RD copied; RA=1; one question, `answers` answers. */
  function Header(q: seq<byte>, answers: byte): (h: seq<byte>)
    requires |q| >= 12
    ensures |h| == 12
  {
    [q[0], q[1], 0x80 + q[2] % 2, 0x80, 0, 1, 0, answers, 0, 0, 0, 0]
  }

  /** Name pointer to offset 12, type, class IN, TTL, length of the data. */
  function AnswerHead(qtype: nat, length: byte): (h: seq<byte>)
    requires qtype < 0x1_0000
    ensures |h| == 12
  {
    [0xc0, 0x0c, qtype / 256, qtype % 256, 0, CLASS_IN, 0, 0, 0, TTL, 0, length]
  }

  function Response(q: seq<byte>): (r: Option<seq<byte>>)
  {
    if |q| < 12 || U16(q[4], q[5]) == 0 then None
    else
      match WalkName(q, 12)
      case None => None
      case Some(i) =>
        if |q| < i + 4 then None
        else
          var qtype, qclass := U16(q[i], q[i + 1]), U16(q[i + 2], q[i + 3]);
          assert 12 <= i by { WalkGrows(q, 12); }
          match Rdata(qtype, qclass)
          case None => Some(Header(q, 0) + q[12..i + 4])
          case Some(rdata) => Some((Header(q, 1) + q[12..i + 4]) + (AnswerHead(qtype, |rdata|) + rdata))
  }

  lemma WalkGrows(q: seq<byte>, i: nat)
    requires WalkName(q, i).Some?
    ensures i < WalkName(q, i).value <= |q|
    decreases |q| - i
  {
    if q[i] != 0 {
      WalkGrows(q, i + 1 + q[i]);
    }
  }

  /** `build_response`: the walk over the name, then the pieces appended. */
  method BuildResponse(query: seq<byte>) returns (r: Option<seq<byte>>)
    ensures r == Response(query)
  {
    if |query| < 12 {
      return None;
    }
    if U16(query[4], query[5]) == 0 {
      return None;
    }
    var walked := Walk(query);
    if walked.None? {
      return None;
    }
    var i := walked.value;
    WalkGrows(query, 12);
    if i + 3 >= |query| {
      return None;
    }
    var qtype, qclass := U16(query[i], query[i + 1]), U16(query[i + 2], query[i + 3]);
    var question := query[12..i + 4];
    var rdata := Rdata(qtype, qclass);
    var resp := StartResponse(query, if rdata.Some? then 1 else 0);
    resp := resp + question;
    if rdata.Some? {
      resp := AppendAnswer(resp, qtype, rdata.value);
    }
    return Some(resp);
  }

  /** The loop over the labels of the question's name. */
  method Walk(query: seq<byte>) returns (end: Option<nat>)
    ensures end == WalkName(query, 12)
  {
    var i := 12;
    while true
      invariant 12 <= i
      invariant WalkName(query, i) == WalkName(query, 12)
      decreases |query| - i
    {
      if i >= |query| {
        return None;
      }
      var len := query[i];
      if len == 0 {
        i := i + 1;
        break;
      }
      if len >= 64 {
        return None;
      }
      i := i + 1 + len;
    }
    return Some(i);
  }

  method StartResponse(query: seq<byte>, answers: byte) returns (resp: seq<byte>)
    requires |query| >= 12
    ensures resp == Header(query, answers)
  {
    resp := query[0..2];
    var rd := query[2] % 2;
    resp := resp + [0x80 + rd];
    resp := resp + [0x80];
    resp := resp + Be16(1);
    resp := resp + Be16(answers);
    resp := resp + Be16(0);
    resp := resp + Be16(0);
  }

  method AppendAnswer(resp: seq<byte>, qtype: nat, rdata: seq<byte>) returns (out: seq<byte>)
    requires qtype < 0x1_0000 && |rdata| < 256
    ensures out == resp + (AnswerHead(qtype, |rdata|) + rdata)
  {
    var head := [0xc0, 0x0c] + Be16(qtype);
    head := head + Be16(CLASS_IN);
    head := head + [0, 0, 0, TTL];
    head := head + Be16(|rdata|);
    assert head == AnswerHead(qtype, |rdata|);
    out := resp + head;
    out := out + rdata;
  }

  // ---- Names ----

  ghost predicate ValidLabels(ls: seq<seq<byte>>)
  {
    forall i :: 0 <= i < |ls| ==> 1 <= |ls[i]| <= 63
  }

  ghost function EncodeName(ls: seq<seq<byte>>): seq<byte>
    requires ValidLabels(ls)
  {
    if ls == [] then [0] else [|ls[0]|] + ls[0] + EncodeName(ls[1..])
  }

  /** `bytes` stands at index `i` of `m`. */
  ghost predicate At(m: seq<byte>, i: nat, bytes: seq<byte>)
  {
    i + |bytes| <= |m| && m[i..i + |bytes|] == bytes
  }

  lemma AtParts(m: seq<byte>, i: nat, a: seq<byte>, b: seq<byte>)
    ensures At(m, i, a + b) <==> At(m, i, a) && At(m, i + |a|, b)
  {
    if At(m, i, a + b) {
      assert m[i..i + |a|] == m[i..i + |a| + |b|][..|a|];
      assert m[i + |a|..i + |a| + |b|] == m[i..i + |a| + |b|][|a|..];
    }
    if At(m, i, a) && At(m, i + |a|, b) {
      assert m[i..i + |a| + |b|] == m[i..i + |a|] + m[i + |a|..i + |a| + |b|];
    }
  }

  lemma TwoParts(m: seq<byte>, a: seq<byte>, b: seq<byte>)
    requires m == a + b
    ensures At(m, 0, a) && At(m, |a|, b) && |m| == |a| + |b|
  {
    assert At(m, 0, a + b);
    AtParts(m, 0, a, b);
  }

  lemma FourParts(m: seq<byte>, a: seq<byte>, b: seq<byte>, c: seq<byte>, d: seq<byte>)
    requires m == (a + b) + (c + d)
    ensures At(m, 0, a) && At(m, |a|, b) && At(m, |a| + |b|, c) && At(m, |a| + |b| + |c|, d)
    ensures |m| == |a| + |b| + |c| + |d|
  {
    TwoParts(m, a + b, c + d);
    AtParts(m, 0, a, b);
    AtParts(m, |a + b|, c, d);
  }

  /** The walk succeeds on any encoded name, and ends just after it. */
  lemma {:induction false} WalkEncoded(m: seq<byte>, i: nat, ls: seq<seq<byte>>)
    requires ValidLabels(ls) && At(m, i, EncodeName(ls))
    ensures WalkName(m, i) == Some(i + |EncodeName(ls)|)
    decreases |ls|
  {
    if ls == [] {
      assert m[i] == m[i..i + 1][0];
    } else {
      var rest := EncodeName(ls[1..]);
      var first := [|ls[0]|] + ls[0];
      assert EncodeName(ls) == first + rest;
      AtParts(m, i, first, rest);
      assert m[i] == m[i..i + |first|][0] == first[0];
      WalkEncoded(m, i + |first|, ls[1..]);
    }
  }

  lemma LabelInFront(m: seq<byte>, i: nat, n: byte, lab: seq<byte>, rest: seq<byte>)
    requires i + 1 + n <= |m| && m[i] == n && lab == m[i + 1..i + 1 + n] && At(m, i + 1 + n, rest)
    ensures At(m, i, [n] + lab + rest)
  {
    assert m[i..i + 1 + n] == [n] + lab;
    AtParts(m, i, [n] + lab, rest);
  }

  /** Whatever the walk accepts is an encoded name. */
  lemma {:induction false} WalkedIsEncoded(m: seq<byte>, i: nat) returns (ls: seq<seq<byte>>)
    requires WalkName(m, i).Some?
    ensures ValidLabels(ls) && At(m, i, EncodeName(ls)) && WalkName(m, i) == Some(i + |EncodeName(ls)|)
    decreases |m| - i
  {
    if m[i] == 0 {
      ls := [];
      assert m[i..i + 1] == [0];
    } else {
      var n := m[i];
      WalkGrows(m, i);
      WalkGrows(m, i + 1 + n);
      var rest := WalkedIsEncoded(m, i + 1 + n);
      var lab := m[i + 1..i + 1 + n];
      ls := [lab] + rest;
      assert ls[1..] == rest;
      LabelInFront(m, i, n, lab, EncodeName(rest));
    }
  }

  // ---- When there is a response ----

  /** A 12-byte header announcing a question, then an uncompressed name of
      labels of 1 to 63 bytes, then a type and a class. */
  ghost predicate IsQuery(q: seq<byte>, ls: seq<seq<byte>>, qtype: nat, qclass: nat)
  {
    && |q| >= 12 && U16(q[4], q[5]) != 0
    && ValidLabels(ls) && qtype < 0x1_0000 && qclass < 0x1_0000
    && At(q, 12, EncodeName(ls) + (Be16(qtype) + Be16(qclass)))
  }

  lemma U16Be16(v: nat, hi: byte, lo: byte)
    requires v < 0x1_0000
    ensures U16(v / 256, v % 256) == v
    ensures Be16(U16(hi, lo)) == [hi, lo]
  {}

  /** The fields of a query after its name. */
  lemma QueryFields(q: seq<byte>, ls: seq<seq<byte>>, qtype: nat, qclass: nat)
    requires IsQuery(q, ls, qtype, qclass)
    ensures
      var i := 12 + |EncodeName(ls)|;
      && WalkName(q, 12) == Some(i) && i + 4 <= |q|
      && U16(q[i], q[i + 1]) == qtype && U16(q[i + 2], q[i + 3]) == qclass
      && q[12..i + 4] == EncodeName(ls) + (Be16(qtype) + Be16(qclass))
  {
    var name, tail := EncodeName(ls), Be16(qtype) + Be16(qclass);
    AtParts(q, 12, name, tail);
    WalkEncoded(q, 12, ls);
    var i := 12 + |name|;
    assert q[i..i + 4] == tail;
    assert q[i] == tail[0] && q[i + 1] == tail[1] && q[i + 2] == tail[2] && q[i + 3] == tail[3];
  }

  /** A response exists for every query, and for nothing else. */
  lemma ResponseIffQuery(q: seq<byte>)
    ensures Response(q).Some? <==> exists ls, qtype, qclass :: IsQuery(q, ls, qtype, qclass)
  {
    if Response(q).Some? {
      var ls, qtype, qclass := QueryOf(q);
      assert IsQuery(q, ls, qtype, qclass);
    }
    if ls, qtype, qclass :| IsQuery(q, ls, qtype, qclass) {
      QueryFields(q, ls, qtype, qclass);
    }
  }

  lemma QueryOf(q: seq<byte>) returns (ls: seq<seq<byte>>, qtype: nat, qclass: nat)
    requires Response(q).Some?
    ensures IsQuery(q, ls, qtype, qclass)
  {
    var i := WalkName(q, 12).value;
    ls := WalkedIsEncoded(q, 12);
    qtype, qclass := U16(q[i], q[i + 1]), U16(q[i + 2], q[i + 3]);
    U16Be16(0, q[i], q[i + 1]);
    U16Be16(0, q[i + 2], q[i + 3]);
    assert q[i..i + 4] == Be16(qtype) + Be16(qclass);
    AtParts(q, 12, EncodeName(ls), Be16(qtype) + Be16(qclass));
  }

  // ---- Reading a message ----

  datatype Question = Question(name: seq<seq<byte>>, qtype: nat, qclass: nat)
  datatype Record = Record(name: seq<seq<byte>>, rtype: nat, rclass: nat, ttl: nat, rdata: seq<byte>)
  datatype Message = Message(
    id: nat, qr: bool, opcode: nat, aa: bool, tc: bool, rd: bool, ra: bool, rcode: nat,
    questions: seq<Question>, answers: seq<Record>, nscount: nat, arcount: nat)

  /** A name at `i`, which may end in a pointer to before `limit`; the labels
      and the index after it. */
  function ReadName(m: seq<byte>, i: nat, limit: nat): (r: Option<(seq<seq<byte>>, nat)>)
    decreases limit, |m| - i
  {
    if i >= |m| then None
    else if m[i] == 0 then Some(([], i + 1))
    else if m[i] < 64 then
      if i + 1 + m[i] > |m| then None
      else
        match ReadName(m, i + 1 + m[i], limit)
        case None => None
        case Some((ls, next)) => Some(([m[i + 1..i + 1 + m[i]]] + ls, next))
    else if m[i] >= 192 && i + 1 < |m| then
      var target := U16(m[i] - 192, m[i + 1]);
      if target >= limit then None
      else
        match ReadName(m, target, target)
        case None => None
        case Some((ls, _)) => Some((ls, i + 2))
    else None
  }

  function ReadQuestions(m: seq<byte>, i: nat, n: nat): Option<(seq<Question>, nat)>
    decreases n
  {
    if n == 0 then Some(([], i))
    else
      match ReadName(m, i, i)
      case None => None
      case Some((name, j)) =>
        if j + 4 > |m| then None
        else
          match ReadQuestions(m, j + 4, n - 1)
          case None => None
          case Some((qs, next)) =>
            Some(([Question(name, U16(m[j], m[j + 1]), U16(m[j + 2], m[j + 3]))] + qs, next))
  }

  function ReadRecords(m: seq<byte>, i: nat, n: nat): Option<(seq<Record>, nat)>
    decreases n
  {
    if n == 0 then Some(([], i))
    else
      match ReadName(m, i, i)
      case None => None
      case Some((name, j)) =>
        if j + 10 > |m| then None
        else
          var len := U16(m[j + 8], m[j + 9]);
          if j + 10 + len > |m| then None
          else
            match ReadRecords(m, j + 10 + len, n - 1)
            case None => None
            case Some((rs, next)) =>
              var ttl := U16(m[j + 4], m[j + 5]) * 0x1_0000 + U16(m[j + 6], m[j + 7]);
              Some(([Record(name, U16(m[j], m[j + 1]), U16(m[j + 2], m[j + 3]), ttl, m[j + 10..j + 10 + len])] + rs, next))
  }

  /** Header, questions, answers; nothing may follow. */
  function ReadMessage(m: seq<byte>): Option<Message>
  {
    if |m| < 12 then None
    else
      match ReadQuestions(m, 12, U16(m[4], m[5]))
      case None => None
      case Some((qs, i)) =>
        match ReadRecords(m, i, U16(m[6], m[7]))
        case None => None
        case Some((rs, end)) =>
          if end != |m| then None
          else
            Some(Message(U16(m[0], m[1]), m[2] >= 128, m[2] / 8 % 16, m[2] / 4 % 2 == 1, m[2] / 2 % 2 == 1,
                         m[2] % 2 == 1, m[3] >= 128, m[3] % 16, qs, rs, U16(m[8], m[9]), U16(m[10], m[11])))
  }

  // ---- The response, read back ----

  lemma {:induction false} ReadEncoded(m: seq<byte>, i: nat, limit: nat, ls: seq<seq<byte>>)
    requires ValidLabels(ls) && At(m, i, EncodeName(ls))
    ensures ReadName(m, i, limit) == Some((ls, i + |EncodeName(ls)|))
    decreases |ls|
  {
    if ls == [] {
      assert m[i] == m[i..i + 1][0];
    } else {
      var rest, first := EncodeName(ls[1..]), [|ls[0]|] + ls[0];
      assert EncodeName(ls) == first + rest;
      AtParts(m, i, first, rest);
      assert m[i] == m[i..i + |first|][0] == first[0];
      assert m[i + 1..i + |first|] == m[i..i + |first|][1..] == ls[0];
      ReadEncoded(m, i + |first|, limit, ls[1..]);
      assert [ls[0]] + ls[1..] == ls;
    }
  }

  /** A question at `i`, found by its bytes. */
  lemma ReadOneQuestion(m: seq<byte>, i: nat, ls: seq<seq<byte>>, qtype: nat, qclass: nat)
    requires ValidLabels(ls) && qtype < 0x1_0000 && qclass < 0x1_0000
    requires At(m, i, EncodeName(ls) + (Be16(qtype) + Be16(qclass)))
    ensures ReadQuestions(m, i, 1) == Some(([Question(ls, qtype, qclass)], i + |EncodeName(ls)| + 4))
  {
    var name, tail := EncodeName(ls), Be16(qtype) + Be16(qclass);
    AtParts(m, i, name, tail);
    ReadEncoded(m, i, i, ls);
    var j := i + |name|;
    FourBytes(m, j, tail);
    ReadQuestionFields(m, i, j, ls, qtype, qclass);
  }

  lemma FourBytes(m: seq<byte>, j: nat, tail: seq<byte>)
    requires At(m, j, tail) && |tail| == 4
    ensures m[j] == tail[0] && m[j + 1] == tail[1] && m[j + 2] == tail[2] && m[j + 3] == tail[3]
  {
    var four := m[j..j + 4];
    assert four[0] == m[j] && four[1] == m[j + 1] && four[2] == m[j + 2] && four[3] == m[j + 3];
  }

  /** Reading a question once its fields are known. */
  lemma ReadQuestionFields(m: seq<byte>, i: nat, j: nat, ls: seq<seq<byte>>, qtype: nat, qclass: nat)
    requires ReadName(m, i, i) == Some((ls, j)) && j + 4 <= |m|
    requires U16(m[j], m[j + 1]) == qtype && U16(m[j + 2], m[j + 3]) == qclass
    ensures ReadQuestions(m, i, 1) == Some(([Question(ls, qtype, qclass)], j + 4))
  {
    assert ReadQuestions(m, j + 4, 0) == Some(([], j + 4));
    assert [Question(ls, qtype, qclass)] + [] == [Question(ls, qtype, qclass)];
  }

  /** An answer at the end of the message whose name points to offset 12. */
  lemma ReadOneRecord(m: seq<byte>, i: nat, ls: seq<seq<byte>>, qtype: nat, rdata: seq<byte>)
    requires ValidLabels(ls) && qtype < 0x1_0000 && |rdata| < 256
    requires 12 < i && At(m, 12, EncodeName(ls))
    requires At(m, i, AnswerHead(qtype, |rdata|)) && At(m, i + 12, rdata) && i + 12 + |rdata| == |m|
    ensures ReadRecords(m, i, 1) == Some(([Record(ls, qtype, CLASS_IN, TTL, rdata)], |m|))
  {
    var a := AnswerHead(qtype, |rdata|);
    ReadEncoded(m, 12, 12, ls);
    forall k | i <= k < i + 12 ensures m[k] == a[k - i] {
      assert m[k] == m[i..i + 12][k - i];
    }
    assert m[i] == 0xc0 && m[i + 1] == 0x0c;
    var j := i + 2;
    assert ReadName(m, i, i) == Some((ls, j));
    assert U16(m[j], m[j + 1]) == qtype && U16(m[j + 2], m[j + 3]) == CLASS_IN;
    assert U16(m[j + 4], m[j + 5]) == 0 && U16(m[j + 6], m[j + 7]) == TTL;
    assert U16(m[j + 8], m[j + 9]) == |rdata|;
    assert m[j + 10..j + 10 + |rdata|] == rdata;
    ReadRecordFields(m, i, j, ls, qtype, rdata);
  }

  /** Reading a record once its fields are known. */
  lemma ReadRecordFields(m: seq<byte>, i: nat, j: nat, ls: seq<seq<byte>>, qtype: nat, rdata: seq<byte>)
    requires ReadName(m, i, i) == Some((ls, j)) && j + 10 + |rdata| == |m|
    requires U16(m[j], m[j + 1]) == qtype && U16(m[j + 2], m[j + 3]) == CLASS_IN
    requires U16(m[j + 4], m[j + 5]) == 0 && U16(m[j + 6], m[j + 7]) == TTL
    requires U16(m[j + 8], m[j + 9]) == |rdata| && m[j + 10..j + 10 + |rdata|] == rdata
    ensures ReadRecords(m, i, 1) == Some(([Record(ls, qtype, CLASS_IN, TTL, rdata)], |m|))
  {
    assert ReadRecords(m, |m|, 0) == Some(([], |m|));
    var rec := Record(ls, qtype, CLASS_IN, TTL, rdata);
    assert [rec] + [] == [rec];
  }

  /** The answers a query should get: for type A (1) and class IN (1) the address
      10.0.0.1, for type AAAA (28) and class IN fd00::1, each for 60 seconds, and
      none otherwise. */
  ghost function Answers(ls: seq<seq<byte>>, qtype: nat, qclass: nat): seq<Record>
  {
    if qtype == 1 && qclass == 1 then [Record(ls, 1, 1, 60, [10, 0, 0, 1])]
    else if qtype == 28 && qclass == 1 then
      [Record(ls, 28, 1, 60, [0xfd, 0, 0, 0, 0, 0, 0, 0, 0, 0, 0, 0, 0, 0, 0, 1])]
    else []
  }

  lemma AnswersAre(ls: seq<seq<byte>>, qtype: nat, qclass: nat)
    ensures
      var rdata := Rdata(qtype, qclass);
      Answers(ls, qtype, qclass) == if rdata.Some? then [Record(ls, qtype, CLASS_IN, TTL, rdata.value)] else []
  {}

  /** The response is a header, the query's question and at most one answer. */
  lemma ResponseParts(q: seq<byte>, ls: seq<seq<byte>>, qtype: nat, qclass: nat)
    requires IsQuery(q, ls, qtype, qclass)
    ensures Response(q).Some?
    ensures
      var m, rdata := Response(q).value, Rdata(qtype, qclass);
      var question := EncodeName(ls) + (Be16(qtype) + Be16(qclass));
      var i := 12 + |question|;
      && At(m, 0, Header(q, if rdata.Some? then 1 else 0)) && At(m, 12, question)
      && 12 + |question| <= |q|
      && (rdata.None? ==> |m| == i)
      && (rdata.Some? ==> At(m, i, AnswerHead(qtype, |rdata.value|)) && At(m, i + 12, rdata.value)
                          && |m| == i + 12 + |rdata.value|)
  {
    ResponseIs(q, ls, qtype, qclass);
    QueryFields(q, ls, qtype, qclass);
    var m, rdata := Response(q).value, Rdata(qtype, qclass);
    var question := EncodeName(ls) + (Be16(qtype) + Be16(qclass));
    if rdata.Some? {
      FourParts(m, Header(q, 1), question, AnswerHead(qtype, |rdata.value|), rdata.value);
    } else {
      TwoParts(m, Header(q, 0), question);
    }
  }

  lemma ResponseIs(q: seq<byte>, ls: seq<seq<byte>>, qtype: nat, qclass: nat)
    requires IsQuery(q, ls, qtype, qclass)
    ensures
      var question, rdata := EncodeName(ls) + (Be16(qtype) + Be16(qclass)), Rdata(qtype, qclass);
      Response(q) ==
        if rdata.None? then Some(Header(q, 0) + question)
        else Some((Header(q, 1) + question) + (AnswerHead(qtype, |rdata.value|) + rdata.value))
  {
    QueryFields(q, ls, qtype, qclass);
  }

  /** The response to a query, read as a DNS message, carries the query's ID and
      question, answers an A or AAAA question of class IN with the stack's
      address under the queried name, and answers nothing else. */
  lemma ResponseReadsBack(q: seq<byte>, ls: seq<seq<byte>>, qtype: nat, qclass: nat)
    requires IsQuery(q, ls, qtype, qclass)
    ensures Response(q).Some? && |Response(q).value| <= |q| + 28
    ensures ReadMessage(Response(q).value) ==
            Some(Message(U16(q[0], q[1]), true, 0, false, false, q[2] % 2 == 1, true, 0,
                         [Question(ls, qtype, qclass)], Answers(ls, qtype, qclass), 0, 0))
  {
    ResponseParts(q, ls, qtype, qclass);
    ReadsBackFrom(q, Response(q).value, ls, qtype, qclass);
  }

  lemma ReadsBackFrom(q: seq<byte>, m: seq<byte>, ls: seq<seq<byte>>, qtype: nat, qclass: nat)
    requires |q| >= 12 && ValidLabels(ls) && qtype < 0x1_0000 && qclass < 0x1_0000
    requires
      var rdata := Rdata(qtype, qclass);
      var question := EncodeName(ls) + (Be16(qtype) + Be16(qclass));
      var i := 12 + |question|;
      && At(m, 0, Header(q, if rdata.Some? then 1 else 0)) && At(m, 12, question)
      && (rdata.None? ==> |m| == i)
      && (rdata.Some? ==> At(m, i, AnswerHead(qtype, |rdata.value|)) && At(m, i + 12, rdata.value)
                          && |m| == i + 12 + |rdata.value|)
    ensures ReadMessage(m) ==
            Some(Message(U16(q[0], q[1]), true, 0, false, false, q[2] % 2 == 1, true, 0,
                         [Question(ls, qtype, qclass)], Answers(ls, qtype, qclass), 0, 0))
  {
    var rdata := Rdata(qtype, qclass);
    AnswersAre(ls, qtype, qclass);
    var n: byte := if rdata.Some? then 1 else 0;
    var i := 12 + |EncodeName(ls)| + 4;
    AtParts(m, 12, EncodeName(ls), Be16(qtype) + Be16(qclass));
    ReadOneQuestion(m, 12, ls, qtype, qclass);
    if rdata.Some? {
      ReadOneRecord(m, i, ls, qtype, rdata.value);
    }
    ReadHeader(m, q, n);
    ReadPieces(m, [Question(ls, qtype, qclass)], i, Answers(ls, qtype, qclass), 1, n);
  }

  /** Reading a message of our form once its sections are known. */
  lemma ReadPieces(m: seq<byte>, qs: seq<Question>, i: nat, rs: seq<Record>, k: nat, n: nat)
    requires |m| >= 12 && (m[2] == 0x80 || m[2] == 0x81) && m[3] == 0x80
    requires U16(m[4], m[5]) == k && U16(m[6], m[7]) == n && U16(m[8], m[9]) == 0 && U16(m[10], m[11]) == 0
    requires ReadQuestions(m, 12, k) == Some((qs, i)) && ReadRecords(m, i, n) == Some((rs, |m|))
    ensures ReadMessage(m) ==
            Some(Message(U16(m[0], m[1]), true, 0, false, false, m[2] == 0x81, true, 0, qs, rs, 0, 0))
  {
    ReadFlags(m[2], m[3]);
  }

  lemma ReadFlags(a: byte, b: byte)
    requires (a == 0x80 || a == 0x81) && b == 0x80
    ensures a >= 128 && a / 8 % 16 == 0 && a / 4 % 2 == 0 && a / 2 % 2 == 0 && (a % 2 == 1 <==> a == 0x81)
    ensures b >= 128 && b % 16 == 0
  {}

  lemma ReadHeader(m: seq<byte>, q: seq<byte>, answers: byte)
    requires |q| >= 12 && At(m, 0, Header(q, answers))
    ensures |m| >= 12 && U16(m[0], m[1]) == U16(q[0], q[1]) && m[2] == 0x80 + q[2] % 2 && m[3] == 0x80
    ensures U16(m[4], m[5]) == 1 && U16(m[6], m[7]) == answers
    ensures U16(m[8], m[9]) == 0 && U16(m[10], m[11]) == 0
  {
    assert forall k :: 0 <= k < 12 ==> m[k] == m[0..12][k];
  }
}
