/** The captive-portal DNS server: a query is turned into its response inside the receive buffer. The
    response is judged by a message reader written from section 4.1 of RFC 1035, with the name
    compression of section 4.1.4. */
module DnsResponder {
  import opened Numerals

  type byte = x: int | 0 <= x < 0x100
  type word = x: int | 0 <= x < 0x1_0000

  const RX_SIZE: nat := 128
  const HEADER_LEN: nat := 12

  /** A pointer to offset 12, type A, class IN, TTL 60, four bytes of data: 192.168.4.1. */
  const TRACE: seq<byte> := [0xC0, 0x0C, 0, 1, 0, 1, 0, 0, 0, 0x3C, 0, 4, 192, 168, 4, 1]

  // ---------- Messages ----------

  type Label = l: seq<byte> | 1 <= |l| <= 63 witness [0]

  datatype Question = Question(name: seq<Label>, qtype: word, qclass: word)
  datatype Record = Record(name: seq<Label>, rtype: nat, rclass: nat, ttl: nat, data: seq<byte>)
  datatype Flags = Flags(qr: bool, opcode: nat, aa: bool, tc: bool, rd: bool, ra: bool, rcode: nat)
  datatype Message = Message(id: nat, flags: Flags, questions: seq<Question>, answers: seq<Record>,
                             authority: seq<Record>, additional: seq<Record>)

  predicate Bit(b: byte, weight: nat)
    requires weight > 0
  {
    b / weight % 2 == 1
  }

  function FlagsOf(b2: byte, b3: byte): Flags {
    Flags(Bit(b2, 128), b2 / 8 % 16, Bit(b2, 4), Bit(b2, 2), Bit(b2, 1), Bit(b3, 128), b3 % 16)
  }

  function U16At(m: seq<byte>, i: nat): word
    requires i + 2 <= |m|
  {
    (m[i] as int) * 256 + m[i + 1]
  }

  /** The name at `pos` and the offset after it. A pointer must lead to before `limit`, where the part of
      the name being read starts. */
  function ReadName(m: seq<byte>, pos: nat, limit: nat): Option<(seq<Label>, nat)>
    decreases limit, |m| - pos
  {
    if pos >= |m| then None
    else if m[pos] == 0 then Some(([], pos + 1))
    else if m[pos] < 64 then
      var end := pos + 1 + m[pos];
      if end > |m| then None else
      match ReadName(m, end, limit)
      case None => None
      case Some((labels, next)) =>
        var part: Label := m[pos + 1..end];
        Some(([part] + labels, next))
    else if m[pos] >= 192 && pos + 2 <= |m| then
      var target := (m[pos] as int - 192) * 256 + m[pos + 1];
      if target >= limit then None else
      match ReadName(m, target, target)
      case None => None
      case Some((labels, _)) => Some((labels, pos + 2))
    else None
  }

  function ReadQuestions(m: seq<byte>, pos: nat, n: nat): Option<(seq<Question>, nat)>
    decreases n
  {
    if n == 0 then Some(([], pos)) else
    match ReadName(m, pos, pos)
    case None => None
    case Some((name, p)) =>
      if p + 4 > |m| then None else
      match ReadQuestions(m, p + 4, n - 1)
      case None => None
      case Some((rest, next)) => Some(([Question(name, U16At(m, p), U16At(m, p + 2))] + rest, next))
  }

  function ReadRecords(m: seq<byte>, pos: nat, n: nat): Option<(seq<Record>, nat)>
    decreases n
  {
    if n == 0 then Some(([], pos)) else
    match ReadName(m, pos, pos)
    case None => None
    case Some((name, p)) =>
      if p + 10 > |m| || p + 10 + U16At(m, p + 8) > |m| then None else
      var end := p + 10 + U16At(m, p + 8);
      match ReadRecords(m, end, n - 1)
      case None => None
      case Some((rest, next)) =>
        var ttl := 0x1_0000 * U16At(m, p + 4) + U16At(m, p + 6);
        Some(([Record(name, U16At(m, p), U16At(m, p + 2), ttl, m[p + 10..end])] + rest, next))
  }

  function ReadMessage(m: seq<byte>): Option<Message> {
    if |m| < HEADER_LEN then None else
    match ReadQuestions(m, HEADER_LEN, U16At(m, 4))
    case None => None
    case Some((questions, p1)) =>
      match ReadRecords(m, p1, U16At(m, 6))
      case None => None
      case Some((answers, p2)) =>
        match ReadRecords(m, p2, U16At(m, 8))
        case None => None
        case Some((authority, p3)) =>
          match ReadRecords(m, p3, U16At(m, 10))
          case None => None
          case Some((additional, p4)) =>
            if p4 != |m| then None
            else Some(Message(U16At(m, 0), FlagsOf(m[2], m[3]), questions, answers, authority, additional))
  }

  // ---------- What the server does ----------

  /** The header of the response over the one of the query: QR, RD and RA set and nothing else, one
      answer, no other record; id and question count stay. */
  function ResponseHeader(h: seq<byte>): seq<byte>
    requires |h| == HEADER_LEN
  {
    [h[0], h[1], 0x81, 0x80, h[4], h[5], 0, 1, 0, 0, 0, 0]
  }

  /** What the server leaves in the buffer, whether or not it answers. */
  function Rewritten(q: seq<byte>): seq<byte> {
    if |q| > HEADER_LEN && q[2] < 128 then ResponseHeader(q[..HEADER_LEN]) + q[HEADER_LEN..] else q
  }

  /** The response to a datagram, if there is one. */
  function Reply(q: seq<byte>): Option<seq<byte>> {
    if HEADER_LEN < |q| <= RX_SIZE - |TRACE| && q[2] < 128 then Some(Rewritten(q) + TRACE) else None
  }

  method SetHeader(rx: array<byte>)
    requires rx.Length >= HEADER_LEN
    modifies rx
    ensures rx[..HEADER_LEN] == ResponseHeader(old(rx[..HEADER_LEN]))
    ensures rx[HEADER_LEN..] == old(rx[HEADER_LEN..])
  {
    rx[2] := 0x81;
    rx[3] := 0x80;
    rx[6] := 0x00;
    rx[7] := 0x01;
    rx[8] := 0x00;
    rx[9] := 0x00;
    rx[10] := 0x00;
    rx[11] := 0x00;
  }

  /** The body of dns_task's loop after recvfrom: the first `received` bytes of `rx` are the datagram. */
  method Respond(rx: array<byte>, received: nat) returns (send: bool, len: nat)
    requires rx.Length == RX_SIZE && received < RX_SIZE
    modifies rx
    ensures send <==> Reply(old(rx[..received])).Some?
    ensures send ==> len <= RX_SIZE && rx[..len] == Reply(old(rx[..received])).value
    ensures rx[..received] == Rewritten(old(rx[..received]))
    ensures rx[received..] == if send then TRACE + old(rx[received + |TRACE|..]) else old(rx[received..])
  {
    send, len := false, received;
    ghost var q := rx[..received];
    if len > 12 && rx[2] < 128 {
      assert q[..HEADER_LEN] == rx[..HEADER_LEN] && q[HEADER_LEN..] == rx[HEADER_LEN..][..len - HEADER_LEN];
      assert rx[received..] == rx[HEADER_LEN..][received - HEADER_LEN..];
      SetHeader(rx);
      assert rx[..len] == rx[..HEADER_LEN] + rx[HEADER_LEN..][..len - HEADER_LEN];
      assert rx[received..] == rx[HEADER_LEN..][received - HEADER_LEN..];
      if len + |TRACE| <= RX_SIZE {
        AppendTrace(rx, len);
        len := len + |TRACE|;
        send := true;
      }
    }
  }

  /** memcpy(rx_buffer + len, trace, sizeof(trace)). */
  method AppendTrace(rx: array<byte>, len: nat)
    requires len + |TRACE| <= rx.Length
    modifies rx
    ensures rx[..len] == old(rx[..len])
    ensures rx[..len + |TRACE|] == old(rx[..len]) + TRACE
    ensures rx[len..] == TRACE + old(rx[len + |TRACE|..])
  {
    forall i | 0 <= i < |TRACE| {
      rx[len + i] := TRACE[i];
    }
  }

  /** The datagram as recvfrom leaves it: at most 127 bytes. */
  function Received(d: seq<byte>): seq<byte> { if |d| < RX_SIZE then d else d[..RX_SIZE - 1] }

  /** The responses to a series of datagrams, in order. */
  function Replies(ds: seq<seq<byte>>): seq<seq<byte>> {
    if ds == [] then []
    else
      var r := Reply(Received(ds[|ds| - 1]));
      Replies(ds[..|ds| - 1]) + if r.Some? then [r.value] else []
  }

  /** A datagram gets a response exactly if recvfrom leaves 13 to 112 bytes of it and QR is clear. */
  predicate Answerable(d: seq<byte>) { 13 <= |d| <= 112 && d[2] < 128 }

  lemma ReplyIff(d: seq<byte>)
    ensures Reply(Received(d)).Some? <==> Answerable(d)
    ensures Answerable(d) ==> |Reply(Received(d)).value| == |d| + 16
  {
  }

  /** The datagrams that get one, by their numbers. */
  function Answered(ds: seq<seq<byte>>): set<nat> { set k: nat | k < |ds| && Answerable(ds[k]) }

  lemma AnsweredGrows(ds: seq<seq<byte>>)
    requires ds != []
    ensures var n := |ds| - 1;
            Answered(ds) == Answered(ds[..n]) + (if Answerable(ds[n]) then {n} else {}) && n !in Answered(ds[..n])
  {
  }

  lemma {:induction false} RepliesCount(ds: seq<seq<byte>>)
    ensures |Replies(ds)| == |Answered(ds)|
  {
    hide Answerable, Reply;
    if ds == [] {
      assert Answered(ds) == {};
    } else {
      hide Answered;
      RepliesCount(ds[..|ds| - 1]);
      AnsweredGrows(ds);
      ReplyIff(ds[|ds| - 1]);
    }
  }

  /** As many responses are sent as datagrams are answerable, and each stands at the place given by how many
      of those before it are. */
  lemma {:induction false} RepliesAt(ds: seq<seq<byte>>, k: nat)
    requires k < |ds| && Answerable(ds[k])
    ensures |Replies(ds)| == |Answered(ds)| && |Answered(ds[..k])| < |Replies(ds)|
    ensures Reply(Received(ds[k])) == Some(Replies(ds)[|Answered(ds[..k])|])
  {
    hide Answerable, Reply, Answered;
    var n := |ds| - 1;
    RepliesCount(ds);
    RepliesCount(ds[..k]);
    ReplyIff(ds[k]);
    if k < n {
      RepliesAt(ds[..n], k);
      assert ds[..n][..k] == ds[..k];
    }
  }

  /** dns_task, until the socket fails; each turn has a buffer with arbitrary contents. */
  method DnsTask(datagrams: seq<seq<byte>>) returns (sent: seq<seq<byte>>)
    ensures sent == Replies(datagrams)
    ensures |sent| == |Answered(datagrams)|
    ensures forall k: nat :: k < |datagrams| && Answerable(datagrams[k]) ==>
              && |Answered(datagrams[..k])| < |sent|
              && Reply(Received(datagrams[k])) == Some(sent[|Answered(datagrams[..k])|])
  {
    hide Answerable, Reply, Answered;
    sent := [];
    for n := 0 to |datagrams|
      invariant sent == Replies(datagrams[..n])
    {
      var d := datagrams[n];
      var rx := new byte[RX_SIZE];
      var received := if |d| < RX_SIZE then |d| else RX_SIZE - 1;
      forall i | 0 <= i < received {
        rx[i] := d[i];
      }
      assert rx[..received] == Received(d);
      var send, len := Respond(rx, received);
      if send {
        sent := sent + [rx[..len]];
      }
      assert datagrams[..n + 1][..n] == datagrams[..n];
    }
    assert datagrams[..|datagrams|] == datagrams;
    RepliesCount(datagrams);
    forall k: nat | k < |datagrams| && Answerable(datagrams[k])
      ensures |Answered(datagrams[..k])| < |sent|
              && Reply(Received(datagrams[k])) == Some(sent[|Answered(datagrams[..k])|])
    {
      RepliesAt(datagrams, k);
    }
  }

  // ---------- Queries ----------

  function EncodeName(name: seq<Label>): seq<byte> {
    if name == [] then [0] else [|name[0]|] + name[0] + EncodeName(name[1..])
  }

  function Two(n: word): seq<byte> { [n / 256, n % 256] }

  function EncodeQuestions(qs: seq<Question>): (r: seq<byte>)
    ensures qs != [] ==> r != []
  {
    if qs == [] then []
    else EncodeName(qs[0].name) + (Two(qs[0].qtype) + Two(qs[0].qclass)) + EncodeQuestions(qs[1..])
  }

  /** A query: any header with QR clear that announces the questions that follow it. */
  predicate IsQuery(q: seq<byte>, qs: seq<Question>) {
    && |q| >= HEADER_LEN && q[2] < 128 && |qs| < 0x1_0000 && U16At(q, 4) as int == |qs|
    && q[HEADER_LEN..] == EncodeQuestions(qs)
  }

  /** `piece` stands in `m` at `pos`. */
  predicate At(m: seq<byte>, pos: nat, piece: seq<byte>) {
    pos + |piece| <= |m| && forall k :: 0 <= k < |piece| ==> piece[k] == m[pos + k]
  }

  lemma AtParts(m: seq<byte>, pos: nat, a: seq<byte>, b: seq<byte>)
    requires At(m, pos, a + b)
    ensures At(m, pos, a) && At(m, pos + |a|, b)
  {
    forall k | 0 <= k < |a| ensures a[k] == m[pos + k] {
      assert (a + b)[k] == a[k];
    }
    forall k | 0 <= k < |b| ensures b[k] == m[pos + |a| + k] {
      assert (a + b)[|a| + k] == b[k];
    }
  }

  lemma {:induction false} NameIsRead(m: seq<byte>, pos: nat, name: seq<Label>, limit: nat)
    requires At(m, pos, EncodeName(name))
    ensures ReadName(m, pos, limit) == Some((name, pos + |EncodeName(name)|))
    decreases name
  {
    assert EncodeName(name)[0] == m[pos];
    if name != [] {
      var first, rest := name[0], EncodeName(name[1..]);
      AtParts(m, pos, [|first|] + first, rest);
      AtParts(m, pos, [|first|], first);
      NameIsRead(m, pos + 1 + |first|, name[1..], limit);
      assert m[pos + 1..pos + 1 + |first|] == first;
      assert name == [first] + name[1..];
    }
  }

  lemma WordIsRead(m: seq<byte>, pos: nat, n: word)
    requires At(m, pos, Two(n))
    ensures U16At(m, pos) == n
  {
    assert Two(n)[0] == m[pos] && Two(n)[1] == m[pos + 1];
  }

  lemma {:induction false} QuestionsAreRead(m: seq<byte>, pos: nat, qs: seq<Question>)
    requires At(m, pos, EncodeQuestions(qs))
    ensures ReadQuestions(m, pos, |qs|) == Some((qs, pos + |EncodeQuestions(qs)|))
    decreases qs
  {
    hide ReadName, U16At;
    if qs != [] {
      var q, name := qs[0], EncodeName(qs[0].name);
      var p := pos + |name|;
      AtParts(m, pos, name + (Two(q.qtype) + Two(q.qclass)), EncodeQuestions(qs[1..]));
      AtParts(m, pos, name, Two(q.qtype) + Two(q.qclass));
      AtParts(m, p, Two(q.qtype), Two(q.qclass));
      NameIsRead(m, pos, q.name, pos);
      WordIsRead(m, p, q.qtype);
      WordIsRead(m, p + 2, q.qclass);
      QuestionsAreRead(m, p + 4, qs[1..]);
      assert qs == [q] + qs[1..];
    }
  }

  /** A query that announces no records reads as its header and questions. */
  lemma QueryIsRead(q: seq<byte>, qs: seq<Question>)
    requires IsQuery(q, qs) && q[6..HEADER_LEN] == [0, 0, 0, 0, 0, 0]
    ensures ReadMessage(q) == Some(Message(U16At(q, 0), FlagsOf(q[2], q[3]), qs, [], [], []))
  {
    assert At(q, HEADER_LEN, q[HEADER_LEN..]);
    QuestionsAreRead(q, HEADER_LEN, qs);
    assert forall i :: 6 <= i < 12 ==> q[i] == q[6..HEADER_LEN][i - 6];
  }

  const RESPONSE_FLAGS := Flags(true, 0, false, false, true, true, 0)

  /** The answer of every response, for the name that was asked first. */
  function AnswerFor(name: seq<Label>): Record { Record(name, 1, 1, 60, [192, 168, 4, 1]) }

  lemma TraceIsRead(m: seq<byte>, pos: nat, name: seq<Label>, next: nat)
    requires HEADER_LEN < pos && pos + |TRACE| == |m| && At(m, pos, TRACE)
    requires ReadName(m, HEADER_LEN, HEADER_LEN) == Some((name, next))
    ensures ReadRecords(m, pos, 1) == Some(([AnswerFor(name)], |m|))
  {
    assert TRACE == [0xC0, 0x0C] + [0, 1, 0, 1, 0, 0, 0, 0x3C, 0, 4, 192, 168, 4, 1];
    AtParts(m, pos, [0xC0, 0x0C], [0, 1, 0, 1, 0, 0, 0, 0x3C, 0, 4, 192, 168, 4, 1]);
    PointerIsRead(m, pos, name, next);
    FixedFieldsAreRead(m, pos + 2);
    NoRecords(m);
    OneRecord(m, pos, name);
  }

  lemma OneRecord(m: seq<byte>, pos: nat, name: seq<Label>)
    requires pos + 16 == |m| && ReadName(m, pos, pos) == Some((name, pos + 2))
    requires U16At(m, pos + 2) == 1 && U16At(m, pos + 4) == 1 && U16At(m, pos + 6) == 0 && U16At(m, pos + 8) == 60
    requires U16At(m, pos + 10) == 4 && m[pos + 12..|m|] == [192, 168, 4, 1]
    requires ReadRecords(m, |m|, 0) == Some(([], |m|))
    ensures ReadRecords(m, pos, 1) == Some(([AnswerFor(name)], |m|))
  {
    hide ReadName, U16At;
    assert [AnswerFor(name)] + [] == [AnswerFor(name)];
  }

  lemma PointerIsRead(m: seq<byte>, pos: nat, name: seq<Label>, next: nat)
    requires HEADER_LEN < pos && At(m, pos, [0xC0, 0x0C])
    requires ReadName(m, HEADER_LEN, HEADER_LEN) == Some((name, next))
    ensures ReadName(m, pos, pos) == Some((name, pos + 2))
  {
    assert [0xC0, 0x0C][0] == m[pos] && [0xC0, 0x0C][1] == m[pos + 1];
  }

  lemma FixedFieldsAreRead(m: seq<byte>, p: nat)
    requires At(m, p, [0, 1, 0, 1, 0, 0, 0, 0x3C, 0, 4, 192, 168, 4, 1])
    ensures U16At(m, p) == 1 && U16At(m, p + 2) == 1 && U16At(m, p + 4) == 0 && U16At(m, p + 6) == 60
    ensures U16At(m, p + 8) == 4 && m[p + 10..p + 14] == [192, 168, 4, 1]
  {
    var f := [0, 1, 0, 1, 0, 0, 0, 0x3C, 0, 4, 192, 168, 4, 1];
    assert f[0] == m[p] && f[1] == m[p + 1] && f[2] == m[p + 2] && f[3] == m[p + 3] && f[4] == m[p + 4];
    assert f[5] == m[p + 5] && f[6] == m[p + 6] && f[7] == m[p + 7] && f[8] == m[p + 8] && f[9] == m[p + 9];
    assert f[10] == m[p + 10] && f[11] == m[p + 11] && f[12] == m[p + 12] && f[13] == m[p + 13];
  }

  /** The rewritten buffer is a correct response to every query made of a header and one or more questions
      with names written out, whatever its other header bits and counts say: same id, same questions,
      RCODE 0, and a single A record whose compressed name resolves to the name asked first. */
  lemma ReplyIsCorrect(q: seq<byte>, qs: seq<Question>)
    requires IsQuery(q, qs) && qs != [] && |q| <= RX_SIZE - |TRACE|
    ensures Reply(q).Some?
    ensures ReadMessage(Reply(q).value)
         == Some(Message(U16At(q, 0), RESPONSE_FLAGS, qs, [AnswerFor(qs[0].name)], [], []))
  {
    hide Reply, ReadName, ReadQuestions, ReadRecords, U16At, FlagsOf, At, EncodeQuestions, EncodeName;
    ReplyLayout(q, qs);
    var r := Reply(q).value;
    QuestionsAreRead(r, HEADER_LEN, qs);
    FirstName(r, qs);
    TraceIsRead(r, |q|, qs[0].name, HEADER_LEN + |EncodeName(qs[0].name)|);
    HeaderIsRead(r, q);
    NoRecords(r);
  }

  /** Read by the same reader, the response to a query without records has the query's id and questions, is
      marked as a response, and answers the question that is asked first. */
  lemma ReplyMatchesQuery(q: seq<byte>, qs: seq<Question>)
    requires IsQuery(q, qs) && qs != [] && |q| <= RX_SIZE - |TRACE| && q[6..HEADER_LEN] == [0, 0, 0, 0, 0, 0]
    ensures Reply(q).Some? && ReadMessage(q).Some? && ReadMessage(Reply(q).value).Some?
    ensures var asked, answered := ReadMessage(q).value, ReadMessage(Reply(q).value).value;
            && answered.id == asked.id && answered.questions == asked.questions
            && answered.flags.qr && !asked.flags.qr
            && answered.answers == [AnswerFor(asked.questions[0].name)]
  {
    hide Reply, ReadMessage, EncodeQuestions;
    QueryIsRead(q, qs);
    ReplyIsCorrect(q, qs);
  }

  lemma ReplyLayout(q: seq<byte>, qs: seq<Question>)
    requires IsQuery(q, qs) && qs != [] && |q| <= RX_SIZE - |TRACE|
    ensures Reply(q).Some?
    ensures var r := Reply(q).value;
            && |q| == HEADER_LEN + |EncodeQuestions(qs)| && |r| == |q| + |TRACE|
            && r[..HEADER_LEN] == ResponseHeader(q[..HEADER_LEN])
            && At(r, HEADER_LEN, EncodeQuestions(qs)) && At(r, |q|, TRACE)
  {
    var r := Reply(q).value;
    var h, code := ResponseHeader(q[..HEADER_LEN]), EncodeQuestions(qs);
    assert r == h + code + TRACE;
    assert At(r, 0, h + code + TRACE);
    AtParts(r, 0, h + code, TRACE);
    AtParts(r, 0, h, code);
  }

  lemma NoRecords(r: seq<byte>)
    ensures ReadRecords(r, |r|, 0) == Some(([], |r|))
  {
  }

  lemma FirstName(r: seq<byte>, qs: seq<Question>)
    requires qs != [] && At(r, HEADER_LEN, EncodeQuestions(qs))
    ensures ReadName(r, HEADER_LEN, HEADER_LEN) == Some((qs[0].name, HEADER_LEN + |EncodeName(qs[0].name)|))
  {
    var name, words := EncodeName(qs[0].name), Two(qs[0].qtype) + Two(qs[0].qclass);
    AtParts(r, HEADER_LEN, name + words, EncodeQuestions(qs[1..]));
    AtParts(r, HEADER_LEN, name, words);
    NameIsRead(r, HEADER_LEN, qs[0].name, HEADER_LEN);
  }

  lemma HeaderIsRead(r: seq<byte>, q: seq<byte>)
    requires |q| >= HEADER_LEN && |r| >= HEADER_LEN && r[..HEADER_LEN] == ResponseHeader(q[..HEADER_LEN])
    ensures U16At(r, 0) == U16At(q, 0) && U16At(r, 4) == U16At(q, 4)
    ensures U16At(r, 6) == 1 && U16At(r, 8) == 0 && U16At(r, 10) == 0
    ensures FlagsOf(r[2], r[3]) == RESPONSE_FLAGS
  {
    assert forall i :: 0 <= i < HEADER_LEN ==> r[i] == r[..HEADER_LEN][i];
  }

  // ---------- Queries with more than questions ----------

  /** A header with QR clear that announces `qs`, the questions, and whatever else the query carries. */
  ghost predicate IsQueryWith(q: seq<byte>, h: seq<byte>, qs: seq<Question>, rest: seq<byte>) {
    && |h| == HEADER_LEN && h[2] < 128 && |qs| < 0x1_0000 && U16At(h, 4) as int == |qs|
    && q == h + EncodeQuestions(qs) + rest
  }

  /** A name that is read from `pos` and ends in the pointer at `e` has a label more than what the pointer
      leads to, unless it is the pointer. */
  lemma {:induction false} NameUpToPointer(m: seq<byte>, pos: nat, limit: nat, e: nat, name: seq<Label>,
                                           target: seq<Label>, next: nat)
    requires e + 2 <= |m| && m[e] == 0xC0 && m[e + 1] == 0x0C
    requires ReadName(m, HEADER_LEN, HEADER_LEN) == Some((target, next))
    requires ReadName(m, pos, limit) == Some((name, e + 2))
    ensures pos <= e && (pos < e ==> |name| > |target|) && |name| >= |target|
    decreases |m| - pos
  {
    if pos < |m| && 0 < m[pos] < 64 {
      var end := pos + 1 + m[pos];
      var (labels, after) := ReadName(m, end, limit).value;
      NameUpToPointer(m, end, limit, e, labels, target, next);
    }
  }

  lemma RewrittenWith(h: seq<byte>, code: seq<byte>, rest: seq<byte>)
    requires |h| == HEADER_LEN && h[2] < 128 && code != [] && HEADER_LEN + |code| + |rest| <= RX_SIZE - |TRACE|
    ensures Reply(h + code + rest) == Some(ResponseHeader(h) + (code + (rest + TRACE)))
    ensures (ResponseHeader(h) + (code + (rest + TRACE)))[..HEADER_LEN] == ResponseHeader(h)
  {
    var q := h + code + rest;
    assert q[..HEADER_LEN] == h && q[HEADER_LEN..] == code + rest;
    assert Rewritten(q) + TRACE == ResponseHeader(h) + (code + (rest + TRACE));
  }

  lemma AtStart(m: seq<byte>)
    ensures At(m, 0, m)
  {
  }

  lemma LayoutWith(q: seq<byte>, h: seq<byte>, qs: seq<Question>, rest: seq<byte>)
    requires IsQueryWith(q, h, qs, rest) && qs != [] && |q| <= RX_SIZE - |TRACE|
    ensures Reply(q).Some?
    ensures var r := Reply(q).value;
            && |q| == HEADER_LEN + |EncodeQuestions(qs)| + |rest| && |r| == |q| + |TRACE|
            && r[..HEADER_LEN] == ResponseHeader(h)
            && At(r, HEADER_LEN, EncodeQuestions(qs)) && At(r, |q|, TRACE)
  {
    hide EncodeQuestions, At;
    var code, rh := EncodeQuestions(qs), ResponseHeader(h);
    RewrittenWith(h, code, rest);
    var r := rh + (code + (rest + TRACE));
    AtStart(r);
    AtParts(r, 0, rh, code + (rest + TRACE));
    AtParts(r, HEADER_LEN, code, rest + TRACE);
    AtParts(r, HEADER_LEN + |code|, rest, TRACE);
  }

  /** A single record that has the data of the answer and ends the message has the trace's pointer in front
      of its fixed fields. */
  lemma RecordAtEnd(m: seq<byte>, pos: nat, name: seq<Label>)
    requires ReadRecords(m, pos, 1) == Some(([AnswerFor(name)], |m|))
    ensures |m| >= 14 && ReadName(m, pos, pos) == Some((name, |m| - 14))
  {
    hide ReadName, U16At;
    var (first, p) := ReadName(m, pos, pos).value;
    var end := p + 10 + U16At(m, p + 8);
    var (more, next) := ReadRecords(m, end, 0).value;
    var ttl := 0x1_0000 * U16At(m, p + 4) + U16At(m, p + 6);
    var record := Record(first, U16At(m, p), U16At(m, p + 2), ttl, m[p + 10..end]);
    assert [record] + more == [AnswerFor(name)];
    assert ([record] + more)[0] == record;
    assert |m[p + 10..end]| == 4;
  }

  /** What the whole message reads as fixes what its one record reads as. */
  lemma OneAnswerIsRead(r: seq<byte>, qs: seq<Question>, pos: nat, answer: Record, id: nat)
    requires |r| >= HEADER_LEN && U16At(r, 4) as int == |qs| && U16At(r, 6) == 1
    requires U16At(r, 8) == 0 && U16At(r, 10) == 0
    requires ReadQuestions(r, HEADER_LEN, |qs|) == Some((qs, pos))
    requires ReadMessage(r) == Some(Message(id, RESPONSE_FLAGS, qs, [answer], [], []))
    ensures ReadRecords(r, pos, 1) == Some(([answer], |r|))
  {
    hide ReadName, ReadQuestions, U16At, FlagsOf;
  }

  /** The exact reach: with anything after the questions, such as an EDNS record, the answer is appended
      behind it and the response does not read as intended. */
  lemma ReplyIsCorrectExactly(q: seq<byte>, h: seq<byte>, qs: seq<Question>, rest: seq<byte>)
    requires IsQueryWith(q, h, qs, rest) && qs != [] && |q| <= RX_SIZE - |TRACE|
    ensures Reply(q).Some?
    ensures ReadMessage(Reply(q).value)
            == Some(Message(U16At(h, 0), RESPONSE_FLAGS, qs, [AnswerFor(qs[0].name)], [], []))
            <==> rest == []
  {
    hide Reply, ReadMessage, ReadName, ReadQuestions, ReadRecords, FlagsOf, EncodeQuestions, EncodeName;
    LayoutWith(q, h, qs, rest);
    var r, name := Reply(q).value, qs[0].name;
    if rest == [] {
      assert q == h + EncodeQuestions(qs);
      assert q[HEADER_LEN..] == EncodeQuestions(qs) && q[..HEADER_LEN] == h;
      ReplyIsCorrect(q, qs);
    } else if ReadMessage(r) == Some(Message(U16At(h, 0), RESPONSE_FLAGS, qs, [AnswerFor(name)], [], [])) {
      var pos := HEADER_LEN + |EncodeQuestions(qs)|;
      assert h[..HEADER_LEN] == h;
      HeaderIsRead(r, h);
      QuestionsAreRead(r, HEADER_LEN, qs);
      FirstName(r, qs);
      OneAnswerIsRead(r, qs, pos, AnswerFor(name), U16At(h, 0));
      RecordAtEnd(r, pos, name);
      assert TRACE[0] == r[|q|] && TRACE[1] == r[|q| + 1];
      NameUpToPointer(r, pos, pos, |q|, name, name, HEADER_LEN + |EncodeName(name)|);
    }
  }
}
