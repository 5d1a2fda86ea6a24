/** The DNS client: laying out the request, whose length counter has eight bits, and reading the reply. */
module DnsPacket {
  import opened Octets
  import opened Wrappers
  import opened Sequences
  import opened DnsNames
  import opened DnsQuestion

  // ---------------------------------------------------------------------------------------------
  // The message on the wire, sections 4.1.1 to 4.1.3 of RFC 1035
  // ---------------------------------------------------------------------------------------------

  /** The twelve header bytes, counts in network order. */
  type Header = h: seq<Byte> | |h| == 12 witness seq(12, i => 0)

  function QuestionsCount(h: Header): (n: nat)
    ensures n == 0x100 * (h[4] as int) + h[5]
  {
    Host16(h[4..6])
  }

  function AnswersCount(h: Header): (n: nat)
    ensures n == 0x100 * (h[6] as int) + h[7]
  {
    Host16(h[6..8])
  }

  /** A question: an encoded name without its zero byte, and type and class. */
  datatype Asked = Asked(name: seq<Byte>, flags: seq<Byte>)

  predicate Proper(q: Asked) { NoZero(q.name) && |q.flags| == 4 }

  function QuestionBytes(q: Asked): (b: seq<Byte>) { q.name + [0] + q.flags }

  function QuestionsBytes(qs: seq<Asked>): seq<Byte> {
    if qs == [] then [] else QuestionsBytes(qs[..|qs| - 1]) + QuestionBytes(qs[|qs| - 1])
  }

  /** A resource record whose name is a two-byte pointer. */
  datatype Record = Record(name: seq<Byte>, kind: nat, class_: nat, ttl: seq<Byte>, data: seq<Byte>)

  predicate Sound(r: Record) {
    && |r.name| == 2 && r.kind < 0x1_0000 && r.class_ < 0x1_0000 && |r.ttl| == 4 && |r.data| < 0x1_0000
    && (r.kind == 1 ==> |r.data| >= 4)
  }

  /** Name, type, class, time to live and data length. */
  function RecordHead(r: Record): (b: seq<Byte>)
    requires Sound(r)
    ensures |b| == 12 && b[..2] == r.name && b[6..10] == r.ttl
    ensures 0x100 * (b[2] as int) + b[3] == r.kind && 0x100 * (b[4] as int) + b[5] == r.class_
    ensures 0x100 * (b[10] as int) + b[11] == |r.data|
  {
    r.name + Net16(r.kind) + Net16(r.class_) + r.ttl + Net16(|r.data|)
  }

  function RecordsBytes(rs: seq<Record>): seq<Byte>
    requires forall r <- rs :: Sound(r)
  {
    if rs == [] then [] else RecordHead(rs[0]) + rs[0].data + RecordsBytes(rs[1..])
  }

  // ---------------------------------------------------------------------------------------------
  // The request
  // ---------------------------------------------------------------------------------------------

  /** The eight-bit offset behind the first questions. */
  function Elapsed(qs: seq<Asked>): nat {
    (12 + |QuestionsBytes(qs)|) % 0x100
  }

  /** All that is written for question `k` lies inside a buffer of `size` bytes. */
  ghost predicate Room(qs: seq<Asked>, k: nat, size: nat)
    requires k < |qs|
  {
    var at := Elapsed(qs[..k]);
    at + |qs[k].name| + 1 <= size && (at + |qs[k].name| + 1) % 0x100 + 4 <= size
  }

  /** `memcpy`. */
  method Copy(buffer: array<Byte>, at: nat, bytes: seq<Byte>)
    requires at + |bytes| <= buffer.Length
    modifies buffer
    ensures var before := old(buffer[..]); buffer[..] == before[..at] + bytes + before[at + |bytes|..]
  {
    ghost var before := buffer[..];
    for i := 0 to |bytes|
      invariant forall j :: 0 <= j < buffer.Length ==>
                  buffer[j] == if at <= j < at + i then bytes[j - at] else before[j]
    {
      buffer[at + i] := bytes[i];
    }
  }

  /** `represent_dns_packet`: what is sent is the packet exactly when the packet has at most 255 bytes,
      because the length is counted in eight bits. */
  method Represent(header: Header, questions: seq<Asked>, buffer: array<Byte>) returns (size: nat)
    requires |questions| == QuestionsCount(header) && 12 <= buffer.Length
    requires forall q <- questions :: Proper(q)
    requires forall k :: 0 <= k < |questions| ==> Room(questions, k, buffer.Length)
    modifies buffer
    ensures var packet := header + QuestionsBytes(questions);
            && size == |packet| % 0x100 && size <= buffer.Length
            && (buffer[..size] == packet <==> |packet| <= 255)
            && (|packet| <= 255 ==> buffer[size..] == old(buffer[size..]))
  {
    hide QuestionsBytes, QuestionBytes, Elapsed, Proper, NoZero, Host16, LaidOut, Short;
    size := 0;
    Copy(buffer, 0, header);
    size := size + 12;
    ghost var original := old(buffer[..]);
    StartLayingOut(buffer[..], header, questions, original);
    for i := 0 to QuestionsCount(header)
      invariant size == Elapsed(questions[..i]) && size <= buffer.Length
      invariant LaidOut(buffer[..], header, questions[..i], original)
    {
      ghost var before, at := buffer[..], size;
      assert questions[i] in questions;
      OneMoreQuestion(questions, i);
      assert Room(questions, i, buffer.Length);
      size := AddQuestion(questions[i], buffer, size);
      QuestionAdded(header, questions, i, original, before, buffer[..], at);
    }
    AllQuestions(header, questions);
    EndLayingOut(buffer[..], header, questions, original);
  }

  /** The packet so far, when it is short, and behind it what was in the buffer. */
  ghost predicate LaidOut(cells: seq<Byte>, header: Header, qs: seq<Asked>, original: seq<Byte>) {
    && |cells| == |original|
    && (Short(qs) ==>
         var packet := header + QuestionsBytes(qs);
         |packet| <= |original| && cells == packet + original[|packet|..])
  }

  lemma StartLayingOut(cells: seq<Byte>, header: Header, qs: seq<Asked>, original: seq<Byte>)
    requires 12 <= |original| && cells == original[..0] + header + original[12..]
    ensures LaidOut(cells, header, qs[..0], original) && Elapsed(qs[..0]) == 12
  {
    NoQuestions(qs);
    assert header + [] == header;
  }

  lemma EndLayingOut(cells: seq<Byte>, header: Header, qs: seq<Asked>, original: seq<Byte>)
    requires LaidOut(cells, header, qs, original)
    ensures var packet := header + QuestionsBytes(qs);
            Short(qs) ==> |packet| <= |cells| && cells[..|packet|] == packet && cells[|packet|..] == original[|packet|..]
  {
  }

  /** One question, and the offset behind it. */
  method AddQuestion(q: Asked, buffer: array<Byte>, at: nat) returns (size: nat)
    requires |q.flags| == 4 && at + |q.name| + 1 <= buffer.Length && (at + |q.name| + 1) % 0x100 + 4 <= buffer.Length
    modifies buffer
    ensures size == ((at + (|q.name| + 1)) % 0x100 + 4) % 0x100
    ensures at + |q.name| + 5 <= 255 ==>
              at + |q.name| + 5 <= buffer.Length
              && var before := old(buffer[..]);
                 buffer[..] == before[..at] + QuestionBytes(q) + before[at + |q.name| + 5..]
  {
    hide QuestionBytes;
    ghost var before := buffer[..];
    Copy(buffer, at, q.name + [0]);
    ghost var between := buffer[..];
    size := (at + (|q.name| + 1)) % 0x100;
    Copy(buffer, size, q.flags);
    QuestionCopied(q, before, between, buffer[..], at, size);
    size := (size + 4) % 0x100;
  }

  lemma QuestionCopied(q: Asked, before: seq<Byte>, between: seq<Byte>, after: seq<Byte>, at: nat, size: nat)
    requires |q.flags| == 4 && |between| == |before| && size == (at + (|q.name| + 1)) % 0x100 && size + 4 <= |before|
    requires at + |q.name| + 1 <= |before| && between == before[..at] + (q.name + [0]) + before[at + (|q.name| + 1)..]
    requires after == between[..size] + q.flags + between[size + 4..]
    ensures at + |q.name| + 5 <= 255 ==>
              at + |q.name| + 5 <= |before| && after == before[..at] + QuestionBytes(q) + before[at + |q.name| + 5..]
  {
    if at + |q.name| + 5 <= 255 {
      TwoCopies(before, between, after, at, q.name + [0], q.flags);
    }
  }

  /** Two pieces copied one behind the other are copied at once. */
  lemma TwoCopies(before: seq<Byte>, between: seq<Byte>, after: seq<Byte>, at: nat, x: seq<Byte>, y: seq<Byte>)
    requires at + |x| + |y| <= |before|
    requires between == before[..at] + x + before[at + |x|..]
    requires after == between[..at + |x|] + y + between[at + |x| + |y|..]
    ensures after == before[..at] + (x + y) + before[at + |x| + |y|..]
  {
    assert between[..at + |x|] == before[..at] + x;
    assert between[at + |x| + |y|..] == before[at + |x| + |y|..];
  }

  lemma QuestionAdded(header: Header, qs: seq<Asked>, i: nat, original: seq<Byte>,
                      before: seq<Byte>, after: seq<Byte>, at: nat)
    requires i < |qs| && Proper(qs[i]) && LaidOut(before, header, qs[..i], original) && |after| == |before|
    requires at == Elapsed(qs[..i])
    requires var n := |qs[i].name| + 5;
             at + n <= 255 ==>
               at + n <= |before| && after == before[..at] + QuestionBytes(qs[i]) + before[at + n..]
    ensures LaidOut(after, header, qs[..i + 1], original)
  {
    hide QuestionsBytes, QuestionBytes, Elapsed, Proper;
    OneMoreQuestion(qs, i);
    if Short(qs[..i + 1]) {
      var done, q := header + QuestionsBytes(qs[..i]), QuestionBytes(qs[i]);
      Regroup(header, QuestionsBytes(qs[..i]), q);
      assert before == done + original[at..];
      assert before[..at] == done && before[at + |q|..] == original[at + |q|..];
    }
  }

  /** The packet with these questions has at most 255 bytes. */
  ghost predicate Short(qs: seq<Asked>) {
    12 + |QuestionsBytes(qs)| <= 255
  }

  lemma NoQuestions(qs: seq<Asked>)
    ensures QuestionsBytes(qs[..0]) == [] && Elapsed(qs[..0]) == 12
  {
  }

  lemma AllQuestions(header: Header, qs: seq<Asked>)
    ensures qs[..|qs|] == qs
    ensures Elapsed(qs) == |header + QuestionsBytes(qs)| % 0x100
    ensures Short(qs) <==> |header + QuestionsBytes(qs)| <= 255
  {
  }

  lemma OneMoreQuestion(qs: seq<Asked>, i: nat)
    requires i < |qs| && Proper(qs[i])
    ensures QuestionsBytes(qs[..i + 1]) == QuestionsBytes(qs[..i]) + QuestionBytes(qs[i])
    ensures |qs[i].flags| == 4 && |QuestionBytes(qs[i])| == |qs[i].name| + 5
    ensures ((Elapsed(qs[..i]) + (|qs[i].name| + 1)) % 0x100 + 4) % 0x100 == Elapsed(qs[..i + 1])
    ensures Short(qs[..i + 1]) ==>
              && Short(qs[..i])
              && Elapsed(qs[..i]) == 12 + |QuestionsBytes(qs[..i])|
              && Elapsed(qs[..i + 1]) == Elapsed(qs[..i]) + |qs[i].name| + 5
  {
    assert qs[..i + 1][..i] == qs[..i];
    var n := 12 + |QuestionsBytes(qs[..i])|;
    assert |QuestionsBytes(qs[..i + 1])| == |QuestionsBytes(qs[..i])| + |qs[i].name| + 5;
    WrapTwice(n, |qs[i].name| + 1);
  }

  lemma WrapTwice(n: nat, k: nat)
    ensures ((n % 0x100 + k) % 0x100 + 4) % 0x100 == (n + k + 4) % 0x100
  {
  }

  // ---------------------------------------------------------------------------------------------
  // The reply
  // ---------------------------------------------------------------------------------------------

  /** The sixteen bytes of an answer as the program cuts them out of the reply. */
  datatype Answer = Answer(name: seq<Byte>, kind: nat, class_: nat, ttl: seq<Byte>, dataLength: nat, ip: seq<Byte>)

  function AnswerOf(b: seq<Byte>): (a: Answer)
    requires |b| == 16
    ensures a.kind == 0x100 * (b[2] as int) + b[3] && a.class_ == 0x100 * (b[4] as int) + b[5]
    ensures a.dataLength == 0x100 * (b[10] as int) + b[11]
    ensures a.name == b[0..2] && a.ttl == b[6..10] && a.ip == b[12..16]
  {
    Answer(b[..2], Host16(b[2..4]), Host16(b[4..6]), b[6..10], Host16(b[10..12]), b[12..])
  }

  /** The answer shows the record; of its data only the first four bytes. */
  predicate ShowsRecord(a: Answer, r: Record) {
    && a.name == r.name && a.kind == r.kind && a.class_ == r.class_ && a.ttl == r.ttl && a.dataLength == |r.data|
    && (|r.data| >= 4 ==> a.ip == r.data[..4])
  }

  /** Record `k` is the first one that holds an address. */
  predicate FirstAddress(rs: seq<Record>, k: nat)
  {
    k < |rs| && rs[k].kind == 1 && forall j :: 0 <= j < k ==> rs[j].kind != 1
  }

  lemma CutRecord(r: Record, rest: seq<Byte>)
    requires Sound(r) && |rest| >= 4
    ensures ShowsRecord(AnswerOf((RecordHead(r) + r.data + rest)[..16]), r)
  {
    var first := (r.data + rest)[..4];
    assert (RecordHead(r) + r.data + rest)[..16] == RecordHead(r) + first;
    assert |r.data| >= 4 ==> first == r.data[..4];
    CutFields(r.name, Net16(r.kind), Net16(r.class_), r.ttl, Net16(|r.data|), first);
  }

  lemma CutFields(name: seq<Byte>, kind: seq<Byte>, class_: seq<Byte>, ttl: seq<Byte>, len: seq<Byte>, first: seq<Byte>)
    requires |name| == |kind| == |class_| == |len| == 2 && |ttl| == |first| == 4
    ensures AnswerOf(name + kind + class_ + ttl + len + first) ==
            Answer(name, Host16(kind), Host16(class_), ttl, Host16(len), first)
  {
    hide Host16;
    var b := name + kind + class_ + ttl + len + first;
    assert b[..2] == name;
    assert b[2..4] == kind;
    assert b[4..6] == class_;
    assert b[6..10] == ttl;
    assert b[10..12] == len;
    assert b[12..] == first;
  }

  /** A question stands in the message behind those before it. */
  lemma {:induction false} QuestionStands(qs: seq<Asked>, i: nat) returns (more: seq<Byte>)
    requires i < |qs|
    ensures QuestionsBytes(qs) == QuestionsBytes(qs[..i]) + QuestionBytes(qs[i]) + more
  {
    var n := |qs| - 1;
    if i == n {
      more := [];
    } else {
      var between := QuestionStands(qs[..n], i);
      assert qs[..n][..i] == qs[..i];
      more := between + QuestionBytes(qs[n]);
    }
  }

  method StrLenAt(buffer: seq<Byte>, from: nat) returns (n: nat)
    requires from <= |buffer| && |UpToZero(buffer[from..])| < |buffer[from..]|
    ensures n == |UpToZero(buffer[from..])|
  {
    var s := buffer[from..];
    n := 0;
    ghost var seen := UpToZero(s);
    forall j | 0 <= j < |seen| ensures s[j] != 0 {
      assert seen[j] in seen;
    }
    while s[n] != 0
      invariant n <= |seen|
      decreases |seen| - n
    {
      n := n + 1;
    }
  }

  /** A well-formed reply with the given sections, in a buffer that goes on behind it. */
  ghost predicate IsReply(buffer: seq<Byte>, qs: seq<Asked>, rs: seq<Record>, tail: seq<Byte>) {
    && 12 <= |buffer| && |tail| >= 4
    && (forall q <- qs :: Proper(q)) && (forall r <- rs :: Sound(r))
    && buffer == buffer[..12] + QuestionsBytes(qs) + RecordsBytes(rs) + tail
    && 0x100 * (buffer[4] as int) + buffer[5] == |qs| && 0x100 * (buffer[6] as int) + buffer[7] == |rs|
  }

  /** Questions and records lie in the message in their order, each behind those before it. */
  lemma {:induction false} SectionsInOrder(qs: seq<Asked>, q: Asked, rs: seq<Record>, r: Record, more: seq<Record>)
    requires Sound(r) && (forall s <- rs :: Sound(s)) && (forall s <- more :: Sound(s))
    ensures QuestionsBytes(qs + [q]) == QuestionsBytes(qs) + q.name + [0] + q.flags
    ensures RecordsBytes(rs + [r] + more) == RecordsBytes(rs) + RecordHead(r) + r.data + RecordsBytes(more)
    decreases |rs|
  {
    assert (qs + [q])[..|qs|] == qs;
    if rs == [] {
      assert rs + [r] + more == [r] + more && ([r] + more)[1..] == more;
    } else {
      assert (rs + [r] + more)[1..] == rs[1..] + [r] + more;
      assert rs[0] in rs;
      SectionsInOrder(qs, q, rs[1..], r, more);
    }
  }

  /** The program finds the end of each question with `strlen`. */
  lemma QuestionEnds(buffer: seq<Byte>, qs: seq<Asked>, rs: seq<Record>, tail: seq<Byte>, i: nat)
    requires IsReply(buffer, qs, rs, tail) && i < |qs|
    ensures var at := 12 + |QuestionsBytes(qs[..i])|;
            && at + |qs[i].name| < |buffer| && UpToZero(buffer[at..]) == qs[i].name
            && 12 + |QuestionsBytes(qs[..i + 1])| == at + |qs[i].name| + 5
  {
    hide QuestionsBytes, RecordsBytes, UpToZero;
    var q, at := qs[i], 12 + |QuestionsBytes(qs[..i])|;
    assert q in qs;
    var more := QuestionStands(qs, i);
    OneMoreQuestion(qs, i);
    var rest := [0] + q.flags + more + RecordsBytes(rs) + tail;
    assert buffer == buffer[..12] + QuestionsBytes(qs[..i]) + (q.name + rest);
    assert buffer[at..] == q.name + rest;
    UpToZeroIs(q.name, rest);
  }

  lemma BehindQuestions(buffer: seq<Byte>, qs: seq<Asked>, rs: seq<Record>, tail: seq<Byte>)
    requires IsReply(buffer, qs, rs, tail)
    ensures var at := 12 + |QuestionsBytes(qs)|; at <= |buffer| && buffer[at..] == RecordsBytes(rs) + tail
  {
    hide QuestionsBytes, RecordsBytes;
    var at := 12 + |QuestionsBytes(qs)|;
    assert buffer == (buffer[..12] + QuestionsBytes(qs)) + (RecordsBytes(rs) + tail);
    assert |buffer[..12] + QuestionsBytes(qs)| == at;
  }

  lemma NextRecord(rs: seq<Record>, i: nat)
    requires i < |rs| && forall r <- rs :: Sound(r)
    ensures Sound(rs[i])
    ensures RecordsBytes(rs[i..]) == RecordHead(rs[i]) + rs[i].data + RecordsBytes(rs[i + 1..])
  {
    assert rs[i..][1..] == rs[i + 1..];
    assert rs[i] in rs;
  }

  /** `parse_dns_packet`: the strides over questions and records hit the start of every record. */
  method Parse(buffer: seq<Byte>, answers: array<Answer>, ghost qs: seq<Asked>, ghost rs: seq<Record>,
               ghost tail: seq<Byte>) returns (header: Header)
    requires IsReply(buffer, qs, rs, tail) && |rs| <= answers.Length
    modifies answers
    ensures header == buffer[..12]
    ensures forall k :: 0 <= k < |rs| ==> ShowsRecord(answers[k], rs[k])
    ensures forall k :: |rs| <= k < answers.Length ==> answers[k] == old(answers[k])
  {
    hide QuestionsBytes, RecordsBytes, UpToZero;
    var elapsed := 0;
    header := buffer[..12];
    elapsed := elapsed + 12;
    NoQuestions(qs);
    for i := 0 to QuestionsCount(header)
      invariant elapsed == 12 + |QuestionsBytes(qs[..i])|
      modifies {}
    {
      QuestionEnds(buffer, qs, rs, tail, i);
      var len := StrLenAt(buffer, elapsed);
      elapsed := elapsed + (len + 1);
      elapsed := elapsed + 4;
    }
    assert qs[..|qs|] == qs && rs[0..] == rs;
    BehindQuestions(buffer, qs, rs, tail);
    for i := 0 to AnswersCount(header)
      invariant 12 <= elapsed <= |buffer| && buffer[elapsed..] == RecordsBytes(rs[i..]) + tail
      invariant forall k :: 0 <= k < i ==> ShowsRecord(answers[k], rs[k])
      invariant forall k :: i <= k < answers.Length ==> answers[k] == old(answers[k])
    {
      ghost var r, rest := rs[i], RecordsBytes(rs[i + 1..]) + tail;
      NextRecord(rs, i);
      assert buffer[elapsed..] == RecordHead(r) + r.data + rest;
      CutRecord(r, rest);
      assert buffer[elapsed..][..16] == buffer[elapsed..elapsed + 16];
      answers[i] := AnswerOf(buffer[elapsed..elapsed + 16]);
      ghost var at := elapsed;
      elapsed := elapsed + (answers[i].dataLength - 4);
      elapsed := elapsed + 16;
      assert buffer[elapsed..] == buffer[at..][12 + |r.data|..];
    }
  }

  /** `get_ip`. */
  method GetIp(header: Header, answers: array<Answer>, ghost rs: seq<Record>) returns (ip: seq<Byte>)
    requires 0x100 * (header[6] as int) + header[7] == |rs| <= answers.Length
    requires forall r <- rs :: Sound(r)
    requires forall k :: 0 <= k < |rs| ==> ShowsRecord(answers[k], rs[k])
    ensures forall k: nat :: FirstAddress(rs, k) ==> Sound(rs[k]) && ip == rs[k].data[..4]
    ensures (forall r <- rs :: r.kind != 1) ==> ip == [0, 0, 0, 0]
  {
    for i := 0 to AnswersCount(header)
      invariant forall j :: 0 <= j < i ==> rs[j].kind != 1
    {
      assert rs[i] in rs;
      assert ShowsRecord(answers[i], rs[i]);
      if answers[i].kind == 1 {
        assert forall k: nat :: FirstAddress(rs, k) ==> k == i;
        return answers[i].ip;
      }
    }
    return [0, 0, 0, 0];
  }

  // ---------------------------------------------------------------------------------------------
  // Resolving
  // ---------------------------------------------------------------------------------------------

  /** `build_dns_request`: recursion desired, and the number of questions. */
  method BuildDnsRequest(questions: nat) returns (header: Header)
    requires questions < 0x1_0000
    ensures header == [0, 0, 1, 0, questions / 0x100, questions % 0x100, 0, 0, 0, 0, 0, 0]
  {
    header := Zeros(12);
    header := header[2 := 1];
    header := header[4 := questions / 0x100][5 := questions % 0x100];
  }

  /** The request half of `resolve_domain`: of what is sent, the part behind the header reads as the labels
      of the domain, type 1 and class 1, exactly when the standard allows every label and the packet has
      no more than 255 bytes. */
  method Request(domain: seq<Byte>, buffer: array<Byte>) returns (size: nat)
    requires NoZero(domain) && LabelsFit(domain)
    requires 13 + |Encode(Labels(domain))| <= 1000 <= buffer.Length
    modifies buffer
    ensures size == (17 + |Encode(Labels(domain))|) % 0x100 <= buffer.Length
    ensures size >= 12 && Decode(buffer[12..size]) == Some((Labels(domain), [0, 1, 0, 1]))
            <==> 17 + |Encode(Labels(domain))| <= 255 && forall part <- Labels(domain) :: Allowed(part)
    ensures 17 + |Encode(Labels(domain))| <= 255 ==> buffer[..12] == [0, 0, 1, 0, 0, 1, 0, 0, 0, 0, 0, 0]
  {
    hide Labels, Encode, Decode, UpToZero, Holds, NoZero, QuestionsBytes, Elapsed, Proper, Room;
    var header := BuildDnsRequest(1);
    var question := new Question();
    BuildDnsQuestion(question, domain);
    var asked := Asked(UpToZero(question.domain[..]), question.flags);
    assert NoZero(asked.name) by { EncodedNoZero(domain); }
    OneQuestion(asked, buffer.Length);
    size := Represent(header, [asked], buffer);
    SentReadsBack(domain, header, buffer[..size]);
    assert size >= 12 ==> buffer[..12] == buffer[..size][..12];
  }

  /** The reply half of `resolve_domain`: the address of the first record of type 1, or zero. */
  method AddressInReply(buffer: seq<Byte>, answers: array<Answer>, ghost qs: seq<Asked>, ghost rs: seq<Record>,
                        ghost tail: seq<Byte>) returns (ip: seq<Byte>)
    requires IsReply(buffer, qs, rs, tail) && |rs| <= answers.Length
    modifies answers
    ensures forall k: nat :: FirstAddress(rs, k) ==> Sound(rs[k]) && ip == rs[k].data[..4]
    ensures (forall r <- rs :: r.kind != 1) ==> ip == [0, 0, 0, 0]
  {
    hide QuestionsBytes, RecordsBytes;
    var header := Parse(buffer, answers, qs, rs, tail);
    ip := GetIp(header, answers, rs);
  }

  lemma SentReadsBack(domain: seq<Byte>, header: Header, sent: seq<Byte>)
    requires LabelsFit(domain)
    requires var packet := header + (Encode(Labels(domain)) + [0] + [0, 1, 0, 1]);
             |sent| == |packet| % 0x100 && (sent == packet <==> |packet| <= 255)
    ensures |sent| >= 12 && Decode(sent[12..]) == Some((Labels(domain), [0, 1, 0, 1]))
            <==> 17 + |Encode(Labels(domain))| <= 255 && forall part <- Labels(domain) :: Allowed(part)
  {
    hide Labels, Encode, Decode, Allowed;
    var name := Encode(Labels(domain)) + [0] + [0, 1, 0, 1];
    if |sent| >= 12 {
      DecodedLength(sent[12..]);
    }
    if 17 + |Encode(Labels(domain))| <= 255 {
      assert sent[12..] == name;
      NameRoundTripExactly(domain, [0, 1, 0, 1]);
    }
  }

  // ---------------------------------------------------------------------------------------------
  // Domains that are not sent as they should be
  // ---------------------------------------------------------------------------------------------

  function Letters(n: nat): Label { seq(n, i => 97) }

  /** Four labels of 60 bytes, which the standard allows, make a packet of 261 bytes. */
  lemma LongDomain()
    ensures var domain := Dotted([Letters(60), Letters(60), Letters(60), Letters(60)]);
            && (forall part <- Labels(domain) :: Allowed(part))
            && 17 + |Encode(Labels(domain))| == 261
  {
    var part := Letters(60);
    assert DotFree([part, part, part, part]);
    LabelsDotted([part, part, part, part]);
    hide Labels, Dotted, Letters;
    FourTimes(part);
  }

  lemma FourTimes(part: Label)
    requires part != []
    ensures |Encode([part, part, part, part])| == 4 * (1 + |part|)
  {
    hide Encode;
    NothingEncoded();
    var none: seq<Label> := [];
    assert [part] == [part] + none;
    EncodeMore(part, none);
    assert [part, part] == [part] + [part];
    EncodeMore(part, [part]);
    assert [part, part, part] == [part] + [part, part];
    EncodeMore(part, [part, part]);
    assert [part, part, part, part] == [part] + [part, part, part];
    EncodeMore(part, [part, part, part]);
  }

  /** A label of 64 bytes is sent, and cannot be read; one of 63 can. */
  lemma LongLabel(rest: seq<Byte>)
    ensures Decode(Encode([Letters(63)]) + [0] + rest) == Some(([Letters(63)], rest))
    ensures Labels(Letters(64)) == [Letters(64)]
    ensures Decode(Encode([Letters(64)]) + [0] + rest) == None
  {
    assert DotFree([Letters(64)]);
    LabelsDotted([Letters(64)]);
    assert Dotted([Letters(64)]) == Letters(64);
    DecodeEncode([Letters(64)], rest);
    DecodeEncode([Letters(63)], rest);
    NonEmptyKeepsAll([Letters(63)]);
    hide Decode, Encode;
    assert [Letters(64)][0] in [Letters(64)];
  }

  lemma OneQuestion(asked: Asked, size: nat)
    requires NoZero(asked.name) && |asked.flags| == 4 && |asked.name| <= 987 && size >= 1000
    ensures QuestionsBytes([asked]) == QuestionBytes(asked) && Proper(asked) && Room([asked], 0, size)
  {
    assert [asked][..0] == [];
  }
}
