/**
  Whole DNS messages, octet by octet: header, questions, and answers of any kind whose names are written out or
  point at the first question. What the reader makes of them, complete or cut off.
 */
module DnsMessages {
  import opened Common
  import opened Wire
  import opened Dns

  /** A question: a name, a type and a class. */
  datatype Question = Question(name: Bytes, qtype: nat, qclass: nat)

  /**
    An answer with its time to live, its name written out or pointing at offset 12: one of the records the
    program keeps, or one of another class, type or shape.
   */
  datatype Answer =
    | Known(record: Record, ttl: nat, pointed: bool)
    | Foreign(owner: Bytes, rtype: nat, rclass: nat, rdata: Bytes, ttl: nat, pointed: bool)

  function Name(a: Answer): Bytes {
    match a
    case Known(record, _, _) => record.name
    case Foreign(owner, _, _, _, _, _) => owner
  }

  function Data(a: Answer): Bytes {
    match a
    case Known(record, _, _) => Rdata(record)
    case Foreign(_, _, _, rdata, _, _) => rdata
  }

  function Type(a: Answer): nat {
    match a
    case Known(Cname(_, _), _, _) => 5
    case Known(Address(_, octets), _, _) => if |octets| == 4 then 1 else 28
    case Foreign(_, rtype, _, _, _, _) => rtype
  }

  function Class(a: Answer): nat {
    match a
    case Known(_, _, _) => 1
    case Foreign(_, _, rclass, _, _, _) => rclass
  }

  // ----- the octets -----

  /** A number in two octets, the high one first. */
  function Pair(v: nat): (r: Bytes)
    ensures |r| == 2
  {
    [v / 256 % 256, v % 256]
  }

  function EncodeQuestion(q: Question): Bytes {
    EncodeName(q.name) + Pair(q.qtype) + Pair(q.qclass)
  }

  predicate GoodQuestion(q: Question) {
    GoodName(q.name) && q.qtype < 65536 && q.qclass < 65536
  }

  function EncodeQuestions(qs: seq<Question>): Bytes {
    if qs == [] then [] else EncodeQuestion(qs[0]) + EncodeQuestions(qs[1..])
  }

  /** The name of an answer: written out, or a pointer to offset 12, where the first question begins. */
  function NameOctets(a: Answer): Bytes {
    if a.pointed then [0xC0, 12] else EncodeName(Name(a))
  }

  /** Type, class, time to live and data length. */
  function Fields(a: Answer): (r: Bytes)
    ensures |r| == 10
  {
    Pair(Type(a)) + Pair(Class(a)) + Pair(a.ttl / 65536) + Pair(a.ttl) + Pair(|Data(a)|)
  }

  /** Neither an alias nor an address of the internet class. */
  predicate Other(rtype: nat, rclass: nat, rdata: Bytes) {
    rclass != 1 || (rtype != 5 && (rtype == 1 ==> |rdata| != 4) && (rtype == 28 ==> |rdata| != 16))
  }

  /** An answer whose parts fit their fields; a pointed one has the name of the first question. */
  predicate GoodAnswer(a: Answer, first: Option<Bytes>) {
    && GoodName(Name(a)) && |Data(a)| < 65536
    && (a.pointed ==> first.Some? && TrimDots(Name(a)) == TrimDots(first.value))
    && match a
       case Known(record, _, _) => GoodRecord(record)
       case Foreign(_, rtype, rclass, rdata, _, _) => rtype < 65536 && rclass < 65536 && Other(rtype, rclass, rdata)
  }

  function EncodeAnswer(a: Answer): Bytes {
    NameOctets(a) + Fields(a) + Data(a)
  }

  predicate GoodAnswers(answers: seq<Answer>, first: Option<Bytes>) {
    forall a | a in answers :: GoodAnswer(a, first)
  }

  function EncodeAnswers(answers: seq<Answer>): Bytes {
    if answers == [] then [] else EncodeAnswer(answers[0]) + EncodeAnswers(answers[1..])
  }

  /** The records the program keeps. */
  function RecordsOf(answers: seq<Answer>): seq<Record> {
    if answers == [] then []
    else (if answers[0].Known? then [answers[0].record] else []) + RecordsOf(answers[1..])
  }

  /** What the builder writes for a record is such an answer, with time to live zero. */
  lemma BuilderWrites(r: Record)
    requires GoodRecord(r) && DataFits(r)
    ensures EncodeRecord(r) == EncodeAnswer(Known(r, 0, false))
  {
    hide EncodeName;
    TwoOctets(RecordType(r));
    TwoOctets(CLASS_INET);
    TwoOctets(|Rdata(r)|);
    FourZeros();
  }

  /** The builder's header: the response bit, no questions, the answer count. */
  lemma BuilderHeader(count: nat)
    ensures MessageHeader(count) == [0, 0, 128, 0, 0, 0, count / 256 % 256, count % 256, 0, 0, 0, 0]
  {
    TwoOctets(0);
    TwoOctets(0x8000);
    TwoOctets(count);
  }

  // ----- names that point -----

  function LabelsOf(name: Bytes): seq<Bytes> {
    var t := TrimDots(name);
    if t == [] then [] else SplitOn(t, DOT)
  }

  lemma NameLabels(name: Bytes)
    ensures EncodeName(name) == LabelOctets(LabelsOf(name)) + [0] && Join(LabelsOf(name)) == TrimDots(name)
    ensures GoodName(name) ==> GoodLabels(LabelsOf(name))
  {
    hide SplitOn, Join;
    var t := TrimDots(name);
    if t == [] {
      NoLabels();
      assert Join([]) == [] by { NothingJoined(); }
    } else {
      JoinSplit(t);
    }
  }

  lemma NothingJoined()
    ensures Join([]) == []
  {
  }

  /** A pointer reads as the name it points at. */
  lemma PointerReads(buf: Bytes, pos: nat, name: Bytes)
    requires GoodName(name) && Holds(buf, 12, EncodeName(name)) && Holds(buf, pos, [0xC0, 12])
    ensures NameAt(buf, pos) == Some((TrimDots(name), pos + 2))
  {
    hide NameAt, EncodeName, GoodName, LabelOctets, Join;
    NameLabels(name);
    NoLabels();
    var none: seq<Bytes> := [];
    var here, there := Piece(pos, none), Piece(12, LabelsOf(name));
    var pieces, tail := [here, there], [there];
    assert PointerTo(12) == [0xC0, 12] && LabelOctets(none) + PointerTo(12) == PointerTo(12);
    assert pieces[1..] == tail && Written(buf, tail) && Written(buf, pieces);
    CompressedNameReads(buf, pieces);
    var empty: seq<Piece> := [];
    assert tail[1..] == empty && AllLabels(empty) == none && AllLabels(tail) == there.labels + none == there.labels;
    assert AllLabels(pieces) == none + there.labels == there.labels;
  }

  lemma SameEncoding(a: Bytes, b: Bytes)
    requires TrimDots(a) == TrimDots(b)
    ensures EncodeName(a) == EncodeName(b) && GoodName(a) == GoodName(b)
  {
  }

  /** The first question stands at offset 12. */
  predicate AtTwelve(pre: Bytes, first: Option<Bytes>) {
    first.Some? ==> GoodName(first.value) && Holds(pre, 12, EncodeName(first.value))
  }

  lemma StillHolds(pre: Bytes, post: Bytes, pos: nat, octets: Bytes)
    requires Holds(pre, pos, octets)
    ensures Holds(pre + post, pos, octets)
  {
    assert (pre + post)[pos..pos + |octets|] == pre[pos..pos + |octets|];
  }

  lemma StillAtTwelve(pre: Bytes, post: Bytes, first: Option<Bytes>)
    requires AtTwelve(pre, first)
    ensures AtTwelve(pre + post, first)
  {
    hide EncodeName, GoodName;
    if first.Some? { StillHolds(pre, post, 12, EncodeName(first.value)); }
  }

  /** The name of an answer, either way. */
  lemma AnswerNameReads(pre: Bytes, a: Answer, rest: Bytes, first: Option<Bytes>)
    requires GoodAnswer(a, first) && AtTwelve(pre, first)
    ensures NameAt(pre + NameOctets(a) + rest, |pre|) == Some((TrimDots(Name(a)), |pre| + |NameOctets(a)|))
  {
    hide NameAt, EncodeName, GoodName, TrimDots, GoodRecord, Other, Data;
    if a.pointed {
      var buf := pre + NameOctets(a) + rest;
      assert buf == pre + (NameOctets(a) + rest);
      SameEncoding(Name(a), first.value);
      StillHolds(pre, NameOctets(a) + rest, 12, EncodeName(first.value));
      assert buf[|pre|..|pre| + 2] == [0xC0, 12];
      PointerReads(buf, |pre|, Name(a));
    } else {
      NameReadsBack(pre, Name(a), rest);
    }
  }

  // ----- questions -----

  lemma QuestionStep(buf: Bytes, pos: nat, n: nat, name: Bytes, after: nat)
    requires n > 0 && NameAt(buf, pos) == Some((name, after)) && after + 4 <= |buf|
    ensures SkipQuestions(buf, pos, n) == SkipQuestions(buf, after + 4, n - 1)
  {
    hide NameAt;
  }

  lemma NoQuestions(buf: Bytes, pos: nat)
    ensures SkipQuestions(buf, pos, 0) == Some(pos)
  {
  }

  lemma {:induction false} SkippedSoFar(pre: Bytes, qs: seq<Question>, post: Bytes, n: nat)
    requires n >= |qs| && forall q | q in qs :: GoodQuestion(q)
    ensures var buf := pre + EncodeQuestions(qs) + post;
            SkipQuestions(buf, |pre|, n) == SkipQuestions(buf, |pre| + |EncodeQuestions(qs)|, n - |qs|)
    decreases |qs|
  {
    hide NameAt, EncodeName, GoodName, SkipQuestions, TrimDots;
    var buf := pre + EncodeQuestions(qs) + post;
    if qs != [] {
      var q, rest := qs[0], qs[1..];
      assert q in qs && forall r | r in rest :: r in qs;
      var tail := Pair(q.qtype) + Pair(q.qclass) + EncodeQuestions(rest) + post;
      assert buf == pre + EncodeName(q.name) + tail;
      NameReadsBack(pre, q.name, tail);
      var after := |pre| + |EncodeName(q.name)|;
      QuestionStep(buf, |pre|, n, TrimDots(q.name), after);
      var pre' := pre + EncodeQuestion(q);
      assert buf == pre' + EncodeQuestions(rest) + post && |pre'| == after + 4;
      SkippedSoFar(pre', rest, post, n - 1);
    }
  }

  /** Any number of questions is skipped: each is a name, a type and a class, and no more. */
  lemma QuestionsSkipped(pre: Bytes, qs: seq<Question>, post: Bytes)
    requires forall q | q in qs :: GoodQuestion(q)
    ensures SkipQuestions(pre + EncodeQuestions(qs) + post, |pre|, |qs|) == Some(|pre| + |EncodeQuestions(qs)|)
  {
    hide SkipQuestions, EncodeQuestions, GoodQuestion;
    SkippedSoFar(pre, qs, post, |qs|);
    NoQuestions(pre + EncodeQuestions(qs) + post, |pre| + |EncodeQuestions(qs)|);
  }

  // ----- answers -----

  lemma FieldsRead(a: Answer, first: Option<Bytes>)
    requires GoodAnswer(a, first)
    ensures var f := Fields(a);
            FromBe(f[0..2]) == Type(a) && FromBe(f[2..4]) == Class(a) && FromBe(f[8..10]) == |Data(a)|
  {
    hide Data, GoodName, GoodRecord, Other, FromBe;
    var f := Fields(a);
    FromTwoOctets(f[0..2]);
    FromTwoOctets(f[2..4]);
    FromTwoOctets(f[8..10]);
  }

  /** One answer is taken in as what it means: a known one as its record, a foreign one as nothing. */
  lemma AnswerTaken(lower: Lower, before: Bytes, a: Answer, post: Bytes, p: Parsed, first: Option<Bytes>)
    requires GoodAnswer(a, first)
    ensures TakeAnswer(lower, before + Data(a) + post, p, TrimDots(Name(a)), Type(a), Class(a), |before|, Data(a)) ==
            Meaning(lower, RecordsOf([a]), p)
  {
    hide NameAt, EncodeName, GoodName, TrimDots, Meaning;
    var none: seq<Answer> := [];
    assert [a][1..] == none && RecordsOf(none) == [];
    match a {
      case Known(record, _, _) =>
        assert RecordsOf([a]) == [record];
        AnswerMeans(lower, before, record, post, p, Rdata(record));
      case Foreign(_, _, _, _, _, _) =>
        assert RecordsOf([a]) == [];
        NoAnswers(lower, [], 0, p);
    }
  }

  lemma AnswerRead(lower: Lower, pre: Bytes, a: Answer, post: Bytes, n: nat, p: Parsed, first: Option<Bytes>)
    requires GoodAnswer(a, first) && AtTwelve(pre, first) && n >= 1
    ensures var buf := pre + EncodeAnswer(a) + post;
            Answers(lower, buf, |pre|, n, p) ==
            Answers(lower, buf, |pre| + |EncodeAnswer(a)|, n - 1, Meaning(lower, RecordsOf([a]), p))
  {
    hide NameAt, Answers, TakeAnswer, GoodAnswer, AtTwelve, NameOctets, TrimDots, FromBe, Meaning, RecordsOf, Name,
         Data;
    FieldsRead(a, first);
    var name, f, rdata := NameOctets(a), Fields(a), Data(a);
    var buf := pre + EncodeAnswer(a) + post;
    RecordSlices(pre, name, f, rdata, post);
    AnswerNameReads(pre, a, f + rdata + post, first);
    var at := |pre| + |name|;
    NameOctetsSome(a);
    AnswerStep(lower, buf, |pre|, n, p, TrimDots(Name(a)), at, |rdata|);
    AnswerTaken(lower, pre + name + f, a, post, p, first);
  }

  lemma NameOctetsSome(a: Answer)
    ensures |NameOctets(a)| >= 1
  {
    NameNonEmpty(Name(a));
  }

  lemma RecordsOfFirst(lower: Lower, answers: seq<Answer>, p: Parsed)
    requires answers != []
    ensures Meaning(lower, RecordsOf(answers), p) ==
            Meaning(lower, RecordsOf(answers[1..]), Meaning(lower, RecordsOf([answers[0]]), p))
  {
    hide Meaning;
    var a, rest := answers[0], RecordsOf(answers[1..]);
    var none: seq<Answer> := [];
    assert [a][1..] == none && RecordsOf(none) == [];
    if a.Known? {
      assert RecordsOf(answers) == [a.record] + rest && RecordsOf([a]) == [a.record];
      MeaningStep(lower, RecordsOf(answers), p);
      assert RecordsOf(answers)[1..] == rest;
    } else {
      assert RecordsOf(answers) == rest && RecordsOf([a]) == [];
      NoAnswers(lower, [], 0, p);
    }
  }

  /** A run of answers is taken in as what its records mean, and reading goes on behind it. */
  lemma {:induction false} AnswersRead(lower: Lower, pre: Bytes, answers: seq<Answer>, post: Bytes, n: nat, p: Parsed,
                                       first: Option<Bytes>)
    requires GoodAnswers(answers, first) && AtTwelve(pre, first) && n >= |answers|
    ensures var buf := pre + EncodeAnswers(answers) + post;
            Answers(lower, buf, |pre|, n, p) ==
            Answers(lower, buf, |pre| + |EncodeAnswers(answers)|, n - |answers|,
                    Meaning(lower, RecordsOf(answers), p))
    decreases |answers|
  {
    hide Answers, GoodAnswer, AtTwelve, EncodeAnswer, Meaning, RecordsOf;
    var buf := pre + EncodeAnswers(answers) + post;
    if answers == [] {
      assert RecordsOf(answers) == [] by { NoRecords(answers); }
      NoAnswers(lower, [], 0, p);
    } else {
      var a, rest := answers[0], answers[1..];
      assert a in answers && forall b | b in rest :: b in answers;
      var post' := EncodeAnswers(rest) + post;
      AnswerRead(lower, pre, a, post', n, p, first);
      var pre' := pre + EncodeAnswer(a);
      assert buf == pre' + post' && buf == pre' + EncodeAnswers(rest) + post;
      StillAtTwelve(pre, EncodeAnswer(a), first);
      AnswersRead(lower, pre', rest, post, n - 1, Meaning(lower, RecordsOf([a]), p), first);
      RecordsOfFirst(lower, answers, p);
    }
  }

  lemma NoRecords(answers: seq<Answer>)
    requires answers == []
    ensures RecordsOf(answers) == []
  {
  }

  // ----- messages -----

  function First(qs: seq<Question>): Option<Bytes> {
    if qs == [] then None else Some(qs[0].name)
  }

  /** A header of twelve octets that counts so many questions and answers. */
  predicate Counts(head: Bytes, questions: nat, answers: nat) {
    && |head| == 12
    && 256 * (head[4] as int) + head[5] == questions
    && 256 * (head[6] as int) + head[7] == answers
  }

  lemma CountsRead(head: Bytes, rest: Bytes, questions: nat, answers: nat)
    requires Counts(head, questions, answers)
    ensures var buf := head + rest; FromBe(buf[4..6]) == questions && FromBe(buf[6..8]) == answers
  {
    hide FromBe;
    var buf := head + rest;
    FromTwoOctets(buf[4..6]);
    FromTwoOctets(buf[6..8]);
    assert buf[4] == head[4] && buf[5] == head[5] && buf[6] == head[6] && buf[7] == head[7];
  }

  /** A message is read by going over its answers from behind its questions. */
  lemma FromTheAnswersOn(lower: Lower, head: Bytes, qs: seq<Question>, n: nat, rest: Bytes)
    requires Counts(head, |qs|, n) && forall q | q in qs :: GoodQuestion(q)
    ensures var pre := head + EncodeQuestions(qs);
            && AtTwelve(pre, First(qs))
            && Parse(lower, pre + rest) == Answers(lower, pre + rest, |pre|, n, NOTHING)
  {
    hide Answers, EncodeName, GoodName, SkipQuestions, FromBe;
    var pre := head + EncodeQuestions(qs);
    var buf := pre + rest;
    assert buf == head + EncodeQuestions(qs) + rest;
    QuestionsSkipped(head, qs, rest);
    assert buf == head + (EncodeQuestions(qs) + rest);
    CountsRead(head, EncodeQuestions(qs) + rest, |qs|, n);
    if qs != [] {
      assert qs[0] in qs;
      var e := EncodeName(qs[0].name);
      assert pre[12..12 + |e|] == e;
    }
  }

  /**
    Every whole message: whatever its identifier, flags and further sections, with any questions and any answers,
    their names written out or pointing at the first question, it parses to what its records mean.
   */
  lemma MessageParses(lower: Lower, head: Bytes, qs: seq<Question>, answers: seq<Answer>, more: Bytes)
    requires Counts(head, |qs|, |answers|)
    requires (forall q | q in qs :: GoodQuestion(q)) && GoodAnswers(answers, First(qs))
    ensures Parse(lower, head + EncodeQuestions(qs) + EncodeAnswers(answers) + more) ==
            Some(Meaning(lower, RecordsOf(answers), NOTHING))
  {
    hide Answers, GoodAnswers, GoodQuestion, AtTwelve, Parse, Meaning, RecordsOf, EncodeQuestions, EncodeAnswers;
    var pre := head + EncodeQuestions(qs);
    var octets := EncodeAnswers(answers);
    FromTheAnswersOn(lower, head, qs, |answers|, octets + more);
    assert pre + octets + more == pre + (octets + more);
    AnswersRead(lower, pre, answers, more, |answers|, NOTHING, First(qs));
    NoAnswers(lower, pre + octets + more, |pre| + |octets|, Meaning(lower, RecordsOf(answers), NOTHING));
  }

  // ----- messages cut off -----

  /** A name of which the end is missing is not read. */
  lemma {:induction false} NameCutOff(buf: Bytes, pos: nat, hops: nat, k: nat)
    requires hops <= MAX_HOPS && NameFrom(buf, pos, hops).Some? && pos <= k < NameFrom(buf, pos, hops).value.1
    ensures NameFrom(buf[..k], pos, hops) == None
    decreases k - pos
  {
    hide NameFrom, Utf8.Valid, PointerOffset;
    var cut := buf[..k];
    NameStops(buf, pos, hops);
    NameStops(cut, pos, hops);
    if pos < k {
      if buf[pos] >= 0xC0 {
        ReadsPointer(buf, pos, hops);
        ReadsPointer(cut, pos, hops);
      } else if buf[pos] > 0 {
        ReadsLabel(buf, pos, hops);
        ReadsLabel(cut, pos, hops);
        var end := pos + 1 + buf[pos];
        if end <= k {
          assert cut[pos + 1..end] == buf[pos + 1..end];
          NameCutOff(buf, end, hops, k);
        }
      }
    }
  }

  lemma CutSlices(pre: Bytes, octets: Bytes, k: nat)
    requires k <= |octets|
    ensures (pre + octets)[..|pre| + k] == pre + octets[..k]
  {
  }

  lemma AnswerStops(lower: Lower, buf: Bytes, pos: nat, n: nat, p: Parsed)
    requires n >= 1 && pos < |buf|
    requires match NameAt(buf, pos)
             case None => true
             case Some((_, at)) => at + 10 > |buf| || at + 10 + FromBe(buf[at + 8..at + 10]) > |buf|
    ensures Answers(lower, buf, pos, n, p) == None
  {
    hide NameAt, TakeAnswer, FromBe;
  }

  /** The end of the name is missing. */
  lemma NamePartOnly(pre: Bytes, a: Answer, k: nat, first: Option<Bytes>)
    requires GoodAnswer(a, first) && AtTwelve(pre, first) && k < |NameOctets(a)|
    ensures NameAt(pre + NameOctets(a)[..k], |pre|) == None
  {
    hide NameFrom, GoodAnswer, AtTwelve, NameOctets, TrimDots, Join, Name;
    var name := NameOctets(a);
    AnswerNameReads(pre, a, [], first);
    assert pre + name + [] == pre + name;
    CutSlices(pre, name, k);
    NameCutOff(pre + name, |pre|, 0, |pre| + k);
  }

  /** An answer of which some octets are there and some are missing stops the reader with an error. */
  lemma AnswerCutOff(lower: Lower, pre: Bytes, a: Answer, k: nat, n: nat, p: Parsed, first: Option<Bytes>)
    requires GoodAnswer(a, first) && AtTwelve(pre, first) && n >= 1
    requires 0 < k < |EncodeAnswer(a)|
    ensures Answers(lower, pre + EncodeAnswer(a)[..k], |pre|, n, p) == None
  {
    hide NameAt, Answers, GoodAnswer, AtTwelve, NameOctets, TrimDots, FromBe, Name, Data, Fields;
    FieldsRead(a, first);
    var name, f, rdata := NameOctets(a), Fields(a), Data(a);
    var buf := pre + EncodeAnswer(a)[..k];
    if k < |name| {
      assert EncodeAnswer(a)[..k] == name[..k];
      NamePartOnly(pre, a, k, first);
    } else {
      var rest := (f + rdata)[..k - |name|];
      assert EncodeAnswer(a)[..k] == name + rest;
      assert buf == pre + name + rest;
      AnswerNameReads(pre, a, rest, first);
      if k >= |name| + 10 {
        BackSlice(pre + name, rest, 8, 10);
        assert rest[8..10] == f[8..10];
      }
    }
    AnswerStops(lower, buf, |pre|, n, p);
  }

  /** A message cut off among its questions does not parse. */
  lemma QuestionsCutOff(lower: Lower, head: Bytes, qs: seq<Question>, q: Question, k: nat, n: nat, answers: nat)
    requires Counts(head, n, answers) && n > |qs|
    requires (forall r | r in qs :: GoodQuestion(r)) && GoodQuestion(q) && k < |EncodeQuestion(q)|
    ensures Parse(lower, head + EncodeQuestions(qs) + EncodeQuestion(q)[..k]) == None
  {
    hide Answers, SkipQuestions, FromBe, GoodQuestion, EncodeQuestion, EncodeQuestions;
    var part := EncodeQuestion(q)[..k];
    assert head + EncodeQuestions(qs) + part == head + (EncodeQuestions(qs) + part);
    CountsRead(head, EncodeQuestions(qs) + part, n, answers);
    SkippedSoFar(head, qs, part, n);
    QuestionCutOff(head + EncodeQuestions(qs), q, k, n - |qs|);
  }

  lemma QuestionCutOff(pre: Bytes, q: Question, k: nat, n: nat)
    requires GoodQuestion(q) && k < |EncodeQuestion(q)| && n > 0
    ensures SkipQuestions(pre + EncodeQuestion(q)[..k], |pre|, n) == None
  {
    hide NameFrom, EncodeName, GoodName, TrimDots, Join;
    var name, fields := EncodeName(q.name), Pair(q.qtype) + Pair(q.qclass);
    assert EncodeQuestion(q) == name + fields;
    if k < |name| {
      NameReadsBack(pre, q.name, []);
      assert pre + name + [] == pre + name && EncodeQuestion(q)[..k] == name[..k];
      CutSlices(pre, name, k);
      NameCutOff(pre + name, |pre|, 0, |pre| + k);
    } else {
      var rest := fields[..k - |name|];
      assert EncodeQuestion(q)[..k] == name + rest;
      assert pre + EncodeQuestion(q)[..k] == pre + name + rest;
      NameReadsBack(pre, q.name, rest);
    }
  }

  /**
    A message cut off among its answers: between two answers it parses to what the answers so far mean, though
    more were announced; inside one it does not parse.
   */
  lemma MessageCutOff(lower: Lower, head: Bytes, qs: seq<Question>, answers: seq<Answer>, a: Answer, k: nat, n: nat)
    requires Counts(head, |qs|, n) && n > |answers|
    requires (forall q | q in qs :: GoodQuestion(q)) && GoodAnswers(answers, First(qs)) && GoodAnswer(a, First(qs))
    requires k < |EncodeAnswer(a)|
    ensures Parse(lower, head + EncodeQuestions(qs) + EncodeAnswers(answers) + EncodeAnswer(a)[..k]) ==
            if k == 0 then Some(Meaning(lower, RecordsOf(answers), NOTHING)) else None
  {
    hide Answers, GoodAnswer, GoodAnswers, GoodQuestion, AtTwelve, Parse, Meaning, RecordsOf, EncodeQuestions;
    hide EncodeAnswers, EncodeAnswer, First;
    var pre := head + EncodeQuestions(qs);
    var octets, part := EncodeAnswers(answers), EncodeAnswer(a)[..k];
    var p := Meaning(lower, RecordsOf(answers), NOTHING);
    FromTheAnswersOn(lower, head, qs, n, octets + part);
    assert pre + octets + part == pre + (octets + part);
    AnswersRead(lower, pre, answers, part, n, NOTHING, First(qs));
    if k == 0 {
      assert pre + octets + part == pre + octets;
      PastTheEnd(lower, pre + octets, n - |answers|, p);
    } else {
      StillAtTwelve(pre, octets, First(qs));
      AnswerCutOff(lower, pre + octets, a, k, n - |answers|, p, First(qs));
    }
  }

  lemma PastTheEnd(lower: Lower, buf: Bytes, n: nat, p: Parsed)
    ensures Answers(lower, buf, |buf|, n, p) == Some(p)
  {
  }

  // ----- what records mean -----

  /** The addresses recorded under a name, in order. */
  function AddressesOf(lower: Lower, rs: seq<Record>, domain: Bytes): seq<Bytes> {
    if rs == [] then []
    else (if rs[0].Address? && lower(TrimDots(rs[0].name)) == domain then [rs[0].octets] else [])
         + AddressesOf(lower, rs[1..], domain)
  }

  lemma {:induction false} AddressesMean(lower: Lower, rs: seq<Record>, p: Parsed, domain: Bytes)
    requires domain != []
    ensures var m := Meaning(lower, rs, p).addresses;
            var before := if domain in p.addresses then p.addresses[domain] else [];
            && (domain in m <==> domain in p.addresses || AddressesOf(lower, rs, domain) != [])
            && (domain in m ==> m[domain] == before + AddressesOf(lower, rs, domain))
    decreases |rs|
  {
    hide TrimDots, Meaning;
    if rs == [] {
      NoAnswers(lower, [], 0, p);
    } else {
      MeaningStep(lower, rs, p);
      OneAddress(lower, rs[0], p, domain);
      AddressesMean(lower, rs[1..], Meaning(lower, [rs[0]], p), domain);
      var own := if rs[0].Address? && lower(TrimDots(rs[0].name)) == domain then [rs[0].octets] else [];
      assert AddressesOf(lower, rs, domain) == own + AddressesOf(lower, rs[1..], domain);
    }
  }

  lemma OneAddress(lower: Lower, r: Record, p: Parsed, domain: Bytes)
    requires domain != []
    ensures var m := Meaning(lower, [r], p).addresses;
            var before := if domain in p.addresses then p.addresses[domain] else [];
            var own := if r.Address? && lower(TrimDots(r.name)) == domain then [r.octets] else [];
            && (domain in m <==> domain in p.addresses || own != [])
            && (domain in m ==> m[domain] == before + own)
  {
    hide TrimDots, Meaning;
    OneMeans(lower, r, p);
  }

  /** What one record adds. */
  lemma OneMeans(lower: Lower, r: Record, p: Parsed)
    ensures var m := Meaning(lower, [r], p);
            var domain := lower(TrimDots(r.name));
            match r
            case Cname(_, target) =>
              var cname := lower(TrimDots(target));
              m == if domain == [] || cname == [] then p else p.(cnames := p.cnames[cname := domain])
            case Address(_, octets) =>
              var known := if domain in p.addresses then p.addresses[domain] else [];
              m == if domain == [] then p else p.(addresses := p.addresses[domain := known + [octets]])
  {
    hide TrimDots;
    var none: seq<Record> := [];
    assert [r][1..] == none;
  }

  /** What the last record with this target says the target stands for; a record about the root says nothing. */
  function LastAlias(lower: Lower, rs: seq<Record>, target: Bytes): Option<Bytes> {
    if rs == [] then None
    else
      var r := rs[|rs| - 1];
      if r.Cname? && lower(TrimDots(r.target)) == target && lower(TrimDots(r.name)) != []
      then Some(lower(TrimDots(r.name)))
      else LastAlias(lower, rs[..|rs| - 1], target)
  }

  lemma {:induction false} MeaningLast(lower: Lower, rs: seq<Record>, p: Parsed)
    requires rs != []
    ensures var n := |rs| - 1; Meaning(lower, rs, p) == Meaning(lower, [rs[n]], Meaning(lower, rs[..n], p))
    decreases |rs|
  {
    hide Meaning;
    var n := |rs| - 1;
    MeaningStep(lower, rs, p);
    NoAnswers(lower, [], 0, p);
    if n == 0 {
      assert rs[1..] == [] && rs[..0] == [];
      NoAnswers(lower, [], 0, Meaning(lower, [rs[0]], p));
    } else {
      MeaningLast(lower, rs[1..], Meaning(lower, [rs[0]], p));
      assert rs[1..][n - 1] == rs[n] && rs[1..][..n - 1] == rs[..n][1..];
      MeaningStep(lower, rs[..n], p);
    }
  }

  lemma {:induction false} AliasesMean(lower: Lower, rs: seq<Record>, target: Bytes)
    requires target != []
    ensures var m := Meaning(lower, rs, NOTHING).cnames;
            LastAlias(lower, rs, target) == if target in m then Some(m[target]) else None
    decreases |rs|
  {
    hide TrimDots, Meaning;
    if rs == [] {
      NoAnswers(lower, [], 0, NOTHING);
    } else {
      var n := |rs| - 1;
      AliasesMean(lower, rs[..n], target);
      MeaningLast(lower, rs, NOTHING);
      OneMeans(lower, rs[n], Meaning(lower, rs[..n], NOTHING));
    }
  }

  /**
    What a parsed response says of any name but the root: exactly the addresses recorded under it, in order;
    and, as a target, that it stands for the name of the last record that aliases something to it.
   */
  lemma MeaningExactly(lower: Lower, rs: seq<Record>, domain: Bytes)
    requires domain != []
    ensures var m := Meaning(lower, rs, NOTHING);
            && (domain in m.addresses <==> AddressesOf(lower, rs, domain) != [])
            && (domain in m.addresses ==> m.addresses[domain] == AddressesOf(lower, rs, domain))
            && (domain in m.cnames <==> LastAlias(lower, rs, domain).Some?)
            && (domain in m.cnames ==> Some(m.cnames[domain]) == LastAlias(lower, rs, domain))
  {
    hide Meaning;
    AddressesMean(lower, rs, NOTHING, domain);
    AliasesMean(lower, rs, domain);
  }
}
