/** Observing DNS responses: names with compression pointers, the answer section, and the packet builder. */
module Dns {
  import opened Common
  import opened Wire
  import Utf8

  const DOT: byte := 46
  const TYPE_A := 1
  const TYPE_CNAME := 5
  const TYPE_AAAA := 28
  const CLASS_INET := 1
  const MAX_HOPS := 64

  // ----- names, sections 3.1 and 4.1.4 of RFC 1035 -----

  /** The offset in a compression pointer: six bits of the first octet and all of the second. */
  function PointerOffset(first: int, second: int): nat
    requires first >= 0 && second >= 0
  {
    first % 0x40 * 256 + second
  }

  /** Labels from `pos` on, following pointers, and the offset just after the name where it started. */
  function NameFrom(buf: Bytes, pos: nat, hops: nat): (r: Option<(seq<Bytes>, nat)>)
    requires hops <= MAX_HOPS + 1
    ensures r.Some? ==> pos < r.value.1 <= |buf|
    decreases MAX_HOPS + 1 - hops, if pos <= |buf| then |buf| - pos else 0
  {
    if pos >= |buf| || hops > MAX_HOPS then None
    else
      var len := buf[pos];
      if len == 0 then Some(([], pos + 1))
      else if len >= 0xC0 then
        if pos + 1 >= |buf| then None
        else
          match NameFrom(buf, PointerOffset(len, buf[pos + 1]), hops + 1)
          case None => None
          case Some((labels, _)) => Some((labels, pos + 2))
      else if pos + 1 + len > |buf| || !Utf8.Valid(buf[pos + 1..pos + 1 + len]) then None
      else
        match NameFrom(buf, pos + 1 + len, hops)
        case None => None
        case Some((labels, after)) => Some(([buf[pos + 1..pos + 1 + len]] + labels, after))
  }

  function Join(labels: seq<Bytes>): Bytes {
    if labels == [] then []
    else if |labels| == 1 then labels[0]
    else labels[0] + [DOT] + Join(labels[1..])
  }

  function NameAt(buf: Bytes, pos: nat): (r: Option<(Bytes, nat)>)
    ensures r.Some? ==> pos < r.value.1 <= |buf|
  {
    match NameFrom(buf, pos, 0)
    case None => None
    case Some((labels, after)) => Some((Join(labels), after))
  }

  /** Labels in front of whatever follows them. */
  function Prepend(labels: seq<Bytes>, rest: Option<(seq<Bytes>, nat)>): Option<(seq<Bytes>, nat)> {
    match rest
    case None => None
    case Some((more, after)) => Some((labels + more, after))
  }

  /** A pointer stands for the name it points at, and reading goes on behind the pointer. */
  function Behind(pos: nat, name: Option<(seq<Bytes>, nat)>): Option<(seq<Bytes>, nat)> {
    match name
    case None => None
    case Some((labels, _)) => Some((labels, pos + 2))
  }

  /** What the loop has gathered so far, completed by the rest of the name. */
  function Resume(labels: seq<Bytes>, after: Option<nat>, rest: Option<(seq<Bytes>, nat)>): Option<(seq<Bytes>, nat)> {
    match rest
    case None => None
    case Some((more, end)) => Some((labels + more, if after.Some? then after.value else end))
  }

  lemma NameStops(buf: Bytes, pos: nat, hops: nat)
    requires hops <= MAX_HOPS + 1
    ensures pos >= |buf| || hops > MAX_HOPS ==> NameFrom(buf, pos, hops) == None
    ensures hops <= MAX_HOPS && pos < |buf| && buf[pos] == 0 ==> NameFrom(buf, pos, hops) == Some(([], pos + 1))
  {
  }

  lemma ReadsPointer(buf: Bytes, pos: nat, hops: nat)
    requires hops <= MAX_HOPS && pos < |buf| && buf[pos] >= 0xC0
    ensures NameFrom(buf, pos, hops) ==
            if pos + 1 >= |buf| then None
            else Behind(pos, NameFrom(buf, PointerOffset(buf[pos], buf[pos + 1]), hops + 1))
  {
    hide PointerOffset;
  }

  lemma ReadsLabel(buf: Bytes, pos: nat, hops: nat)
    requires hops <= MAX_HOPS && pos < |buf| && 0 < buf[pos] < 0xC0
    ensures var end := pos + 1 + buf[pos];
            NameFrom(buf, pos, hops) ==
            if end > |buf| || !Utf8.Valid(buf[pos + 1..end]) then None
            else Prepend([buf[pos + 1..end]], NameFrom(buf, end, hops))
  {
    hide Utf8.Valid;
  }

  lemma ResumeAt(labels: seq<Bytes>, after: Option<nat>, l: Bytes, pos: nat, rest: Option<(seq<Bytes>, nat)>)
    ensures Resume(labels, after, Prepend([l], rest)) == Resume(labels + [l], after, rest)
    ensures Resume(labels, after, Behind(pos, rest)) ==
            Resume(labels, if after.None? then Some(pos + 2) else after, rest)
    ensures Resume(labels, after, Some(([], pos))) == Some((labels, if after.None? then pos else after.value))
    ensures Resume([], None, rest) == rest
  {
    assert labels + [] == labels;
    if rest.Some? {
      assert labels + ([l] + rest.value.0) == (labels + [l]) + rest.value.0;
      assert [] + rest.value.0 == rest.value.0;
    }
  }

  /** The loop with its jump flag, hop count and pending end; it ends on every buffer. */
  method ParseName(buf: Bytes, start: nat) returns (r: Option<(Bytes, nat)>)
    ensures r == NameAt(buf, start)
    ensures r.Some? ==> start < r.value.1 <= |buf|
  {
    hide NameFrom, Utf8.Valid, Join, PointerOffset, Prepend, Behind, Resume;
    var pos: nat := start;
    var labels: seq<Bytes> := [];
    var after: Option<nat> := None;
    var hops := 0;
    ResumeAt(labels, after, [], 0, NameFrom(buf, start, 0));
    while true
      invariant hops <= MAX_HOPS + 1
      invariant NameFrom(buf, start, 0) == Resume(labels, after, NameFrom(buf, pos, hops))
      decreases MAX_HOPS + 1 - hops, if pos <= |buf| then |buf| - pos else 0
    {
      NameStops(buf, pos, hops);
      NothingResumed(labels, after);
      if pos >= |buf| || hops > MAX_HOPS {
        return None;
      }
      var len := buf[pos];
      if len == 0 {
        ResumeAt(labels, after, [], pos + 1, None);
        if after.None? {
          after := Some(pos + 1);
        }
        return Some((Join(labels), after.value));
      }
      if len >= 0xC0 {
        ReadsPointer(buf, pos, hops);
        if pos + 1 >= |buf| {
          return None;
        }
        ResumeAt(labels, after, [], pos, NameFrom(buf, PointerOffset(len, buf[pos + 1]), hops + 1));
        if after.None? {
          after := Some(pos + 2);
        }
        pos := PointerOffset(len, buf[pos + 1]);
        hops := hops + 1;
      } else {
        ReadsLabel(buf, pos, hops);
        if pos + 1 + len > |buf| || !Utf8.Valid(buf[pos + 1..pos + 1 + len]) {
          return None;
        }
        ResumeAt(labels, after, buf[pos + 1..pos + 1 + len], 0, NameFrom(buf, pos + 1 + len, hops));
        labels := labels + [buf[pos + 1..pos + 1 + len]];
        pos := pos + 1 + len;
      }
    }
  }

  lemma NothingResumed(labels: seq<Bytes>, after: Option<nat>)
    ensures Resume(labels, after, None) == None
  {
  }

  // ----- responses -----

  type Lower = Bytes -> Bytes

  datatype Parsed = Parsed(cnames: map<Bytes, Bytes>, addresses: map<Bytes, seq<Bytes>>)

  const NOTHING := Parsed(map[], map[])

  function TrimDots(name: Bytes): Bytes {
    if name != [] && name[|name| - 1] == DOT then TrimDots(name[..|name| - 1]) else name
  }

  /** The question section is skipped: a name and four octets for each entry. */
  function SkipQuestions(buf: Bytes, pos: nat, n: nat): Option<nat>
    decreases n
  {
    if n == 0 then Some(pos)
    else
      match NameAt(buf, pos)
      case None => None
      case Some((_, after)) => if after + 4 > |buf| then None else SkipQuestions(buf, after + 4, n - 1)
  }

  /** Enters one answer into the maps; records of other classes, types or shapes change nothing. */
  function TakeAnswer(lower: Lower, buf: Bytes, p: Parsed, name: Bytes, rtype: nat, rclass: nat, start: nat,
                      rdata: Bytes): Parsed {
    var domain := lower(TrimDots(name));
    if rclass != CLASS_INET || domain == [] then p
    else if rtype == TYPE_CNAME then
      match NameAt(buf, start)
      case None => p
      case Some((target, _)) =>
        var cname := lower(TrimDots(target));
        if cname == [] then p else p.(cnames := p.cnames[cname := domain])
    else if (rtype == TYPE_A && |rdata| == 4) || (rtype == TYPE_AAAA && |rdata| == 16) then
      p.(addresses := p.addresses[domain := (if domain in p.addresses then p.addresses[domain] else []) + [rdata]])
    else p
  }

  function Answers(lower: Lower, buf: Bytes, pos: nat, n: nat, p: Parsed): Option<Parsed>
    decreases n
  {
    if n == 0 || pos >= |buf| then Some(p)
    else
      match NameAt(buf, pos)
      case None => None
      case Some((name, at)) =>
        if at + 10 > |buf| then None
        else
          var rtype := FromBe(buf[at..at + 2]);
          var rclass := FromBe(buf[at + 2..at + 4]);
          var rdlen := FromBe(buf[at + 8..at + 10]);
          var start := at + 10;
          if start + rdlen > |buf| then None
          else Answers(lower, buf, start + rdlen, n - 1,
                       TakeAnswer(lower, buf, p, name, rtype, rclass, start, buf[start..start + rdlen]))
  }

  function Parse(lower: Lower, buf: Bytes): Option<Parsed> {
    if |buf| < 12 then None
    else
      match SkipQuestions(buf, 12, FromBe(buf[4..6]))
      case None => None
      case Some(pos) => Answers(lower, buf, pos, FromBe(buf[6..8]), NOTHING)
  }

  method ParseDnsResponse(lower: Lower, buf: Bytes) returns (r: Option<Parsed>)
    ensures r == Parse(lower, buf)
  {
    hide NameAt, TakeAnswer, FromBe;
    if |buf| < 12 {
      return None;
    }
    var qdcount := FromBe(buf[4..6]);
    var ancount := FromBe(buf[6..8]);
    var pos: nat := 12;
    var i := 0;
    while i < qdcount
      invariant 0 <= i <= qdcount
      invariant SkipQuestions(buf, 12, qdcount) == SkipQuestions(buf, pos, qdcount - i)
    {
      var name := ParseName(buf, pos);
      if name.None? {
        return None;
      }
      pos := name.value.1 + 4;
      if pos > |buf| {
        return None;
      }
      i := i + 1;
    }
    var p := NOTHING;
    i := 0;
    while i < ancount
      invariant 0 <= i <= ancount
      invariant Parse(lower, buf) == Answers(lower, buf, pos, ancount - i, p)
    {
      if pos >= |buf| {
        break;
      }
      var name := ParseName(buf, pos);
      if name.None? {
        return None;
      }
      pos := name.value.1;
      if pos + 10 > |buf| {
        return None;
      }
      var rtype := FromBe(buf[pos..pos + 2]);
      var rclass := FromBe(buf[pos + 2..pos + 4]);
      var rdlen := FromBe(buf[pos + 8..pos + 10]);
      pos := pos + 10;
      if pos + rdlen > |buf| {
        return None;
      }
      var rdata := buf[pos..pos + rdlen];
      p := TakeAnswer(lower, buf, p, name.value.0, rtype, rclass, pos, rdata);
      pos := pos + rdlen;
      i := i + 1;
    }
    r := Some(p);
  }

  // ----- the builder -----

  /** Labels with their lengths in front. */
  function LabelOctets(labels: seq<Bytes>): Bytes {
    if labels == [] then [] else [|labels[0]| % 256] + labels[0] + LabelOctets(labels[1..])
  }

  function EncodeName(name: Bytes): Bytes {
    var t := TrimDots(name);
    if t == [] then [0] else LabelOctets(SplitOn(t, DOT)) + [0]
  }

  datatype Record = Cname(name: Bytes, target: Bytes) | Address(name: Bytes, octets: Bytes)

  function Rdata(r: Record): Bytes {
    match r
    case Cname(_, target) => EncodeName(target)
    case Address(_, octets) => octets
  }

  function RecordType(r: Record): nat {
    match r
    case Cname(_, _) => TYPE_CNAME
    case Address(_, octets) => if |octets| == 4 then TYPE_A else TYPE_AAAA
  }

  /** Type, class, time to live and data length. */
  function RecordHeader(r: Record): (h: Bytes)
    ensures |h| == 10
  {
    Be(RecordType(r), 2) + Be(CLASS_INET, 2) + Be(0, 4) + Be(|Rdata(r)|, 2)
  }

  function EncodeRecord(r: Record): Bytes {
    EncodeName(r.name) + RecordHeader(r) + Rdata(r)
  }

  function EncodeRecords(rs: seq<Record>): Bytes {
    if rs == [] then [] else EncodeRecord(rs[0]) + EncodeRecords(rs[1..])
  }

  /** The header with the response bit set, no questions, and the answer count. */
  function MessageHeader(count: nat): (r: Bytes)
    ensures |r| == 12
  {
    Be(0, 2) + Be(0x8000, 2) + Be(0, 2) + Be(count, 2) + Be(0, 2) + Be(0, 2)
  }

  function Build(rs: seq<Record>): Bytes {
    MessageHeader(|rs|) + EncodeRecords(rs)
  }

  /** The builder as the program keeps it: a growing buffer and a 16-bit answer counter patched in at the end. */
  class DnsBuilder {
    var buf: Bytes
    var ancount: nat

    ghost var records: seq<Record>

    ghost predicate Valid()
      reads this
    {
      ancount == |records| % 65536 && buf == MessageHeader(0) + EncodeRecords(records)
    }

    constructor ()
      ensures Valid() && records == []
    {
      buf := MessageHeader(0);
      ancount := 0;
      records := [];
      new;
      assert buf + [] == buf;
    }

    /** One more record; the counter wraps as it does without overflow checks. */
    method Add(r: Record)
      requires Valid()
      modifies this
      ensures Valid() && records == old(records) + [r]
    {
      hide EncodeName, RecordHeader, Rdata, MessageHeader, EncodeRecords;
      buf := buf + EncodeName(r.name);
      buf := buf + RecordHeader(r);
      buf := buf + Rdata(r);
      ancount := if ancount == 65535 then 0 else ancount + 1;
      EncodeRecordsAppend(records, r);
      records := records + [r];
      assert buf == MessageHeader(0) + EncodeRecords(records);
    }

    method Finish() returns (message: Bytes)
      requires Valid()
      ensures message == Build(records)
    {
      hide EncodeRecords, MessageHeader;
      TwoOctetsWrap(|records|);
      message := buf[..6] + Be(ancount, 2) + buf[8..];
      CountPatched(|records|, EncodeRecords(records));
    }
  }

  lemma CountPatched(count: nat, rest: Bytes)
    ensures var buf := MessageHeader(0) + rest;
            buf[..6] + Be(count, 2) + buf[8..] == MessageHeader(count) + rest
  {
    hide Be;
  }

  lemma {:induction false} EncodeRecordsAppend(rs: seq<Record>, r: Record)
    ensures EncodeRecords(rs + [r]) == EncodeRecords(rs) + EncodeRecord(r)
  {
    if rs == [] {
      var none: seq<Record> := [];
      assert rs + [r] == [r] && [r][1..] == none;
      assert EncodeRecord(r) + [] == EncodeRecord(r);
    } else {
      assert (rs + [r])[1..] == rs[1..] + [r];
      EncodeRecordsAppend(rs[1..], r);
    }
  }

  // ----- reading labels and pointers -----

  /** Labels the reader takes for labels: not empty, below the pointer range, and text. */
  predicate GoodLabel(l: Bytes) {
    1 <= |l| < 0xC0 && Utf8.Valid(l)
  }

  predicate GoodLabels(labels: seq<Bytes>) {
    forall l | l in labels :: GoodLabel(l)
  }

  predicate Holds(buf: Bytes, pos: nat, octets: Bytes) {
    pos + |octets| <= |buf| && buf[pos..pos + |octets|] == octets
  }

  lemma HoldsBoth(buf: Bytes, pos: nat, a: Bytes, b: Bytes)
    requires Holds(buf, pos, a + b)
    ensures Holds(buf, pos, a) && Holds(buf, pos + |a|, b)
  {
    var both := buf[pos..pos + |a + b|];
    assert buf[pos..pos + |a|] == both[..|a|] == (a + b)[..|a|];
    assert buf[pos + |a|..pos + |a| + |b|] == both[|a|..] == (a + b)[|a|..];
  }

  lemma LabelStep(buf: Bytes, pos: nat, l: Bytes, hops: nat)
    requires GoodLabel(l) && hops <= MAX_HOPS && Holds(buf, pos, [|l| % 256] + l)
    ensures NameFrom(buf, pos, hops) == Prepend([l], NameFrom(buf, pos + 1 + |l|, hops))
  {
    hide NameFrom, Utf8.Valid, Prepend;
    HoldsBoth(buf, pos, [|l| % 256], l);
    assert buf[pos] == buf[pos..pos + 1][0] == |l|;
    ReadsLabel(buf, pos, hops);
  }

  lemma PrependTwice(a: seq<Bytes>, b: seq<Bytes>, rest: Option<(seq<Bytes>, nat)>)
    ensures Prepend(a, Prepend(b, rest)) == Prepend(a + b, rest)
  {
    if rest.Some? { assert a + (b + rest.value.0) == (a + b) + rest.value.0; }
  }

  lemma PrependNothing(rest: Option<(seq<Bytes>, nat)>)
    ensures Prepend([], rest) == rest
  {
    if rest.Some? { assert [] + rest.value.0 == rest.value.0; }
  }

  /** Labels read back as they were, in front of what stands after them. */
  lemma {:induction false} LabelsThen(buf: Bytes, pos: nat, labels: seq<Bytes>, hops: nat)
    requires GoodLabels(labels) && hops <= MAX_HOPS && Holds(buf, pos, LabelOctets(labels))
    ensures NameFrom(buf, pos, hops) == Prepend(labels, NameFrom(buf, pos + |LabelOctets(labels)|, hops))
    decreases |labels|
  {
    hide NameFrom, GoodLabel, Prepend, Holds;
    if labels == [] {
      PrependNothing(NameFrom(buf, pos, hops));
    } else {
      var l := labels[0];
      assert l in labels;
      HoldsBoth(buf, pos, [|l| % 256] + l, LabelOctets(labels[1..]));
      LabelStep(buf, pos, l, hops);
      forall m | m in labels[1..] ensures GoodLabel(m) { assert m in labels; }
      LabelsThen(buf, pos + 1 + |l|, labels[1..], hops);
      PrependTwice([l], labels[1..], NameFrom(buf, pos + |LabelOctets(labels)|, hops));
      assert [l] + labels[1..] == labels;
    }
  }

  function PointerTo(pos: nat): Bytes
    requires pos < 16384
  {
    [0xC0 + pos / 256, pos % 256]
  }

  lemma FollowsPointer(buf: Bytes, pos: nat, target: nat, hops: nat)
    requires hops <= MAX_HOPS && target < 16384 && Holds(buf, pos, PointerTo(target))
    ensures NameFrom(buf, pos, hops) == Behind(pos, NameFrom(buf, target, hops + 1))
  {
    hide NameFrom;
    var p := buf[pos..pos + 2];
    assert buf[pos] == p[0] == 0xC0 + target / 256 && buf[pos + 1] == p[1] == target % 256;
    assert PointerOffset(buf[pos], buf[pos + 1]) == target;
    ReadsPointer(buf, pos, hops);
  }

  lemma NameEnds(buf: Bytes, pos: nat, hops: nat)
    requires hops <= MAX_HOPS && Holds(buf, pos, [0])
    ensures NameFrom(buf, pos, hops) == Some(([], pos + 1))
  {
    hide NameFrom;
    assert buf[pos] == buf[pos..pos + 1][0] == 0;
    NameStops(buf, pos, hops);
  }

  /** One stretch of a compressed name: labels, then a pointer to the next stretch or the end of the name. */
  datatype Piece = Piece(pos: nat, labels: seq<Bytes>)

  /** The message holds the pieces of a name, each ending in a pointer to the next, the last one in a zero. */
  predicate Written(buf: Bytes, pieces: seq<Piece>)
    requires pieces != []
    decreases |pieces|
  {
    && GoodLabels(pieces[0].labels)
    && if |pieces| == 1 then Holds(buf, pieces[0].pos, LabelOctets(pieces[0].labels) + [0])
       else
         && pieces[1].pos < 16384
         && Holds(buf, pieces[0].pos, LabelOctets(pieces[0].labels) + PointerTo(pieces[1].pos))
         && Written(buf, pieces[1..])
  }

  function AllLabels(pieces: seq<Piece>): seq<Bytes> {
    if pieces == [] then [] else pieces[0].labels + AllLabels(pieces[1..])
  }

  /** Where reading goes on after a name: just past its first piece. */
  function PastPiece(pieces: seq<Piece>): nat
    requires pieces != []
  {
    pieces[0].pos + |LabelOctets(pieces[0].labels)| + if |pieces| == 1 then 1 else 2
  }

  lemma {:induction false} PiecesRead(buf: Bytes, pieces: seq<Piece>, hops: nat)
    requires pieces != [] && Written(buf, pieces) && hops <= MAX_HOPS
    ensures NameFrom(buf, pieces[0].pos, hops) ==
            if hops + |pieces| - 1 <= MAX_HOPS then Some((AllLabels(pieces), PastPiece(pieces))) else None
    decreases |pieces|
  {
    hide NameFrom, GoodLabels, Holds, LabelOctets, PointerTo;
    var first := pieces[0];
    var after := first.pos + |LabelOctets(first.labels)|;
    if |pieces| == 1 {
      HoldsBoth(buf, first.pos, LabelOctets(first.labels), [0]);
      NameEnds(buf, after, hops);
    } else {
      HoldsBoth(buf, first.pos, LabelOctets(first.labels), PointerTo(pieces[1].pos));
      FollowsPointer(buf, after, pieces[1].pos, hops);
      if hops < MAX_HOPS {
        PiecesRead(buf, pieces[1..], hops + 1);
      } else {
        NameStops(buf, pieces[1].pos, MAX_HOPS + 1);
      }
    }
    LabelsThen(buf, first.pos, first.labels, hops);
  }

  /**
    A compressed name reads as the labels of all its pieces, and reading goes on after the first piece,
    exactly when it takes at most 64 pointers; a longer chain is refused.
   */
  lemma CompressedNameReads(buf: Bytes, pieces: seq<Piece>)
    requires pieces != [] && Written(buf, pieces)
    ensures NameAt(buf, pieces[0].pos) ==
            if |pieces| - 1 <= MAX_HOPS then Some((Join(AllLabels(pieces)), PastPiece(pieces))) else None
  {
    hide NameFrom, Written;
    PiecesRead(buf, pieces, 0);
  }

  /** One label in front of a first piece makes a longer first piece. */
  lemma LongerPiece(buf: Bytes, pos: nat, l: Bytes, more: seq<Piece>) returns (pieces: seq<Piece>)
    requires more != [] && Written(buf, more) && more[0].pos == pos + 1 + |l|
    requires GoodLabel(l) && Holds(buf, pos, [|l| % 256] + l)
    ensures pieces != [] && pieces[0].pos == pos && Written(buf, pieces) && |pieces| == |more|
    ensures AllLabels(pieces) == [l] + AllLabels(more) && PastPiece(pieces) == PastPiece(more)
  {
    hide GoodLabel, PointerTo;
    var first := more[0];
    var labels := [l] + first.labels;
    pieces := [Piece(pos, labels)] + more[1..];
    assert pieces[1..] == more[1..] && labels[1..] == first.labels;
    assert LabelOctets(labels) == [|l| % 256] + l + LabelOctets(first.labels);
    var end := if |more| == 1 then [0] else PointerTo(more[1].pos);
    HoldsJoined(buf, pos, [|l| % 256] + l, LabelOctets(first.labels) + end);
    assert LabelOctets(labels) + end == [|l| % 256] + l + (LabelOctets(first.labels) + end);
    assert AllLabels(pieces) == labels + AllLabels(more[1..]) == [l] + (first.labels + AllLabels(more[1..]));
    if |more| > 1 { assert pieces[1] == more[1]; }
  }

  lemma HoldsJoined(buf: Bytes, pos: nat, a: Bytes, b: Bytes)
    requires Holds(buf, pos, a) && Holds(buf, pos + |a|, b)
    ensures Holds(buf, pos, a + b)
  {
    assert buf[pos..pos + |a + b|] == buf[pos..pos + |a|] + buf[pos + |a|..pos + |a| + |b|];
  }

  lemma PointerOctets(first: byte, second: byte)
    requires first >= 0xC0
    ensures PointerOffset(first, second) < 16384 && PointerTo(PointerOffset(first, second)) == [first, second]
  {
    var offset := PointerOffset(first, second);
    assert offset / 256 == first % 0x40 && offset % 256 == second;
  }

  /** Whatever is read as a name is written as pieces, one pointer from each to the next. */
  lemma {:induction false} ReadIsWritten(buf: Bytes, pos: nat, hops: nat) returns (pieces: seq<Piece>)
    requires hops <= MAX_HOPS && NameFrom(buf, pos, hops).Some?
    ensures pieces != [] && pieces[0].pos == pos && Written(buf, pieces) && hops + |pieces| - 1 <= MAX_HOPS
    decreases MAX_HOPS - hops, |buf| - pos
  {
    hide NameFrom, GoodLabel, Utf8.Valid, PointerOffset, PointerTo;
    NameStops(buf, pos, hops);
    var len := buf[pos];
    if len == 0 {
      pieces := [Piece(pos, [])];
      assert LabelOctets([]) + [0] == [0] && buf[pos..pos + 1] == [0];
    } else if len >= 0xC0 {
      ReadsPointer(buf, pos, hops);
      var target := PointerOffset(len, buf[pos + 1]);
      NameStops(buf, target, hops + 1);
      var more := ReadIsWritten(buf, target, hops + 1);
      pieces := [Piece(pos, [])] + more;
      PointerOctets(len, buf[pos + 1]);
      assert pieces[1..] == more && LabelOctets([]) + PointerTo(target) == PointerTo(target);
      assert buf[pos..pos + 2] == PointerTo(target);
    } else {
      ReadsLabel(buf, pos, hops);
      var l := buf[pos + 1..pos + 1 + len];
      var more := ReadIsWritten(buf, pos + 1 + len, hops);
      assert GoodLabel(l) by { TextLabel(l); }
      assert buf[pos..pos + 1 + len] == [len] + l;
      pieces := LongerPiece(buf, pos, l, more);
    }
  }

  lemma TextLabel(l: Bytes)
    requires 0 < |l| < 0xC0 && Utf8.Valid(l)
    ensures GoodLabel(l)
  {
  }

  /**
    Exactly which octets are read as which name: pieces of good labels, at most 64 pointers from one to the
    next, the last one ended by a zero. Reading goes on behind the first piece.
   */
  lemma NameReadsExactly(buf: Bytes, pos: nat, name: Bytes, end: nat)
    ensures NameAt(buf, pos) == Some((name, end)) <==>
            exists pieces: seq<Piece> ::
              && pieces != [] && pieces[0].pos == pos && Written(buf, pieces) && |pieces| <= 65
              && name == Join(AllLabels(pieces)) && end == PastPiece(pieces)
  {
    hide NameFrom, Written, Join, AllLabels, PastPiece;
    if NameAt(buf, pos) == Some((name, end)) {
      var pieces := ReadIsWritten(buf, pos, 0);
      CompressedNameReads(buf, pieces);
    }
    if pieces: seq<Piece> :|
      && pieces != [] && pieces[0].pos == pos && Written(buf, pieces) && |pieces| <= 65
      && name == Join(AllLabels(pieces)) && end == PastPiece(pieces) {
      CompressedNameReads(buf, pieces);
    }
  }

  // ----- the round trip -----

  /** A name, trailing dots aside, of good labels; or the root. */
  predicate GoodName(name: Bytes) {
    var t := TrimDots(name);
    t == [] || GoodLabels(SplitOn(t, DOT))
  }

  predicate GoodRecord(r: Record) {
    && GoodName(r.name)
    && match r
       case Cname(_, target) => GoodName(target)
       case Address(_, octets) => |octets| == 4 || |octets| == 16
  }

  /** The data length fits its 16-bit field. */
  predicate DataFits(r: Record) {
    |Rdata(r)| < 65536
  }

  /** What a list of records means: targets mapped back to the names they answer, and addresses in order. */
  function Meaning(lower: Lower, rs: seq<Record>, p: Parsed): Parsed {
    if rs == [] then p
    else
      var r := rs[0];
      var domain := lower(TrimDots(r.name));
      var next :=
        if domain == [] then p
        else
          match r
          case Cname(_, target) =>
            var cname := lower(TrimDots(target));
            if cname == [] then p else p.(cnames := p.cnames[cname := domain])
          case Address(_, octets) =>
            var known := if domain in p.addresses then p.addresses[domain] else [];
            p.(addresses := p.addresses[domain := known + [octets]]);
      Meaning(lower, rs[1..], next)
  }

  lemma {:induction false} JoinSplit(name: Bytes)
    ensures Join(SplitOn(name, DOT)) == name
  {
    if name != [] {
      JoinSplit(name[1..]);
      var rest := SplitOn(name[1..], DOT);
      if name[0] == DOT {
        assert ([[]] + rest)[1..] == rest;
        assert [] + [DOT] + name[1..] == name;
      } else {
        var r := [[name[0]] + rest[0]] + rest[1..];
        assert r[1..] == rest[1..];
        if |rest| > 1 {
          assert ([name[0]] + rest[0]) + [DOT] + Join(rest[1..]) == [name[0]] + (rest[0] + [DOT] + Join(rest[1..]));
        }
      }
    }
  }

  lemma {:induction false} SplitPlain(l: Bytes)
    requires DOT !in l
    ensures SplitOn(l, DOT) == [l]
  {
    if l != [] {
      SplitPlain(l[1..]);
      assert [l[0]] + l[1..] == l;
    }
  }

  lemma {:induction false} SplitFront(l: Bytes, rest: Bytes)
    requires DOT !in l
    ensures SplitOn(l + [DOT] + rest, DOT) == [l] + SplitOn(rest, DOT)
  {
    var text := l + [DOT] + rest;
    if l == [] {
      assert text[1..] == rest;
    } else {
      assert text[1..] == l[1..] + [DOT] + rest;
      SplitFront(l[1..], rest);
      assert [l[0]] + l[1..] == l;
    }
  }

  lemma {:induction false} SplitHasNoDots(name: Bytes)
    ensures forall l | l in SplitOn(name, DOT) :: DOT !in l
  {
    if name != [] { SplitHasNoDots(name[1..]); }
  }

  lemma {:induction false} SplitJoined(labels: seq<Bytes>)
    requires labels != [] && forall l | l in labels :: DOT !in l
    ensures SplitOn(Join(labels), DOT) == labels
  {
    hide SplitOn;
    assert labels[0] in labels;
    if |labels| == 1 {
      SplitPlain(labels[0]);
      assert labels == [labels[0]];
    } else {
      forall l | l in labels[1..] ensures DOT !in l { assert l in labels; }
      SplitJoined(labels[1..]);
      SplitFront(labels[0], Join(labels[1..]));
      assert labels == [labels[0]] + labels[1..];
    }
  }

  /** The labels of a name are the one list of dotless labels that joins to it. */
  lemma SplitExactly(name: Bytes, labels: seq<Bytes>)
    ensures labels == SplitOn(name, DOT) <==>
            labels != [] && (forall l | l in labels :: DOT !in l) && Join(labels) == name
  {
    hide SplitOn, Join;
    JoinSplit(name);
    SplitHasNoDots(name);
    if labels != [] && (forall l | l in labels :: DOT !in l) && Join(labels) == name { SplitJoined(labels); }
  }

  /** Trimming takes off all the dots at the end, and nothing else. */
  lemma {:induction false} TrimDotsExactly(name: Bytes)
    ensures var t := TrimDots(name);
            && t <= name && (forall i | |t| <= i < |name| :: name[i] == DOT)
            && (t != [] ==> t[|t| - 1] != DOT)
  {
    if name != [] && name[|name| - 1] == DOT { TrimDotsExactly(name[..|name| - 1]); }
  }

  lemma {:induction false} TrimDotsTwice(name: Bytes)
    ensures TrimDots(TrimDots(name)) == TrimDots(name)
  {
    if name != [] && name[|name| - 1] == DOT { TrimDotsTwice(name[..|name| - 1]); }
  }

  /** Labels written without pointers read back as they were, wherever they stand in a message. */
  lemma LabelsReadBack(pre: Bytes, labels: seq<Bytes>, post: Bytes)
    requires GoodLabels(labels)
    ensures var octets := LabelOctets(labels) + [0];
            NameFrom(pre + octets + post, |pre|, 0) == Some((labels, |pre| + |octets|))
  {
    hide NameFrom, LabelOctets, GoodLabels;
    var buf := pre + (LabelOctets(labels) + [0]) + post;
    assert buf[|pre|..|pre| + |LabelOctets(labels) + [0]|] == LabelOctets(labels) + [0];
    var piece := [Piece(|pre|, labels)];
    var none: seq<Piece> := [];
    assert piece[1..] == none && AllLabels(none) == [] && labels + [] == labels;
    PiecesRead(buf, piece, 0);
  }

  lemma NameReadsBack(pre: Bytes, name: Bytes, post: Bytes)
    requires GoodName(name)
    ensures NameAt(pre + EncodeName(name) + post, |pre|) == Some((TrimDots(name), |pre| + |EncodeName(name)|))
  {
    hide NameFrom, GoodLabel, LabelOctets;
    var t := TrimDots(name);
    if t == [] {
      var none: seq<Bytes> := [];
      assert LabelOctets(none) + [0] == [0] by { NoLabels(); }
      LabelsReadBack(pre, none, post);
    } else {
      LabelsReadBack(pre, SplitOn(t, DOT), post);
      JoinSplit(t);
    }
  }

  lemma NoLabels()
    ensures LabelOctets([]) == []
  {
  }

  lemma HeaderFields(r: Record)
    ensures var h := RecordHeader(r);
            && FromBe(h[0..2]) == RecordType(r) && FromBe(h[2..4]) == CLASS_INET
            && FromBe(h[8..10]) == |Rdata(r)| % 65536
  {
    hide Be, FromBe, Rdata;
    var h := RecordHeader(r);
    BeRoundTrip(RecordType(r), 2);
    BeRoundTrip(CLASS_INET, 2);
    BeRoundTrip(|Rdata(r)|, 2);
    WidthBounds();
    assert h[0..2] == Be(RecordType(r), 2);
    assert h[2..4] == Be(CLASS_INET, 2);
    assert h[8..10] == Be(|Rdata(r)|, 2);
  }

  /** The fields of one record inside a message. */
  lemma RecordSlices(pre: Bytes, name: Bytes, h: Bytes, rdata: Bytes, post: Bytes)
    requires |h| == 10
    ensures var buf := pre + (name + h + rdata) + post;
            var at := |pre| + |name|;
            && |buf| == at + 10 + |rdata| + |post|
            && buf[at..at + 2] == h[0..2] && buf[at + 2..at + 4] == h[2..4] && buf[at + 8..at + 10] == h[8..10]
            && buf[at + 10..at + 10 + |rdata|] == rdata
            && buf == pre + name + (h + rdata + post) && buf == (pre + name + h) + rdata + post
  {
  }

  /** One answer as the reader goes over it. */
  lemma AnswerStep(lower: Lower, buf: Bytes, pos: nat, n: nat, p: Parsed, name: Bytes, at: nat, rdlen: nat)
    requires n >= 1 && pos < |buf| && at + 10 + rdlen <= |buf|
    requires NameAt(buf, pos) == Some((name, at)) && FromBe(buf[at + 8..at + 10]) == rdlen
    ensures var rtype, rclass := FromBe(buf[at..at + 2]), FromBe(buf[at + 2..at + 4]);
            var rdata := buf[at + 10..at + 10 + rdlen];
            Answers(lower, buf, pos, n, p) ==
            Answers(lower, buf, at + 10 + rdlen, n - 1, TakeAnswer(lower, buf, p, name, rtype, rclass, at + 10, rdata))
  {
    hide NameAt, TakeAnswer, FromBe;
  }

  /**
    One encoded record is taken in as what it means. Reading goes on after as many octets of its data as
    the 16-bit length says: behind the record exactly when the data fits.
   */
  lemma RecordReadsBack(lower: Lower, pre: Bytes, r: Record, post: Bytes, n: nat, p: Parsed)
    requires GoodRecord(r) && n >= 1
    ensures var buf := pre + EncodeRecord(r) + post;
            var start := |pre| + |EncodeName(r.name)| + 10;
            && Answers(lower, buf, |pre|, n, p) ==
               Answers(lower, buf, start + |Rdata(r)| % 65536, n - 1, Meaning(lower, [r], p))
            && (start + |Rdata(r)| % 65536 == |pre| + |EncodeRecord(r)| <==> DataFits(r))
  {
    hide EncodeName, RecordHeader, NameAt, TrimDots, FromBe, Answers, TakeAnswer, Meaning, GoodName;
    var h, rdata, name := RecordHeader(r), Rdata(r), EncodeName(r.name);
    var buf := pre + EncodeRecord(r) + post;
    RecordSlices(pre, name, h, rdata, post);
    HeaderFields(r);
    NameReadsBack(pre, r.name, h + rdata + post);
    NameNonEmpty(r.name);
    var at, rdlen := |pre| + |name|, |rdata| % 65536;
    AnswerStep(lower, buf, |pre|, n, p, TrimDots(r.name), at, rdlen);
    AnswerMeans(lower, pre + name + h, r, post, p, buf[at + 10..at + 10 + rdlen]);
  }

  lemma NameNonEmpty(name: Bytes)
    ensures |EncodeName(name)| >= 1
  {
  }

  lemma AnswerMeans(lower: Lower, before: Bytes, r: Record, post: Bytes, p: Parsed, rdata: Bytes)
    requires GoodRecord(r) && (r.Address? ==> rdata == Rdata(r))
    ensures var buf := before + Rdata(r) + post;
            TakeAnswer(lower, buf, p, TrimDots(r.name), RecordType(r), CLASS_INET, |before|, rdata) ==
              Meaning(lower, [r], p)
  {
    hide EncodeName, NameAt, SplitOn;
    var none: seq<Record> := [];
    assert [r][1..] == none;
    TrimDotsTwice(r.name);
    if r.Cname? {
      NameReadsBack(before, r.target, post);
      TrimDotsTwice(r.target);
    }
  }

  lemma NoAnswers(lower: Lower, buf: Bytes, pos: nat, p: Parsed)
    ensures Answers(lower, buf, pos, 0, p) == Some(p) && Meaning(lower, [], p) == p
  {
  }

  /** The first `n` records are good, and all of them but the last have data that fits. */
  predicate Countable(rs: seq<Record>, n: nat)
    requires n <= |rs|
  {
    && (forall i | 0 <= i < n :: GoodRecord(rs[i]))
    && (forall i | 0 <= i < n - 1 :: DataFits(rs[i]))
  }

  /** Reading `n` answers off any longer list of records takes in what the first `n` mean. */
  lemma {:induction false} RecordsReadBack(lower: Lower, pre: Bytes, rs: seq<Record>, n: nat, p: Parsed)
    requires n <= |rs| && Countable(rs, n)
    ensures Answers(lower, pre + EncodeRecords(rs), |pre|, n, p) == Some(Meaning(lower, rs[..n], p))
    decreases n
  {
    hide EncodeRecord, GoodRecord, DataFits, Answers, Meaning;
    if n == 0 {
      assert rs[..0] == [];
      NoAnswers(lower, pre + EncodeRecords(rs), |pre|, p);
    } else {
      var r, rest, post := rs[0], rs[1..], EncodeRecords(rs[1..]);
      var p', pre' := Meaning(lower, [r], p), pre + EncodeRecord(r);
      RecordReadsBack(lower, pre, r, post, n, p);
      assert pre + EncodeRecords(rs) == pre' + post;
      MeaningStep(lower, rs[..n], p);
      assert rs[..n][0] == r && rs[..n][1..] == rest[..n - 1];
      if n == 1 {
        assert rest[..0] == [];
        var end := |pre| + |EncodeName(r.name)| + 10 + |Rdata(r)| % 65536;
        NoAnswers(lower, pre' + post, end, p');
      } else {
        assert DataFits(rs[0]);
        forall i | 0 <= i < n - 1 ensures GoodRecord(rest[i]) { assert rest[i] == rs[i + 1]; }
        forall i | 0 <= i < n - 2 ensures DataFits(rest[i]) { assert rest[i] == rs[i + 1]; }
        RecordsReadBack(lower, pre', rest, n - 1, p');
      }
    }
  }

  lemma MeaningStep(lower: Lower, rs: seq<Record>, p: Parsed)
    requires rs != []
    ensures Meaning(lower, rs, p) == Meaning(lower, rs[1..], Meaning(lower, [rs[0]], p))
  {
    var none: seq<Record> := [];
    assert [rs[0]][1..] == none;
  }

  lemma CountFields(count: nat, rest: Bytes)
    ensures var buf := MessageHeader(count) + rest;
            FromBe(buf[4..6]) == 0 && FromBe(buf[6..8]) == count % 65536
  {
    hide Be;
    var buf := MessageHeader(count) + rest;
    assert buf[4..6] == Be(0, 2);
    assert buf[6..8] == Be(count, 2);
    BeRoundTrip(count, 2);
    BeRoundTrip(0, 2);
    WidthBounds();
  }

  lemma ParsesAnswers(lower: Lower, rs: seq<Record>)
    ensures Parse(lower, Build(rs)) ==
            Answers(lower, MessageHeader(|rs|) + EncodeRecords(rs), |MessageHeader(|rs|)|, |rs| % 65536, NOTHING)
  {
    hide EncodeRecords, Answers, MessageHeader;
    CountFields(|rs|, EncodeRecords(rs));
  }

  /**
    Parsing a built response returns exactly what its records mean, as many of them as the 16-bit count
    says: for every list whose counted records are good and, the last one aside, have data that fits.
   */
  lemma BuildParse(lower: Lower, rs: seq<Record>)
    requires Countable(rs, |rs| % 65536)
    ensures Parse(lower, Build(rs)) == Some(Meaning(lower, rs[..|rs| % 65536], NOTHING))
  {
    hide EncodeRecords, Answers, Meaning, MessageHeader, Parse, Build, Countable;
    ParsesAnswers(lower, rs);
    RecordsReadBack(lower, MessageHeader(|rs|), rs, |rs| % 65536, NOTHING);
  }

  /** Up to 65535 records all of them are counted. */
  lemma BuildParseAll(lower: Lower, rs: seq<Record>)
    requires |rs| <= 65535 && Countable(rs, |rs|)
    ensures Parse(lower, Build(rs)) == Some(Meaning(lower, rs, NOTHING))
  {
    hide Meaning, Parse, Build, Countable;
    BuildParse(lower, rs);
    assert rs[..|rs|] == rs;
  }

  // ----- where the round trip ends -----

  lemma {:induction false} MeaningKeeps(lower: Lower, rs: seq<Record>, p: Parsed, domain: Bytes)
    requires domain in p.addresses
    ensures domain in Meaning(lower, rs, p).addresses
    decreases |rs|
  {
    if rs != [] {
      MeaningStep(lower, rs, p);
      OneKeeps(lower, rs[0], p, domain);
      MeaningKeeps(lower, rs[1..], Meaning(lower, [rs[0]], p), domain);
    }
  }

  lemma OneKeeps(lower: Lower, r: Record, p: Parsed, domain: Bytes)
    ensures domain in p.addresses ==> domain in Meaning(lower, [r], p).addresses
    ensures r.Cname? ==> Meaning(lower, [r], p).addresses == p.addresses
    ensures r.Address? && lower(TrimDots(r.name)) != [] ==> lower(TrimDots(r.name)) in Meaning(lower, [r], p).addresses
  {
    var none: seq<Record> := [];
    assert [r][1..] == none;
  }

  /** A multiple of 65536 records is counted as none: the response parses to nothing, whatever it holds. */
  lemma CountOverflow(lower: Lower, rs: seq<Record>)
    requires rs != [] && |rs| % 65536 == 0 && rs[0].Address? && lower(TrimDots(rs[0].name)) != []
    ensures Parse(lower, Build(rs)) == Some(NOTHING) && Meaning(lower, rs, NOTHING) != NOTHING
  {
    hide Meaning, Parse, Build;
    BuildParse(lower, rs);
    assert rs[..0] == [];
    NoAnswers(lower, [], 0, NOTHING);
    MeaningStep(lower, rs, NOTHING);
    var domain := lower(TrimDots(rs[0].name));
    OneKeeps(lower, rs[0], NOTHING, domain);
    MeaningKeeps(lower, rs[1..], Meaning(lower, [rs[0]], NOTHING), domain);
  }

  /** The one-letter name and the address record under it, octet by octet. */
  const LETTER: Bytes := [97]

  lemma LetterRecord(octets: Bytes)
    requires |octets| == 4
    ensures EncodeRecord(Address(LETTER, octets)) == [1, 97, 0, 0, 1, 0, 1, 0, 0, 0, 0, 0, 4] + octets
  {
    LetterName();
    TwoOctets(TYPE_A);
    TwoOctets(CLASS_INET);
    TwoOctets(4);
    FourZeros();
  }

  lemma LetterName()
    ensures EncodeName(LETTER) == [1, 97, 0] && TrimDots(LETTER) == LETTER && GoodName(LETTER)
  {
    var none: Bytes, rest: seq<Bytes>, labels: seq<Bytes> := [], [], [LETTER];
    assert LETTER[1..] == none && SplitOn(none, DOT) == [none] && [none][1..] == rest;
    assert SplitOn(LETTER, DOT) == [[LETTER[0]] + none] + rest;
    assert [LETTER[0]] + none == LETTER && SplitOn(LETTER, DOT) == labels;
    assert labels[1..] == rest && LabelOctets(rest) == none;
    assert LabelOctets(labels) == [1] + LETTER + none;
    Utf8.AsciiValid(LETTER);
  }

  lemma FourZeros()
    ensures Be(0, 4) == [0, 0, 0, 0]
  {
    TwoOctets(0);
    assert Be(0, 3) == Be(0, 2) + [0];
    assert Be(0, 4) == Be(0, 3) + [0];
  }

  lemma ZeroPair()
    ensures FromBe([0, 0]) == 0 && FromBe([1, 0]) == 256
  {
    var zero: Bytes, one: Bytes, none: Bytes := [0], [1], [];
    assert zero[..0] == none && one[..0] == none && FromBe(zero) == 0 && FromBe(one) == 1;
    var zeros: Bytes, high: Bytes := [0, 0], [1, 0];
    assert zeros[..1] == zero && high[..1] == one;
  }

  /** A CNAME record and one after it, when the first is given the data length zero. */
  lemma TwoRecords(lower: Lower, first: Record, second: Record)
    requires first.Cname? && GoodRecord(first) && |Rdata(first)| % 65536 == 0
    requires var post := EncodeRecord(second);
             |post| >= 10 && FromBe(post[2..4]) != CLASS_INET && FromBe(post[8..10]) == 0
    ensures Parse(lower, Build([first, second])) == Some(Meaning(lower, [first], NOTHING))
  {
    hide EncodeName, EncodeRecord, Rdata, Parse, Build, Answers, Meaning, MessageHeader, GoodName, RecordHeader;
    hide TrimDots, FromBe;
    var rs := [first, second];
    var none: seq<Record> := [];
    assert rs[1..] == [second] && [second][1..] == none;
    var pre, post := MessageHeader(2), EncodeRecord(second);
    assert EncodeRecords(none) == [] && EncodeRecords([second]) == post + [] == post;
    assert EncodeRecords(rs) == EncodeRecord(first) + post;
    assert pre + EncodeRecord(first) + post == pre + EncodeRecords(rs);
    ParsesAnswers(lower, rs);
    RecordReadsBack(lower, pre, first, post, 2, NOTHING);
    ReadOutOfPlace(lower, pre, first, post, Meaning(lower, [first], NOTHING));
  }

  /**
    A target whose encoding takes a multiple of 65536 octets is given the data length zero, so the record
    after it is read out of place: its address is lost, though both records are otherwise in order.
   */
  lemma OversizedTargetMisread(lower: Lower, name: Bytes, target: Bytes, octets: Bytes)
    requires GoodName(name) && GoodName(target) && |EncodeName(target)| % 65536 == 0
    requires |octets| == 4 && lower(LETTER) != []
    ensures var rs := [Cname(name, target), Address(LETTER, octets)];
            && GoodRecord(rs[0]) && GoodRecord(rs[1]) && !DataFits(rs[0])
            && Parse(lower, Build(rs)) == Some(Meaning(lower, [rs[0]], NOTHING))
            && Parse(lower, Build(rs)) != Some(Meaning(lower, rs, NOTHING))
  {
    hide EncodeName, EncodeRecord, Parse, Build, Meaning, GoodName, TrimDots;
    var first, second := Cname(name, target), Address(LETTER, octets);
    var rs, post := [first, second], EncodeRecord(second);
    LetterName();
    NameNonEmpty(target);
    LetterRecord(octets);
    ZeroPair();
    assert post[2..4] == [0, 0] && post[8..10] == [0, 0];
    TwoRecords(lower, first, second);
    assert rs[1..] == [second];
    MeaningStep(lower, rs, NOTHING);
    OneKeeps(lower, first, NOTHING, LETTER);
    OneKeeps(lower, second, Meaning(lower, [first], NOTHING), LETTER);
  }

  /** The same need not show: a record under the root, which means nothing, is also lost without a trace. */
  lemma OversizedTargetUnnoticed(lower: Lower, name: Bytes, target: Bytes, octets: Bytes)
    requires GoodName(name) && GoodName(target) && |EncodeName(target)| % 65536 == 0
    requires |octets| == 4 && lower([]) == []
    ensures var rs := [Cname(name, target), Address([], octets)];
            && GoodRecord(rs[0]) && GoodRecord(rs[1]) && !DataFits(rs[0])
            && Parse(lower, Build(rs)) == Some(Meaning(lower, rs, NOTHING))
  {
    hide EncodeName, EncodeRecord, Parse, Build, GoodName;
    var first, second := Cname(name, target), Address([], octets);
    var rs, post := [first, second], EncodeRecord(second);
    NameNonEmpty(target);
    RootRecord(octets);
    ZeroPair();
    assert post[2..4] == [1, 0];
    assert post[8..10] == [0, 0];
    TwoRecords(lower, first, second);
    assert rs[1..] == [second];
    MeaningStep(lower, rs, NOTHING);
    var none: seq<Record> := [];
    assert [second][1..] == none;
  }

  lemma RootRecord(octets: Bytes)
    requires |octets| == 4
    ensures EncodeRecord(Address([], octets)) == [0, 0, 1, 0, 1, 0, 0, 0, 0, 0, 4] + octets
    ensures GoodName([])
  {
    TwoOctets(TYPE_A);
    TwoOctets(CLASS_INET);
    TwoOctets(4);
    FourZeros();
  }

  lemma OtherClass(lower: Lower, buf: Bytes, p: Parsed, name: Bytes, rtype: nat, rclass: nat, start: nat, rdata: Bytes)
    requires rclass != CLASS_INET
    ensures TakeAnswer(lower, buf, p, name, rtype, rclass, start, rdata) == p
  {
    hide NameAt, TrimDots;
  }

  lemma BackSlice(front: Bytes, back: Bytes, i: nat, j: nat)
    requires i <= j <= |back|
    ensures (front + back)[|front| + i..|front| + j] == back[i..j]
  {
  }

  lemma ReadOutOfPlace(lower: Lower, pre: Bytes, r: Record, post: Bytes, p: Parsed)
    requires r.Cname? && GoodRecord(r)
    requires |post| >= 10 && FromBe(post[2..4]) != CLASS_INET && FromBe(post[8..10]) == 0
    ensures Answers(lower, pre + EncodeRecord(r) + post, |pre| + |EncodeName(r.name)| + 10, 1, p) == Some(p)
  {
    hide EncodeName, Answers, GoodName, RecordHeader, FromBe;
    RecordSlices(pre, EncodeName(r.name), RecordHeader(r), EncodeName(r.target), post);
    SkipsName(lower, pre + EncodeName(r.name) + RecordHeader(r), r.target, post, p);
  }

  /** A name followed by the fields of another class and no data is one answer that changes nothing. */
  lemma SkipsName(lower: Lower, front: Bytes, name: Bytes, post: Bytes, p: Parsed)
    requires GoodName(name) && |post| >= 10 && FromBe(post[2..4]) != CLASS_INET && FromBe(post[8..10]) == 0
    ensures Answers(lower, front + EncodeName(name) + post, |front|, 1, p) == Some(p)
  {
    hide EncodeName, NameAt, Answers, TakeAnswer, GoodName, FromBe, TrimDots;
    var buf, at := front + EncodeName(name) + post, |front| + |EncodeName(name)|;
    NameReadsBack(front, name, post);
    NameNonEmpty(name);
    BackSlice(front + EncodeName(name), post, 2, 4);
    BackSlice(front + EncodeName(name), post, 8, 10);
    var rtype, rclass, rdata := FromBe(buf[at..at + 2]), FromBe(buf[at + 2..at + 4]), buf[at + 10..at + 10 + 0];
    AnswerStep(lower, buf, |front|, 1, p, TrimDots(name), at, 0);
    OtherClass(lower, buf, p, TrimDots(name), rtype, rclass, at + 10, rdata);
    NoAnswers(lower, buf, at + 10, p);
  }

  function Letters(n: nat): (r: Bytes)
    ensures |r| == n && DOT !in r && Utf8.IsAscii(r)
  {
    seq(n, _ => 97)
  }

  /** A name of `n` labels of 63 letters and one of 62. */
  function LongName(n: nat): Bytes {
    if n == 0 then Letters(62) else Letters(63) + [DOT] + LongName(n - 1)
  }

  lemma {:induction false} LongNameLabels(n: nat)
    ensures var labels := SplitOn(LongName(n), DOT);
            GoodLabels(labels) && |LabelOctets(labels)| == 64 * n + 63
    ensures LongName(n) != [] && LongName(n)[|LongName(n)| - 1] != DOT
  {
    hide Letters, SplitOn, GoodLabel, LabelOctets;
    if n == 0 {
      SplitPlain(Letters(62));
      LettersLabel(62);
      NoLabels();
      OneLabelMore(Letters(62), []);
      assert [Letters(62)] + [] == [Letters(62)];
    } else {
      LongNameLabels(n - 1);
      SplitFront(Letters(63), LongName(n - 1));
      LettersLabel(63);
      OneLabelMore(Letters(63), SplitOn(LongName(n - 1), DOT));
    }
  }

  lemma LettersLabel(n: nat)
    requires 1 <= n <= 63
    ensures GoodLabel(Letters(n)) && Letters(n)[n - 1] != DOT
  {
    Utf8.AsciiValid(Letters(n));
  }

  lemma OneLabelMore(l: Bytes, labels: seq<Bytes>)
    ensures |LabelOctets([l] + labels)| == 1 + |l| + |LabelOctets(labels)|
  {
    assert ([l] + labels)[1..] == labels;
  }

  /** There are such targets, of labels within the 63 octets of RFC 1035. */
  lemma OversizedTargetExists() returns (target: Bytes)
    ensures GoodName(target) && |EncodeName(target)| == 65536
  {
    target := LongName(1023);
    LongNameLabels(1023);
  }
}
