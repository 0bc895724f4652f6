/** The strict reader of release archives: a small subset of the ustar format, and the writer it must agree with. */
module Tar {
  import opened Common
  import opened Utf8

  const BLOCK := 512
  const MAX_UNCOMPRESSED_BYTES := 512 * 1024 * 1024
  const MAX_ENTRY_BYTES := 256 * 1024 * 1024
  const MAX_BINARY_BYTES := 128 * 1024 * 1024
  const MAX_HEADERS := 128

  const NUL: byte := 0
  const SPACE: byte := 32
  const DOT: byte := 46
  const SLASH: byte := 47
  const ZERO: byte := 48
  const SEVEN: byte := 55
  const DIRECTORY: byte := 53

  datatype BinaryPayloads = BinaryPayloads(rustscale: Bytes, rustscaled: Bytes)

  function Fill(b: byte, n: nat): (r: Bytes)
    ensures |r| == n && forall i | 0 <= i < n :: r[i] == b
  {
    seq(n, _ => b)
  }

  predicate AllZero(b: Bytes) {
    forall i | 0 <= i < |b| :: b[i] == NUL
  }

  // ----- octal fields -----

  predicate OctalDigit(b: byte) {
    ZERO <= b <= SEVEN
  }

  function FromOctal(digits: Bytes): nat
    requires forall i | 0 <= i < |digits| :: OctalDigit(digits[i])
  {
    if digits == [] then 0
    else
      assert OctalDigit(digits[|digits| - 1]);
      8 * FromOctal(digits[..|digits| - 1]) + (digits[|digits| - 1] - ZERO)
  }

  predicate Blank(b: byte) {
    b == NUL || b == SPACE
  }

  function TrimLeft(b: Bytes): Bytes {
    if b != [] && Blank(b[0]) then TrimLeft(b[1..]) else b
  }

  function TrimRight(b: Bytes): Bytes {
    if b != [] && Blank(b[|b| - 1]) then TrimRight(b[..|b| - 1]) else b
  }

  /** The value of a numeric field: trimmed octal text, zero when blank; base-256 values are refused. */
  function ParseOctal(field: Bytes): Option<nat> {
    if field != [] && field[0] >= 0x80 then None
    else if !Utf8.Valid(field) then None
    else
      var text := TrimRight(TrimLeft(field));
      if text == [] then Some(0)
      else if forall i | 0 <= i < |text| :: OctalDigit(text[i]) then Some(FromOctal(text))
      else None
  }

  /** Octal without leading zeros. */
  function OctalText(v: nat): (r: Bytes)
    ensures r != [] && forall i | 0 <= i < |r| :: OctalDigit(r[i])
  {
    if v < 8 then [ZERO + v] else OctalText(v / 8) + [ZERO + v % 8]
  }

  /** A numeric field: zeros, the octal text, and a final NUL. */
  function WriteOctal(v: nat, width: nat): (r: Bytes)
    requires |OctalText(v)| < width
    ensures |r| == width
  {
    Fill(ZERO, width - 1 - |OctalText(v)|) + OctalText(v) + [NUL]
  }

  function Pow8(n: nat): nat {
    if n == 0 then 1 else 8 * Pow8(n - 1)
  }

  lemma {:induction false} OctalTextFits(v: nat, n: nat)
    requires n >= 1 && v < Pow8(n)
    ensures |OctalText(v)| <= n
  {
    if v >= 8 { OctalTextFits(v / 8, n - 1); }
  }

  lemma {:induction false} OctalTextValue(v: nat)
    ensures FromOctal(OctalText(v)) == v
  {
    if v >= 8 {
      OctalTextValue(v / 8);
      assert OctalText(v)[..|OctalText(v)| - 1] == OctalText(v / 8);
    } else {
      assert OctalText(v)[..0] == [];
    }
  }

  lemma {:induction false} LeadingZerosIgnored(n: nat, digits: Bytes)
    requires forall i | 0 <= i < |digits| :: OctalDigit(digits[i])
    ensures FromOctal(Fill(ZERO, n) + digits) == FromOctal(digits)
    decreases n, |digits|
  {
    var all := Fill(ZERO, n) + digits;
    if digits == [] {
      if n > 0 {
        assert all[..n - 1] == Fill(ZERO, n - 1) + [];
        LeadingZerosIgnored(n - 1, []);
      }
    } else {
      assert all[..|all| - 1] == Fill(ZERO, n) + digits[..|digits| - 1];
      LeadingZerosIgnored(n, digits[..|digits| - 1]);
    }
  }

  /** A final NUL is trimmed off octal digits. */
  lemma ParsesDigits(digits: Bytes)
    requires digits != [] && forall i | 0 <= i < |digits| :: OctalDigit(digits[i])
    ensures ParseOctal(digits + [NUL]) == Some(FromOctal(digits))
  {
    hide FromOctal, Utf8.Valid;
    var field := digits + [NUL];
    assert field[0] == digits[0] && OctalDigit(digits[0]) && TrimLeft(field) == field;
    assert field[..|field| - 1] == digits;
    assert OctalDigit(digits[|digits| - 1]) && TrimRight(digits) == digits;
    AsciiValid(field);
  }

  /** A written field reads back as its value. */
  lemma OctalRoundTrip(v: nat, width: nat)
    requires |OctalText(v)| < width
    ensures ParseOctal(WriteOctal(v, width)) == Some(v)
  {
    hide OctalText, FromOctal, ParseOctal;
    ParsesDigits(Fill(ZERO, width - 1 - |OctalText(v)|) + OctalText(v));
    LeadingZerosIgnored(width - 1 - |OctalText(v)|, OctalText(v));
    OctalTextValue(v);
  }

  predicate AllBlank(b: Bytes) {
    forall i | 0 <= i < |b| :: b[i] == 0 || b[i] == 32
  }

  predicate AllOctal(b: Bytes) {
    forall i | 0 <= i < |b| :: OctalDigit(b[i])
  }

  /** A numeric field: octal digits, or none, between NULs and spaces. */
  ghost predicate OctalField(field: Bytes, v: nat) {
    exists left, digits, right ::
      field == left + digits + right && AllBlank(left) && AllOctal(digits) && AllBlank(right) && FromOctal(digits) == v
  }

  /** Octal is positional: digits in front count eight times for each digit behind them. */
  lemma {:induction false} OctalIsPositional(a: Bytes, b: Bytes)
    requires AllOctal(a) && AllOctal(b)
    ensures AllOctal(a + b) && FromOctal(a + b) == FromOctal(a) * Pow8(|b|) + FromOctal(b)
    ensures |b| == 1 ==> FromOctal(b) == b[0] as int - 48
    decreases |b|
  {
    if b == [] {
      assert a + b == a;
    } else {
      var init, last := b[..|b| - 1], b[|b| - 1];
      OctalIsPositional(a, init);
      assert b == init + [last];
      OneOctalMore(init, last);
      assert a + b == (a + init) + [last];
      OneOctalMore(a + init, last);
      ProductByEight(FromOctal(a), Pow8(|init|));
    }
  }

  lemma OneOctalMore(digits: Bytes, d: byte)
    requires AllOctal(digits) && OctalDigit(d)
    ensures AllOctal(digits + [d]) && FromOctal(digits + [d]) == 8 * FromOctal(digits) + (d as int - 48)
  {
    assert (digits + [d])[..|digits|] == digits;
  }

  lemma ProductByEight(x: nat, p: nat)
    ensures x * (8 * p) == 8 * (x * p)
  {
  }

  lemma {:induction false} TrimsLeft(left: Bytes, rest: Bytes)
    requires AllBlank(left)
    ensures TrimLeft(left + rest) == TrimLeft(rest)
  {
    if left == [] {
      assert left + rest == rest;
    } else {
      assert (left + rest)[1..] == left[1..] + rest;
      TrimsLeft(left[1..], rest);
    }
  }

  lemma {:induction false} TrimsRight(front: Bytes, right: Bytes)
    requires AllBlank(right)
    ensures TrimRight(front + right) == TrimRight(front)
  {
    if right == [] {
      assert front + right == front;
    } else {
      var n := |right| - 1;
      assert (front + right)[..|front + right| - 1] == front + right[..n];
      TrimsRight(front, right[..n]);
    }
  }

  lemma {:induction false} LeftTrimmed(b: Bytes) returns (left: Bytes)
    ensures b == left + TrimLeft(b) && AllBlank(left)
  {
    if b != [] && Blank(b[0]) {
      var more := LeftTrimmed(b[1..]);
      left := [b[0]] + more;
    } else {
      left := [];
    }
  }

  lemma {:induction false} RightTrimmed(b: Bytes) returns (right: Bytes)
    ensures b == TrimRight(b) + right && AllBlank(right)
  {
    if b != [] && Blank(b[|b| - 1]) {
      var more := RightTrimmed(b[..|b| - 1]);
      right := more + [b[|b| - 1]];
      assert b == b[..|b| - 1] + [b[|b| - 1]];
    } else {
      right := [];
    }
  }

  lemma TrimsToDigits(left: Bytes, digits: Bytes, right: Bytes)
    requires AllBlank(left) && AllOctal(digits) && AllBlank(right)
    ensures TrimRight(TrimLeft(left + digits + right)) == digits
  {
    assert left + digits + right == left + (digits + right);
    TrimsLeft(left, digits + right);
    if digits == [] {
      assert digits + right == right && right == right + [];
      TrimsLeft(right, []);
    } else {
      assert (digits + right)[0] == digits[0] && OctalDigit(digits[0]) && OctalDigit(digits[|digits| - 1]);
      assert TrimLeft(digits + right) == digits + right;
      TrimsRight(digits, right);
    }
  }

  /** A numeric field is read, as this value, exactly when it is octal digits between NULs and spaces. */
  lemma ParsesOctalExactly(field: Bytes, v: nat)
    ensures ParseOctal(field) == Some(v) <==> OctalField(field, v)
  {
    hide FromOctal, Utf8.Valid;
    if ParseOctal(field) == Some(v) {
      var left := LeftTrimmed(field);
      var right := RightTrimmed(TrimLeft(field));
      var digits := TrimRight(TrimLeft(field));
      assert FromOctal([]) == 0 by { NoDigits(); }
      assert field == left + digits + right && AllOctal(digits);
    }
    if OctalField(field, v) {
      var left, digits, right :|
        field == left + digits + right && AllBlank(left) && AllOctal(digits) && AllBlank(right)
          && FromOctal(digits) == v;
      TrimsToDigits(left, digits, right);
      forall i | 0 <= i < |field| ensures field[i] < 0x80 {
        assert i < |left| ==> field[i] == left[i];
        assert |left| <= i < |left| + |digits| ==> field[i] == digits[i - |left|] && OctalDigit(digits[i - |left|]);
      }
      AsciiValid(field);
      assert FromOctal([]) == 0 by { NoDigits(); }
    }
  }

  lemma NoDigits()
    ensures FromOctal([]) == 0
  {
  }

  // ----- checksum -----

  function Sum(b: Bytes): nat {
    if b == [] then 0 else Sum(b[..|b| - 1]) + b[|b| - 1]
  }

  lemma {:induction false} SumBound(b: Bytes)
    ensures Sum(b) <= 255 * |b|
  {
    if b != [] { SumBound(b[..|b| - 1]); }
  }

  function ChecksumField(): (r: Bytes)
    ensures |r| == 8
  {
    Fill(SPACE, 8)
  }

  /** The sum over a header with its checksum field read as spaces. */
  function HeaderSum(header: Bytes): nat
    requires |header| == BLOCK
  {
    Sum(header[..148] + ChecksumField() + header[156..])
  }

  predicate ChecksumMatches(header: Bytes)
    requires |header| == BLOCK
  {
    ParseOctal(header[148..156]) == Some(HeaderSum(header))
  }

  lemma {:induction false} SumAppend(a: Bytes, b: Bytes)
    ensures Sum(a + b) == Sum(a) + Sum(b)
    decreases |b|
  {
    if b == [] {
      assert a + b == a;
    } else {
      assert (a + b)[..|a + b| - 1] == a + b[..|b| - 1];
      SumAppend(a, b[..|b| - 1]);
    }
  }

  lemma {:induction false} SumOfSame(b: byte, n: nat)
    ensures Sum(Fill(b, n)) == b * n
  {
    if n > 0 {
      assert Fill(b, n)[..n - 1] == Fill(b, n - 1);
      SumOfSame(b, n - 1);
    }
  }

  /** The checksum counts every octet of the header, its own eight as spaces. */
  lemma HeaderSumExactly(header: Bytes)
    requires |header| == BLOCK
    ensures HeaderSum(header) == Sum(header[..148]) + 8 * 32 + Sum(header[156..])
  {
    SumAppend(header[..148] + ChecksumField(), header[156..]);
    SumAppend(header[..148], ChecksumField());
    SumOfSame(SPACE, 8);
  }

  // ----- names -----

  function FirstNul(field: Bytes): (n: nat)
    ensures n <= |field| && (n < |field| ==> field[n] == NUL) && forall i | 0 <= i < n :: field[i] != NUL
  {
    if field == [] || field[0] == NUL then 0
    else
      var m := FirstNul(field[1..]);
      assert forall i | 0 < i < 1 + m :: field[i] == field[1..][i - 1];
      1 + m
  }

  function ParseTextField(field: Bytes): Option<Bytes> {
    var end := FirstNul(field);
    if AllZero(field[end..]) && Utf8.Valid(field[..end]) then Some(field[..end]) else None
  }

  predicate Graphic(b: byte) {
    33 <= b <= 126
  }

  predicate ValidPath(name: Bytes) {
    && name != [] && |name| <= 100
    && (forall i | 0 <= i < |name| :: Graphic(name[i]))
    && name[0] != SLASH
    && [DOT, DOT] !in SplitOn(name, SLASH)
  }

  function NormalizeTopLevel(name: Bytes): Option<Bytes> {
    var normalized := if [DOT, SLASH] <= name then name[2..] else name;
    if normalized == [] || SLASH in normalized || normalized == [DOT] || normalized == [DOT, DOT] then None
    else Some(normalized)
  }

  /** `top` is a plain file name, and `name` is it, perhaps written with a leading "./". */
  predicate TopLevelName(name: Bytes, top: Bytes) {
    && top != [] && SLASH !in top && top != Ascii(".") && top != Ascii("..")
    && (name == top || name == Ascii("./") + top)
  }

  lemma TopLevelExactly(name: Bytes, top: Bytes)
    ensures NormalizeTopLevel(name) == Some(top) <==> TopLevelName(name, top)
  {
    assert Ascii(".") == [DOT] && Ascii("..") == [DOT, DOT] && Ascii("./") == [DOT, SLASH];
    if [DOT, SLASH] <= name {
      assert name == [DOT, SLASH] + name[2..];
      assert name[1] == SLASH && SLASH in name;
    }
    if name == [DOT, SLASH] + top {
      assert name[2..] == top;
    }
  }

  lemma {:induction false} PlainIsOnePart(text: Bytes)
    requires SLASH !in text
    ensures SplitOn(text, SLASH) == [text]
  {
    if text != [] {
      PlainIsOnePart(text[1..]);
      OnePartMore(text, [text[1..]]);
    }
  }

  lemma OnePartMore(text: Bytes, rest: seq<Bytes>)
    requires text != [] && text[0] != SLASH && SplitOn(text[1..], SLASH) == rest && rest != []
    ensures SplitOn(text, SLASH) == [[text[0]] + rest[0]] + rest[1..]
    ensures rest == [text[1..]] ==> SplitOn(text, SLASH) == [text]
  {
    assert [text[0]] + text[1..] == text;
  }

  /** A top-level name never has a parent component, with or without the leading "./". */
  lemma TopLevelNoParent(name: Bytes, top: Bytes)
    requires TopLevelName(name, top)
    ensures [DOT, DOT] !in SplitOn(name, SLASH) && name != [] && name[0] != SLASH
  {
    assert Ascii(".") == [DOT] && Ascii("..") == [DOT, DOT] && Ascii("./") == [DOT, SLASH];
    PlainIsOnePart(top);
    if name != top {
      assert name[1..] == [SLASH] + top && name[1..][1..] == top;
      assert SplitOn(name[1..], SLASH) == [[]] + [top];
      var rest: seq<Bytes> := [[], top];
      assert SplitOn(name[1..], SLASH) == rest;
      OnePartMore(name, rest);
      assert name[0] == DOT && rest[1..] == [top] && [name[0]] + rest[0] == [DOT];
      assert SplitOn(name, SLASH) == [[DOT]] + [top];
    }
  }

  function ClientName(): Bytes {
    Ascii("rustscale")
  }

  function DaemonName(): Bytes {
    Ascii("rustscaled")
  }

  // ----- what an entry does -----

  /** The reader's progress: entries seen, zero blocks seen, payload octets, and the two binaries. */
  datatype Progress = Progress(headers: nat, zeros: nat, total: nat, rustscale: Option<Bytes>,
    rustscaled: Option<Bytes>)

  function SetBinary(slot: Option<Bytes>, payload: Bytes): Option<Option<Bytes>> {
    if slot.Some? || payload == [] || |payload| > MAX_BINARY_BYTES then None else Some(Some(payload))
  }

  function Finish(s: Progress): Option<BinaryPayloads> {
    if s.rustscale.Some? && s.rustscaled.Some? then Some(BinaryPayloads(s.rustscale.value, s.rustscaled.value))
      else None
  }

  /** The count, size and name rules, before the payload is looked at. */
  predicate Admissible(s: Progress, name: Bytes, size: nat) {
    && s.headers + 1 <= MAX_HEADERS
    && ValidPath(name)
    && size <= MAX_ENTRY_BYTES
    && s.total + size <= MAX_UNCOMPRESSED_BYTES
  }

  /** Takes in one entry, or refuses the archive. */
  function TakeEntry(s: Progress, name: Bytes, kind: byte, payload: Bytes): Option<Progress> {
    var s' := s.(headers := s.headers + 1, total := s.total + |payload|);
    if kind == DIRECTORY then
      if |payload| == 0 && (name == [DOT] || name == [DOT, SLASH]) then Some(s') else None
    else if kind == NUL || kind == ZERO then
      match NormalizeTopLevel(name)
      case None => None
      case Some(top) =>
        if top == ClientName() then
          match SetBinary(s.rustscale, payload) case None => None case Some(slot) => Some(s'.(rustscale := slot))
        else if top == DaemonName() then
          match SetBinary(s.rustscaled, payload) case None => None case Some(slot) => Some(s'.(rustscaled := slot))
        else Some(s')
    else None
  }

  // ----- reading -----

  function Padded(size: nat): (r: nat)
    ensures r >= size && r % BLOCK == 0 && r < size + BLOCK
  {
    (size + BLOCK - 1) / BLOCK * BLOCK
  }

  function UstarMagic(): (r: Bytes)
    ensures |r| == 6
  {
    Ascii("ustar") + [NUL]
  }

  /** The GNU spelling, with a space. */
  function UstarSpaceMagic(): (r: Bytes)
    ensures |r| == 6
  {
    Ascii("ustar ")
  }

  datatype Header = Header(name: Bytes, size: nat, kind: byte)

  /** A header block that is well formed in itself. */
  function ReadHeader(header: Bytes): Option<Header>
    requires |header| == BLOCK
  {
    if !ChecksumMatches(header) then None
    else if header[257..263] != UstarMagic() && header[257..263] != UstarSpaceMagic() then None
    else if !AllZero(header[345..500]) then None
    else
      var name := ParseTextField(header[0..100]);
      var size := ParseOctal(header[124..136]);
      if name.None? || size.None? then None else Some(Header(name.value, size.value, header[156]))
  }

  /** The name field: the name, and NULs to the end of it. */
  predicate NameFieldOf(field: Bytes, name: Bytes) {
    && name <= field && NUL !in name && Utf8.Valid(name)
    && forall i | |name| <= i < |field| :: field[i] == 0
  }

  /** A header block, octet by octet, that names an entry of this name, size and kind. */
  ghost predicate HeaderBlock(h: Bytes, name: Bytes, size: nat, kind: byte) {
    && |h| == 512
    && NameFieldOf(h[0..100], name) && OctalField(h[124..136], size) && h[156] == kind
    && OctalField(h[148..156], Sum(h[..148]) + 8 * 32 + Sum(h[156..]))
    && (h[257..263] == Ascii("ustar") + [0] || h[257..263] == Ascii("ustar "))
    && forall i | 345 <= i < 500 :: h[i] == 0
  }

  lemma ParsesNameExactly(field: Bytes, name: Bytes)
    ensures ParseTextField(field) == Some(name) <==> NameFieldOf(field, name)
  {
    hide Utf8.Valid;
    if NameFieldOf(field, name) {
      var rest := field[|name|..];
      assert field == name + rest;
      FirstNulAfter(name, rest);
    }
    if ParseTextField(field) == Some(name) {
      var end := FirstNul(field);
      assert forall i | end <= i < |field| :: field[i] == field[end..][i - end];
    }
  }

  /** A header is read, with this result, exactly when it is such a block; in particular it must sum up. */
  lemma ReadsHeaderExactly(h: Bytes, name: Bytes, size: nat, kind: byte)
    requires |h| == BLOCK
    ensures ReadHeader(h) == Some(Header(name, size, kind)) <==> HeaderBlock(h, name, size, kind)
  {
    hide Utf8.Valid, Sum, HeaderSum, OctalField, ParseOctal, ParseTextField, NameFieldOf, Ascii;
    HeaderSumExactly(h);
    ParsesOctalExactly(h[148..156], HeaderSum(h));
    ParsesOctalExactly(h[124..136], size);
    ParsesNameExactly(h[0..100], name);
    assert AllZero(h[345..500]) <==> forall i | 345 <= i < 500 :: h[i] == 0 by { ZeroSlice(h, 345, 500); }
  }

  lemma ZeroSlice(h: Bytes, a: nat, b: nat)
    requires a <= b <= |h|
    ensures AllZero(h[a..b]) <==> forall i | a <= i < b :: h[i] == 0
  {
    assert forall i | a <= i < b :: h[i] == h[a..b][i - a];
  }

  function ParseRest(rest: Bytes, s: Progress): Option<BinaryPayloads>
    decreases |rest|
  {
    if |rest| < BLOCK then None
    else
      var header := rest[..BLOCK];
      var after := rest[BLOCK..];
      if AllZero(header) then
        if s.zeros + 1 == 2 then if AllZero(after) then Finish(s) else None
        else ParseRest(after, s.(zeros := s.zeros + 1))
      else if s.zeros != 0 then None
      else
        match ReadHeader(header)
        case None => None
        case Some(h) =>
          if !Admissible(s, h.name, h.size) || Padded(h.size) > |after| then None
          else
            match TakeEntry(s, h.name, h.kind, after[..h.size])
            case None => None
            case Some(s') => ParseRest(after[Padded(h.size)..], s')
  }

  const START := Progress(0, 0, 0, None, None)

  function Parse(tar: Bytes): Option<BinaryPayloads> {
    ParseRest(tar, START)
  }

  /** The reader's loop over the whole archive. */
  method ParseTar(tar: Bytes) returns (r: Option<BinaryPayloads>)
    ensures r == Parse(tar)
  {
    hide ReadHeader, TakeEntry, Admissible, Finish;
    var offset := 0;
    var s := START;
    assert tar[0..] == tar;
    while offset + BLOCK <= |tar|
      invariant 0 <= offset <= |tar|
      invariant Parse(tar) == ParseRest(tar[offset..], s)
      decreases |tar| - offset
    {
      var header := tar[offset..offset + BLOCK];
      assert tar[offset..][..BLOCK] == header && tar[offset..][BLOCK..] == tar[offset + BLOCK..];
      offset := offset + BLOCK;
      if AllZero(header) {
        if s.zeros + 1 == 2 {
          return if AllZero(tar[offset..]) then Finish(s) else None;
        }
        s := s.(zeros := s.zeros + 1);
      } else {
        if s.zeros != 0 {
          return None;
        }
        var h := ReadHeader(header);
        if h.None? || !Admissible(s, h.value.name, h.value.size) || offset + Padded(h.value.size) > |tar| {
          return None;
        }
        var size := h.value.size;
        assert tar[offset..][..size] == tar[offset..offset + size];
        assert tar[offset..][Padded(size)..] == tar[offset + Padded(size)..];
        var s' := TakeEntry(s, h.value.name, h.value.kind, tar[offset..offset + size]);
        if s'.None? {
          return None;
        }
        s := s'.value;
        offset := offset + Padded(size);
      }
    }
    r := None;
  }

  // ----- writing -----

  datatype Entry = Entry(name: Bytes, kind: byte, body: Bytes)

  /** An entry the writer can represent: the name fits its field, the size fits eleven octal digits. */
  predicate Writable(e: Entry) {
    |e.name| <= 100 && NUL !in e.name && Utf8.Valid(e.name) && |e.body| < Pow8(11)
  }

  function NameField(e: Entry): (r: Bytes)
    requires Writable(e)
    ensures |r| == 100
  {
    e.name + Fill(NUL, 100 - |e.name|)
  }

  /** Mode, owner, group, size and time. */
  function NumberFields(e: Entry): (r: Bytes)
    requires Writable(e)
    ensures |r| == 48
  {
    SmallOctal(e);
    WriteOctal(493, 8) + WriteOctal(0, 8) + WriteOctal(0, 8) + WriteOctal(|e.body|, 12) + WriteOctal(0, 12)
  }

  /** Kind, link name, magic, version, and the unused remainder. */
  function TailFields(e: Entry): (r: Bytes)
    ensures |r| == 356
  {
    [e.kind] + Fill(NUL, 100) + UstarMagic() + [ZERO, ZERO] + Fill(NUL, 247)
  }

  /** A header block with the given checksum field. */
  function HeaderWith(e: Entry, checksum: Bytes): (r: Bytes)
    requires Writable(e) && |checksum| == 8
    ensures |r| == BLOCK
  {
    NameField(e) + NumberFields(e) + checksum + TailFields(e)
  }

  lemma SmallOctal(e: Entry)
    requires Writable(e)
    ensures |OctalText(493)| < 8 && |OctalText(0)| < 8 && |OctalText(|e.body|)| < 12
  {
    assert Pow8(3) == 512;
    OctalTextFits(493, 3);
    OctalTextFits(|e.body|, 11);
  }

  function WriteHeader(e: Entry): (r: Bytes)
    requires Writable(e)
    ensures |r| == BLOCK
  {
    var sum := Sum(HeaderWith(e, ChecksumField()));
    SumFits(HeaderWith(e, ChecksumField()));
    HeaderWith(e, WriteOctal(sum, 8))
  }

  /** A block sums to at most 130560, which seven octal digits hold. */
  lemma SumFits(block: Bytes)
    requires |block| == BLOCK
    ensures Sum(block) <= 130560 && |OctalText(Sum(block))| < 8
  {
    SumBound(block);
    assert Pow8(3) == 512;
    assert Pow8(6) == 262144;
    OctalTextFits(Sum(block), 6);
  }

  function WriteEntries(entries: seq<Entry>): Bytes
    requires forall e | e in entries :: Writable(e)
  {
    if entries == [] then []
    else
      var e := entries[0];
      WriteHeader(e) + e.body + Fill(NUL, Padded(|e.body|) - |e.body|) + WriteEntries(entries[1..])
  }

  function WriteTar(entries: seq<Entry>): Bytes
    requires forall e | e in entries :: Writable(e)
  {
    WriteEntries(entries) + Fill(NUL, 2 * BLOCK)
  }

  // ----- agreement -----

  /** What the rules say of a list of entries, without any octets in between. */
  function Judge(entries: seq<Entry>, s: Progress): Option<BinaryPayloads> {
    if entries == [] then Finish(s)
    else
      var e := entries[0];
      if !Admissible(s, e.name, |e.body|) then None
      else
        match TakeEntry(s, e.name, e.kind, e.body)
        case None => None
        case Some(s') => Judge(entries[1..], s')
  }

  lemma TailSlices(e: Entry)
    ensures var t := TailFields(e);
            t[0] == e.kind && t[101..107] == UstarMagic() && AllZero(t[189..344]) && !AllZero(t)
  {
    var t := TailFields(e);
    assert t[101..107] == UstarMagic();
    assert t[107] == ZERO;
  }

  lemma SizeSlice(e: Entry)
    requires Writable(e)
    ensures |OctalText(|e.body|)| < 12 && NumberFields(e)[24..36] == WriteOctal(|e.body|, 12)
  {
    SmallOctal(e);
  }

  lemma HeaderSlices(e: Entry, checksum: Bytes)
    requires Writable(e) && |checksum| == 8
    ensures var h := HeaderWith(e, checksum);
            && h[0..100] == NameField(e) && h[124..136] == NumberFields(e)[24..36]
            && h[148..156] == checksum && h[156] == e.kind && h[257..263] == UstarMagic()
            && AllZero(h[345..500]) && !AllZero(h)
            && h[..148] + ChecksumField() + h[156..] == HeaderWith(e, ChecksumField())
  {
    hide NameField, NumberFields, TailFields, UstarMagic, ChecksumField;
    TailSlices(e);
    var h := HeaderWith(e, checksum);
    assert h[156..] == TailFields(e);
    assert h[..148] == NameField(e) + NumberFields(e);
    assert h[257..263] == TailFields(e)[101..107];
    assert h[345..500] == TailFields(e)[189..344];
  }

  lemma {:induction false} FirstNulAfter(name: Bytes, rest: Bytes)
    requires NUL !in name && (rest != [] ==> rest[0] == NUL)
    ensures FirstNul(name + rest) == |name|
  {
    if name == [] {
      assert name + rest == rest;
    } else {
      assert (name + rest)[1..] == name[1..] + rest;
      FirstNulAfter(name[1..], rest);
    }
  }

  lemma NameReadsBack(e: Entry)
    requires Writable(e)
    ensures ParseTextField(NameField(e)) == Some(e.name)
  {
    var pad := Fill(NUL, 100 - |e.name|);
    FirstNulAfter(e.name, pad);
    assert NameField(e)[|e.name|..] == pad && NameField(e)[..|e.name|] == e.name;
  }

  /** A written header reads back as the entry it was written for. */
  lemma HeaderRoundTrip(e: Entry)
    requires Writable(e)
    ensures !AllZero(WriteHeader(e))
    ensures ReadHeader(WriteHeader(e)) == Some(Header(e.name, |e.body|, e.kind))
  {
    hide NameField, NumberFields, TailFields, HeaderWith, UstarMagic, ChecksumField, Sum, ParseTextField, WriteOctal,
         ParseOctal, OctalText;
    var blank := HeaderWith(e, ChecksumField());
    SumFits(blank);
    var checksum := WriteOctal(Sum(blank), 8);
    HeaderSlices(e, checksum);
    OctalRoundTrip(Sum(blank), 8);
    SizeSlice(e);
    OctalRoundTrip(|e.body|, 12);
    NameReadsBack(e);
  }

  // ----- archives of any origin -----

  /** The archive goes on with this entry: a header that reads so, the payload, and padding of any content. */
  ghost predicate StartsWith(rest: Bytes, e: Entry) {
    && 512 + Padded(|e.body|) <= |rest|
    && HeaderBlock(rest[..512], e.name, |e.body|, e.kind)
    && rest[512..][..|e.body|] == e.body
  }

  lemma StartReads(rest: Bytes, e: Entry)
    requires BLOCK + Padded(|e.body|) <= |rest| && rest[BLOCK..][..|e.body|] == e.body
    ensures StartsWith(rest, e) <==> ReadHeader(rest[..BLOCK]) == Some(Header(e.name, |e.body|, e.kind))
    ensures StartsWith(rest, e) ==> !AllZero(rest[..BLOCK])
  {
    hide ReadHeader, HeaderBlock, Padded;
    var h := rest[..BLOCK];
    ReadsHeaderExactly(h, e.name, |e.body|, e.kind);
    if StartsWith(rest, e) { MagicNotZero(h, e.name, |e.body|, e.kind); }
  }

  lemma MagicNotZero(h: Bytes, name: Bytes, size: nat, kind: byte)
    requires HeaderBlock(h, name, size, kind)
    ensures !AllZero(h)
  {
    hide OctalField, NameFieldOf, Sum;
    assert h[257] == h[257..263][0] && Ascii("ustar")[0] == 117 && Ascii("ustar ")[0] == 117;
  }

  /** The archive is these entries, one behind the other, and then the terminator and nothing but zeros. */
  ghost predicate Tiles(rest: Bytes, entries: seq<Entry>)
    decreases |entries|
  {
    if entries == [] then |rest| >= 1024 && AllZero(rest)
    else StartsWith(rest, entries[0]) && Tiles(rest[512..][Padded(|entries[0].body|)..], entries[1..])
  }

  /** The terminator: two zero blocks and nothing else. */
  lemma ReadsTerminator(rest: Bytes, s: Progress)
    requires s.zeros == 0 && |rest| >= 2 * BLOCK && AllZero(rest)
    ensures ParseRest(rest, s) == Finish(s)
  {
    var second := rest[BLOCK..];
    assert AllZero(rest[..BLOCK]) && AllZero(second[..BLOCK]) && AllZero(second[BLOCK..]);
    var s' := s.(zeros := 1);
    assert ParseRest(rest, s) == ParseRest(second, s');
    assert Finish(s') == Finish(s);
  }

  /** And conversely: what comes after the first zero block is another one, and zeros to the end. */
  lemma TerminatorRead(rest: Bytes, s: Progress)
    requires s.zeros == 0 && |rest| >= BLOCK && AllZero(rest[..BLOCK]) && ParseRest(rest, s).Some?
    ensures |rest| >= 2 * BLOCK && AllZero(rest)
  {
    var second := rest[BLOCK..];
    var s' := s.(zeros := 1);
    assert ParseRest(rest, s) == ParseRest(second, s');
    assert |second| >= BLOCK && AllZero(second[..BLOCK]) && AllZero(second[BLOCK..]);
    assert rest == rest[..BLOCK] + (second[..BLOCK] + second[BLOCK..]);
  }

  lemma TakeEntryKeepsZeros(s: Progress, name: Bytes, kind: byte, payload: Bytes)
    ensures TakeEntry(s, name, kind, payload).Some? ==> TakeEntry(s, name, kind, payload).value.zeros == s.zeros
  {
  }

  lemma EntrySlices(h: Bytes, body: Bytes, rest: Bytes)
    requires |h| == BLOCK
    ensures var stream := h + body + Fill(NUL, Padded(|body|) - |body|) + rest;
            && |stream| == BLOCK + Padded(|body|) + |rest|
            && stream[..BLOCK] == h && stream[BLOCK..][..|body|] == body && stream[BLOCK..][Padded(|body|)..] == rest
  {
    hide Padded;
    var stream := h + body + Fill(NUL, Padded(|body|) - |body|) + rest;
    assert stream[BLOCK..] == body + Fill(NUL, Padded(|body|) - |body|) + rest;
  }

  /** Reading entries laid out one behind the other gives the verdict of the rules on them. */
  lemma {:induction false} TiledIsJudged(rest: Bytes, entries: seq<Entry>, s: Progress)
    requires Tiles(rest, entries) && s.zeros == 0
    ensures ParseRest(rest, s) == Judge(entries, s)
    decreases |entries|
  {
    hide ReadHeader, HeaderBlock, TakeEntry, Admissible, Padded, AllZero;
    if entries == [] {
      ReadsTerminator(rest, s);
    } else {
      var e := entries[0];
      StartReads(rest, e);
      TakeEntryKeepsZeros(s, e.name, e.kind, e.body);
      if Admissible(s, e.name, |e.body|) && TakeEntry(s, e.name, e.kind, e.body).Some? {
        var s' := TakeEntry(s, e.name, e.kind, e.body).value;
        TiledIsJudged(rest[BLOCK..][Padded(|e.body|)..], entries[1..], s');
      }
    }
  }

  /** Whatever is accepted is laid out so. */
  lemma {:induction false} AcceptedIsTiled(rest: Bytes, s: Progress) returns (entries: seq<Entry>)
    requires s.zeros == 0 && ParseRest(rest, s).Some?
    ensures Tiles(rest, entries)
    decreases |rest|
  {
    hide ReadHeader, HeaderBlock, TakeEntry, Admissible, Padded, AllZero;
    if AllZero(rest[..BLOCK]) {
      TerminatorRead(rest, s);
      entries := [];
    } else {
      var h := ReadHeader(rest[..BLOCK]).value;
      var after := rest[BLOCK..];
      var e := Entry(h.name, h.kind, after[..h.size]);
      TakeEntryKeepsZeros(s, e.name, e.kind, e.body);
      var s' := TakeEntry(s, e.name, e.kind, e.body).value;
      var more := AcceptedIsTiled(after[Padded(h.size)..], s');
      entries := [e] + more;
      StartReads(rest, e);
      assert entries[1..] == more && StartsWith(rest, e);
    }
  }

  /** An archive can be laid out in one way only. */
  lemma {:induction false} TilingUnique(rest: Bytes, a: seq<Entry>, b: seq<Entry>)
    requires Tiles(rest, a) && Tiles(rest, b)
    ensures a == b
    decreases |a|
  {
    hide ReadHeader, HeaderBlock, Padded, AllZero;
    if a != [] { NotTerminator(rest, a[0]); }
    if b != [] { NotTerminator(rest, b[0]); }
    if a != [] && b != [] {
      StartReads(rest, a[0]);
      StartReads(rest, b[0]);
      assert a[0] == b[0];
      TilingUnique(rest[BLOCK..][Padded(|a[0].body|)..], a[1..], b[1..]);
      assert a == [a[0]] + a[1..] && b == [b[0]] + b[1..];
    }
  }

  lemma NotTerminator(rest: Bytes, e: Entry)
    requires StartsWith(rest, e)
    ensures !AllZero(rest)
  {
    hide ReadHeader, HeaderBlock, Padded;
    StartReads(rest, e);
    var i :| 0 <= i < BLOCK && rest[..BLOCK][i] != NUL;
    assert rest[i] != NUL;
  }

  lemma {:induction false} WrittenIsTiled(entries: seq<Entry>)
    requires forall e | e in entries :: Writable(e)
    ensures Tiles(WriteTar(entries), entries)
    decreases |entries|
  {
    hide ReadHeader, HeaderBlock, WriteHeader, Padded, Writable;
    var end := Fill(NUL, 2 * BLOCK);
    if entries == [] {
      assert WriteTar(entries) == end;
    } else {
      var e := entries[0];
      assert e in entries;
      HeaderRoundTrip(e);
      var rest := WriteTar(entries[1..]);
      assert WriteTar(entries) == WriteHeader(e) + e.body + Fill(NUL, Padded(|e.body|) - |e.body|) + rest;
      EntrySlices(WriteHeader(e), e.body, rest);
      StartReads(WriteTar(entries), e);
      WrittenIsTiled(entries[1..]);
    }
  }

  /** Reading what was written gives exactly the verdict the rules give on the entries themselves. */
  lemma ParseIsJudge(entries: seq<Entry>)
    requires forall e | e in entries :: Writable(e)
    ensures Parse(WriteTar(entries)) == Judge(entries, START)
  {
    hide Tiles, WriteTar, Judge;
    WrittenIsTiled(entries);
    TiledIsJudged(WriteTar(entries), entries, START);
  }

  // ----- the round trip -----

  /** The permitted entries: the root directory, or a top-level regular file with a printable name. */
  ghost predicate Permitted(e: Entry) {
    && |e.name| <= 100 && |e.body| <= 268435456
    && ((e.kind == 53 && e.body == [] && (e.name == Ascii(".") || e.name == Ascii("./")))
        || ((e.kind == 0 || e.kind == 48)
            && (forall i | 0 <= i < |e.name| :: 33 <= e.name[i] <= 126)
            && exists top :: TopLevelName(e.name, top)))
  }

  /** The rules of the reader come to that: a top-level name cannot have a parent component. */
  lemma PermittedExactly(e: Entry)
    ensures Permitted(e) <==>
            && ValidPath(e.name) && |e.body| <= MAX_ENTRY_BYTES
            && ((e.kind == DIRECTORY && e.body == [] && (e.name == [DOT] || e.name == [DOT, SLASH]))
                || ((e.kind == NUL || e.kind == ZERO) && NormalizeTopLevel(e.name).Some?))
  {
    hide NormalizeTopLevel, TopLevelName, SplitOn;
    assert Ascii(".") == [DOT] && Ascii("./") == [DOT, SLASH];
    if NormalizeTopLevel(e.name).Some? {
      TopLevelExactly(e.name, NormalizeTopLevel(e.name).value);
    }
    if top :| TopLevelName(e.name, top) {
      TopLevelExactly(e.name, top);
      TopLevelNoParent(e.name, top);
    }
    RootIsValid();
  }

  lemma RootIsValid()
    ensures ValidPath([DOT]) && ValidPath([DOT, SLASH])
  {
    var none: Bytes := [];
    var root: Bytes, slashed: Bytes := [DOT], [DOT, SLASH];
    assert SplitOn(none, SLASH) == [none];
    assert root[1..] == none;
    OnePartMore(root, [none]);
    assert slashed[1..][1..] == none;
    assert SplitOn(slashed[1..], SLASH) == [none, none];
    OnePartMore(slashed, [none, none]);
  }

  /** The payloads of the regular entries with this top-level name, in order. */
  function Bodies(entries: seq<Entry>, top: Bytes): seq<Bytes> {
    if entries == [] then []
    else (if entries[0].kind != 53 && TopLevelName(entries[0].name, top) then [entries[0].body] else [])
         + Bodies(entries[1..], top)
  }

  function TotalSize(entries: seq<Entry>): nat {
    if entries == [] then 0 else |entries[0].body| + TotalSize(entries[1..])
  }

  /** A slot after more payloads for it arrive: it may be filled once, by a payload of proper size. */
  predicate FillsOnce(slot: Option<Bytes>, bodies: seq<Bytes>, result: Bytes) {
    match slot
    case Some(b) => bodies == [] && b == result
    case None => bodies == [result] && 0 < |result| <= MAX_BINARY_BYTES
  }

  lemma BinariesDiffer()
    ensures ClientName() != DaemonName()
  {
    assert |ClientName()| == 9 && |DaemonName()| == 10;
  }

  /** Entries that, after `s`, are permitted, within the limits, and fill each slot exactly once. */
  ghost predicate Acceptable(entries: seq<Entry>, s: Progress, client: Bytes, daemon: Bytes) {
    && (forall e | e in entries :: Permitted(e))
    && s.headers + |entries| <= MAX_HEADERS
    && s.total + TotalSize(entries) <= MAX_UNCOMPRESSED_BYTES
    && FillsOnce(s.rustscale, Bodies(entries, Ascii("rustscale")), client)
    && FillsOnce(s.rustscaled, Bodies(entries, Ascii("rustscaled")), daemon)
  }

  /** A slot that the payloads fill once takes the first of them. */
  lemma SlotTakes(entries: seq<Entry>, top: Bytes, slot: Option<Bytes>, result: Bytes)
    requires entries != [] && entries[0].kind != DIRECTORY && TopLevelName(entries[0].name, top)
    requires FillsOnce(slot, Bodies(entries, top), result)
    ensures SetBinary(slot, entries[0].body).Some?
  {
    hide TopLevelName;
    assert Bodies(entries, top) == [entries[0].body] + Bodies(entries[1..], top);
    OneBody(entries[0].body, Bodies(entries[1..], top), result);
  }

  lemma AcceptableHead(entries: seq<Entry>, s: Progress, client: Bytes, daemon: Bytes)
    requires entries != [] && Acceptable(entries, s, client, daemon)
    ensures var e := entries[0]; Admissible(s, e.name, |e.body|) && TakeEntry(s, e.name, e.kind, e.body).Some?
  {
    hide ValidPath, NormalizeTopLevel, TopLevelName, Ascii, FillsOnce, SetBinary, Bodies, Permitted;
    var e := entries[0];
    assert e in entries && Permitted(e);
    PermittedExactly(e);
    if e.kind != DIRECTORY {
      var top := NormalizeTopLevel(e.name).value;
      TopLevelExactly(e.name, top);
      if top == ClientName() {
        SlotTakes(entries, top, s.rustscale, client);
      } else if top == DaemonName() {
        SlotTakes(entries, top, s.rustscaled, daemon);
      }
    }
  }

  lemma AcceptedStep(entries: seq<Entry>, s: Progress, s': Progress, client: Bytes, daemon: Bytes)
    requires entries != []
    requires var e := entries[0]; Admissible(s, e.name, |e.body|) && TakeEntry(s, e.name, e.kind, e.body) == Some(s')
    ensures Acceptable(entries, s, client, daemon) <==> Acceptable(entries[1..], s', client, daemon)
  {
    hide ValidPath, NormalizeTopLevel, TopLevelName, Ascii, Permitted;
    var e := entries[0];
    assert entries == [e] + entries[1..];
    assert Permitted(e) by { PermittedExactly(e); }
    BinariesDiffer();
    TopLevelExactly(e.name, ClientName());
    TopLevelExactly(e.name, DaemonName());
    OneBody(e.body, Bodies(entries[1..], ClientName()), client);
    OneBody(e.body, Bodies(entries[1..], DaemonName()), daemon);
  }

  lemma OneBody(body: Bytes, rest: seq<Bytes>, result: Bytes)
    ensures [body] + rest == [result] <==> rest == [] && body == result
    ensures [] + rest == rest
  {
    if [body] + rest == [result] {
      assert |[body] + rest| == 1;
      assert ([body] + rest)[0] == body;
    }
  }

  /** The rules accept exactly the lists of permitted entries within the limits that fill each slot once. */
  lemma {:induction false} JudgeAccepts(entries: seq<Entry>, s: Progress, client: Bytes, daemon: Bytes)
    requires s.headers <= MAX_HEADERS && s.total <= MAX_UNCOMPRESSED_BYTES
    ensures Judge(entries, s) == Some(BinaryPayloads(client, daemon)) <==> Acceptable(entries, s, client, daemon)
    decreases |entries|
  {
    if entries != [] {
      hide ValidPath, NormalizeTopLevel, TopLevelName, Ascii, Acceptable;
      var e := entries[0];
      var next := TakeEntry(s, e.name, e.kind, e.body);
      if Admissible(s, e.name, |e.body|) && next.Some? {
        AcceptedStep(entries, s, next.value, client, daemon);
        JudgeAccepts(entries[1..], next.value, client, daemon);
      } else {
        if Acceptable(entries, s, client, daemon) { AcceptableHead(entries, s, client, daemon); }
      }
    }
  }

  /**
    Writing entries and reading the archive back yields two payloads exactly when every entry is
    permitted, the count and size limits hold, and each binary occurs once with a proper size; the
    payloads are then those of the two binaries.
   */
  lemma ArchiveRoundTrip(entries: seq<Entry>, client: Bytes, daemon: Bytes)
    requires forall e | e in entries :: Writable(e)
    ensures Parse(WriteTar(entries)) == Some(BinaryPayloads(client, daemon)) <==>
            && (forall e | e in entries :: Permitted(e))
            && |entries| <= 128 && TotalSize(entries) <= 536870912
            && Bodies(entries, Ascii("rustscale")) == [client] && 0 < |client| <= 134217728
            && Bodies(entries, Ascii("rustscaled")) == [daemon] && 0 < |daemon| <= 134217728
  {
    hide Parse, WriteTar, Permitted, Bodies, TotalSize, Judge, Ascii;
    ParseIsJudge(entries);
    JudgeAccepts(entries, START, client, daemon);
  }

  /**
    What is accepted, for every octet string: the archive yields two payloads exactly when it is laid out
    as entries that are permitted, within the limits, and fill each slot once with just these payloads.
   */
  lemma AcceptsExactly(tar: Bytes, client: Bytes, daemon: Bytes)
    ensures Parse(tar) == Some(BinaryPayloads(client, daemon)) <==>
            exists entries ::
              && Tiles(tar, entries) && (forall e | e in entries :: Permitted(e))
              && |entries| <= 128 && TotalSize(entries) <= 536870912
              && Bodies(entries, Ascii("rustscale")) == [client] && 0 < |client| <= 134217728
              && Bodies(entries, Ascii("rustscaled")) == [daemon] && 0 < |daemon| <= 134217728
  {
    hide Tiles, Judge, ParseRest, Permitted, Bodies, TotalSize, Ascii;
    if Parse(tar) == Some(BinaryPayloads(client, daemon)) {
      var entries := AcceptedIsTiled(tar, START);
      TiledIsJudged(tar, entries, START);
      JudgeAccepts(entries, START, client, daemon);
    }
    forall entries | Tiles(tar, entries) && Acceptable(entries, START, client, daemon)
      ensures Parse(tar) == Some(BinaryPayloads(client, daemon))
    {
      TiledIsJudged(tar, entries, START);
      JudgeAccepts(entries, START, client, daemon);
    }
  }
}
