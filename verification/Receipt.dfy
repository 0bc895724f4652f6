/** The installation receipt: a four-line text naming the digests of the two binaries. */
module Receipt {
  import opened Common
  import opened Utf8

  const NEWLINE: byte := 10
  const CARRIAGE_RETURN: byte := 13

  datatype Receipt = Receipt(rustscale: Bytes, rustscaled: Bytes)

  /** A digest function rendered as hexadecimal text. */
  type Sha = Bytes -> Bytes

  ghost predicate LawfulSha(sha: Sha) {
    forall b :: ValidDigest(sha(b))
  }

  predicate HexDigit(b: byte) {
    48 <= b <= 57 || 65 <= b <= 70 || 97 <= b <= 102
  }

  predicate ValidDigest(d: Bytes) {
    |d| == 64 && forall i | 0 <= i < |d| :: HexDigit(d[i])
  }

  /** A piece of text that is one line when a newline follows it. */
  predicate PlainLine(line: Bytes) {
    IsAscii(line) && NEWLINE !in line && CARRIAGE_RETURN !in line
  }

  function FormatLine(): (r: Bytes)
    ensures PlainLine(r) && |r| == 28
  {
    Ascii("rustscale-install-receipt-v1")
  }

  function InstallerLine(): (r: Bytes)
    ensures PlainLine(r) && |r| == 28
  {
    Ascii("installer=scripts/install.sh")
  }

  function ClientKey(): (r: Bytes)
    ensures PlainLine(r) && |r| == 17
  {
    Ascii("rustscale_sha256=")
  }

  function DaemonKey(): (r: Bytes)
    ensures PlainLine(r) && |r| == 18
  {
    Ascii("rustscaled_sha256=")
  }

  function ReceiptBytes(sha: Sha, rustscale: Bytes, rustscaled: Bytes): Bytes {
    FormatLine() + [NEWLINE] + InstallerLine() + [NEWLINE] +
    ClientKey() + sha(rustscale) + [NEWLINE] + DaemonKey() + sha(rustscaled) + [NEWLINE]
  }

  // ----- lines -----

  function NewlineAt(b: Bytes): (n: nat)
    ensures n <= |b| && NEWLINE !in b[..n]
    ensures n < |b| ==> b[n] == NEWLINE
  {
    if b == [] || b[0] == NEWLINE then 0
    else
      assert b[..1 + NewlineAt(b[1..])] == [b[0]] + b[1..][..NewlineAt(b[1..])];
      1 + NewlineAt(b[1..])
  }

  function StripReturn(line: Bytes): Bytes {
    if line != [] && line[|line| - 1] == CARRIAGE_RETURN then line[..|line| - 1] else line
  }

  /** The lines of a text; a line ends with a newline, or a return and a newline, and the last may lack one. */
  function Lines(b: Bytes): seq<Bytes>
    decreases |b|
  {
    if b == [] then []
    else
      var n := NewlineAt(b);
      if n == |b| then [b] else [StripReturn(b[..n])] + Lines(b[n + 1..])
  }

  lemma {:induction false} NewlineAfter(line: Bytes, rest: Bytes)
    requires NEWLINE !in line
    ensures NewlineAt(line + [NEWLINE] + rest) == |line|
  {
    if line != [] {
      assert (line + [NEWLINE] + rest)[1..] == line[1..] + [NEWLINE] + rest;
      NewlineAfter(line[1..], rest);
    }
  }

  lemma LinesCons(line: Bytes, rest: Bytes)
    requires PlainLine(line)
    ensures Lines(line + [NEWLINE] + rest) == [line] + Lines(rest)
  {
    var b := line + [NEWLINE] + rest;
    NewlineAfter(line, rest);
    assert b[..|line|] == line && b[|line| + 1..] == rest;
  }

  // ----- parsing -----

  function ParseReceipt(b: Bytes): Option<Receipt> {
    if !Utf8.Valid(b) then None
    else
      var lines := Lines(b);
      if |lines| != 4 || lines[0] != FormatLine() || lines[1] != InstallerLine()
         || !(ClientKey() <= lines[2]) || !(DaemonKey() <= lines[3]) then None
      else
        var client := lines[2][|ClientKey()|..];
        var daemon := lines[3][|DaemonKey()|..];
        if ValidDigest(client) && ValidDigest(daemon) then Some(Receipt(client, daemon)) else None
  }

  lemma KeyLine(key: Bytes, digest: Bytes)
    requires PlainLine(key) && ValidDigest(digest)
    ensures PlainLine(key + digest) && key <= key + digest && (key + digest)[|key|..] == digest
  {
    forall i | 0 <= i < |digest| ensures digest[i] < 0x80 && digest[i] != NEWLINE && digest[i] != CARRIAGE_RETURN {
      assert HexDigit(digest[i]);
    }
  }

  /** The receipt that is written is the receipt that is read back. */
  lemma ReceiptRoundTrip(sha: Sha, rustscale: Bytes, rustscaled: Bytes)
    requires LawfulSha(sha)
    ensures ParseReceipt(ReceiptBytes(sha, rustscale, rustscaled)) == Some(Receipt(sha(rustscale), sha(rustscaled)))
    ensures |ReceiptBytes(sha, rustscale, rustscaled)| == 223
  {
    hide FormatLine, InstallerLine, ClientKey, DaemonKey, Lines, Utf8.Valid;
    var client, daemon := ClientKey() + sha(rustscale), DaemonKey() + sha(rustscaled);
    assert ValidDigest(sha(rustscale)) && ValidDigest(sha(rustscaled));
    KeyLine(ClientKey(), sha(rustscale));
    KeyLine(DaemonKey(), sha(rustscaled));
    FourLines(FormatLine(), InstallerLine(), client, daemon);
    assert ReceiptBytes(sha, rustscale, rustscaled) ==
           FormatLine() + [NEWLINE] + InstallerLine() + [NEWLINE] + client + [NEWLINE] + daemon + [NEWLINE];
  }

  lemma FourLines(a: Bytes, b: Bytes, c: Bytes, d: Bytes)
    requires PlainLine(a) && PlainLine(b) && PlainLine(c) && PlainLine(d)
    ensures var text := a + [NEWLINE] + b + [NEWLINE] + c + [NEWLINE] + d + [NEWLINE];
            Lines(text) == [a, b, c, d] && Utf8.Valid(text)
  {
    hide Lines, Utf8.Valid;
    var text := a + [NEWLINE] + b + [NEWLINE] + c + [NEWLINE] + d + [NEWLINE];
    var t3 := d + [NEWLINE] + [];
    var t2 := c + [NEWLINE] + t3;
    var t1 := b + [NEWLINE] + t2;
    assert text == a + [NEWLINE] + t1;
    LinesCons(a, t1);
    LinesCons(b, t2);
    LinesCons(c, t3);
    LinesCons(d, []);
    assert Lines([]) == [] by { NoLines(); }
    AsciiValid(text);
  }

  lemma NoLines()
    ensures Lines([]) == []
  {
  }

  // ----- exactly which texts are receipts -----

  /** What may end a line: a newline, or a return and a newline. */
  predicate LineEnd(e: Bytes) {
    e == [10] || e == [13, 10]
  }

  /**
    A receipt as text: four lines in this order, each ended by a newline or a return and a newline, the last
    perhaps by nothing.
   */
  ghost predicate ReceiptText(b: Bytes, client: Bytes, daemon: Bytes) {
    exists e0, e1, e2, e3 ::
      && LineEnd(e0) && LineEnd(e1) && LineEnd(e2) && (LineEnd(e3) || e3 == [])
      && b == Ascii("rustscale-install-receipt-v1") + e0 + (Ascii("installer=scripts/install.sh") + e1 +
              (Ascii("rustscale_sha256=") + client + e2 + (Ascii("rustscaled_sha256=") + daemon + e3)))
  }

  lemma LinesEnded(line: Bytes, e: Bytes, rest: Bytes)
    requires PlainLine(line) && LineEnd(e)
    ensures Lines(line + e + rest) == [line] + Lines(rest)
  {
    var b := line + e + rest;
    var kept := line + e[..|e| - 1];
    assert b == kept + [NEWLINE] + rest;
    NewlineAfter(kept, rest);
    assert b[..|kept|] == kept && b[|kept| + 1..] == rest;
    if |e| == 1 {
      assert kept == line;
      assert line != [] ==> line[|line| - 1] in line;
    } else {
      assert kept == line + [CARRIAGE_RETURN] && kept[..|kept| - 1] == line;
    }
    assert StripReturn(kept) == line;
  }

  lemma {:induction false} NoNewline(line: Bytes)
    requires NEWLINE !in line
    ensures NewlineAt(line) == |line|
  {
  }

  lemma LastLine(line: Bytes, e: Bytes)
    requires PlainLine(line) && line != [] && (LineEnd(e) || e == [])
    ensures Lines(line + e) == [line]
  {
    if e == [] {
      NoNewline(line);
      assert line + e == line;
    } else {
      LinesEnded(line, e, []);
      NoLines();
      assert line + e + [] == line + e;
    }
  }

  /** The first line of a text, what ended it, and what follows. */
  lemma FirstLine(b: Bytes) returns (e: Bytes, rest: Bytes)
    requires Lines(b) != []
    ensures b == Lines(b)[0] + e + rest && Lines(b)[1..] == Lines(rest)
    ensures LineEnd(e) || (e == [] && rest == [])
  {
    hide Lines;
    LinesUnfold(b);
    var n := NewlineAt(b);
    if n == |b| {
      e, rest := [], [];
      NoLines();
    } else {
      rest := b[n + 1..];
      e := b[|StripReturn(b[..n])|..n + 1];
      assert b == b[..n] + [NEWLINE] + rest;
    }
  }

  lemma {:induction false} LinesUnfold(b: Bytes)
    ensures b == [] <==> Lines(b) == []
    ensures b != [] ==>
              var n := NewlineAt(b);
              Lines(b) == if n == |b| then [b] else [StripReturn(b[..n])] + Lines(b[n + 1..])
  {
  }

  lemma FourLinesText(b: Bytes, l0: Bytes, l1: Bytes, l2: Bytes, l3: Bytes)
    returns (e0: Bytes, e1: Bytes, e2: Bytes, e3: Bytes)
    requires Lines(b) == [l0, l1, l2, l3]
    ensures LineEnd(e0) && LineEnd(e1) && LineEnd(e2) && (LineEnd(e3) || e3 == [])
    ensures b == l0 + e0 + (l1 + e1 + (l2 + e2 + (l3 + e3)))
  {
    hide Lines;
    NoLines();
    var b1, b2, b3, b4;
    e0, b1 := FirstLine(b);
    assert Lines(b1) == [l1, l2, l3];
    e1, b2 := FirstLine(b1);
    assert Lines(b2) == [l2, l3];
    e2, b3 := FirstLine(b2);
    assert Lines(b3) == [l3];
    e3, b4 := FirstLine(b3);
    assert Lines(b4) == [];
    LinesUnfold(b4);
    assert b3 == l3 + e3;
  }

  lemma TextFourLines(b: Bytes, l0: Bytes, l1: Bytes, l2: Bytes, l3: Bytes, e0: Bytes, e1: Bytes, e2: Bytes, e3: Bytes)
    requires PlainLine(l0) && PlainLine(l1) && PlainLine(l2) && PlainLine(l3) && l3 != []
    requires LineEnd(e0) && LineEnd(e1) && LineEnd(e2) && (LineEnd(e3) || e3 == [])
    requires b == l0 + e0 + (l1 + e1 + (l2 + e2 + (l3 + e3)))
    ensures Lines(b) == [l0, l1, l2, l3] && Utf8.Valid(b)
  {
    hide Lines, Utf8.Valid;
    LinesEnded(l0, e0, l1 + e1 + (l2 + e2 + (l3 + e3)));
    LinesEnded(l1, e1, l2 + e2 + (l3 + e3));
    LinesEnded(l2, e2, l3 + e3);
    LastLine(l3, e3);
    AsciiValid(b);
  }

  /** A receipt is accepted, with these two digests, exactly when it is the four lines spelled out. */
  lemma ParsesExactly(b: Bytes, client: Bytes, daemon: Bytes)
    ensures ParseReceipt(b) == Some(Receipt(client, daemon)) <==>
            ValidDigest(client) && ValidDigest(daemon) && ReceiptText(b, client, daemon)
  {
    hide Lines, Utf8.Valid, Ascii;
    if ParseReceipt(b) == Some(Receipt(client, daemon)) {
      var ls := Lines(b);
      assert ls[2] == ClientKey() + client && ls[3] == DaemonKey() + daemon;
      assert ls == [ls[0], ls[1], ls[2], ls[3]];
      var e0, e1, e2, e3 := FourLinesText(b, ls[0], ls[1], ls[2], ls[3]);
    }
    if ValidDigest(client) && ValidDigest(daemon) && ReceiptText(b, client, daemon) {
      var e0, e1, e2, e3 :|
        && LineEnd(e0) && LineEnd(e1) && LineEnd(e2) && (LineEnd(e3) || e3 == [])
        && b == FormatLine() + e0 + (InstallerLine() + e1 + (ClientKey() + client + e2 + (DaemonKey() + daemon + e3)));
      KeyLine(ClientKey(), client);
      KeyLine(DaemonKey(), daemon);
      TextFourLines(b, FormatLine(), InstallerLine(), ClientKey() + client, DaemonKey() + daemon, e0, e1, e2, e3);
    }
  }

  /** Whether a receipt vouches for exactly these binaries. */
  predicate Vouches(sha: Sha, receipt: Bytes, rustscale: Bytes, rustscaled: Bytes) {
    ParseReceipt(receipt) == Some(Receipt(sha(rustscale), sha(rustscaled)))
  }
}
