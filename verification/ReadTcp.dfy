/** Reassembling an HTTP request from the chunks that a socket delivers. */
module ReadTcp {
  import opened Bytes

  const CLIENT_CHUNK := 1024
  const CR: byte := 13

  /** What one `recv` returns: some bytes, or nothing within the timeout. */
  datatype Recv = Data(chunk: Text) | Nothing

  /** A request; or the socket has nothing more and the function waits on; or it reads out of bounds. */
  datatype Outcome = Request(text: Text) | Waiting | Crashed

  // ---------- Searching ----------

  predicate OccursAt(text: Text, pat: Text, i: nat) {
    i + |pat| <= |text| && text[i..i + |pat|] == pat
  }

  /** `strstr`: the first position from `i` on where the pattern occurs, or the length of the text. */
  function Search(text: Text, pat: Text, i: nat): (k: nat)
    requires i <= |text| && pat != []
    ensures i <= k <= |text|
    decreases |text| - i
  {
    if i == |text| || OccursAt(text, pat, i) then i else Search(text, pat, i + 1)
  }

  lemma {:induction false} SearchFindsFirst(text: Text, pat: Text, i: nat, k: nat)
    requires i <= k <= |text| && pat != []
    ensures k == Search(text, pat, i) <==>
            (k < |text| ==> OccursAt(text, pat, k)) && forall j | i <= j < k :: !OccursAt(text, pat, j)
    decreases |text| - i
  {
    if i < |text| && !OccursAt(text, pat, i) && i < k {
      SearchFindsFirst(text, pat, i + 1, k);
    }
  }

  predicate Contains(text: Text, pat: Text)
    requires pat != []
  {
    Search(text, pat, 0) < |text|
  }

  /** CR LF CR LF: the end of the header section, section 2.1 of RFC 9112. */
  const TERMINATOR: Text := [13, 10, 13, 10]

  /** `content-length: ` */
  const LOWER_NAME: Text := [99, 111, 110, 116, 101, 110, 116, 45, 108, 101, 110, 103, 116, 104, 58, 32]

  /** `Content-Length: ` */
  const UPPER_NAME: Text := [67, 111, 110, 116, 101, 110, 116, 45, 76, 101, 110, 103, 116, 104, 58, 32]

  /** What the text is searched for: two spellings of the name of the length field, 16 bytes each, and the
      end of the header section. */
  datatype Names = Names(lower: Text, upper: Text, terminator: Text) {
    predicate Proper() {
      && |lower| == |upper| == 16 && |terminator| == 4
      && (forall i | 0 <= i < 16 :: lower[i] != CR && upper[i] != CR)
    }
  }

  const HTTP := Names(LOWER_NAME, UPPER_NAME, TERMINATOR)

  type Format = f: Names | f.Proper() witness HTTP

  /** Where the length field starts: the lower-case spelling is preferred wherever it stands. */
  function LengthField(f: Format, text: Text): (k: nat)
    ensures k <= |text|
  {
    var lower := Search(text, f.lower, 0);
    if lower < |text| then lower else Search(text, f.upper, 0)
  }

  predicate IsDigit(b: byte) {
    48 <= b <= 57
  }

  function Digits(s: Text, value: nat): nat
    decreases |s|
  {
    if s == [] || !IsDigit(s[0]) then value
    else
      var digit := s[0] as int - 48;
      assert digit >= 0;
      Digits(s[1..], 10 * value + digit)
  }

  /** `atoi`: leading blanks, an optional sign, and digits up to the first other byte. */
  function Atoi(s: Text): int
    decreases |s|
  {
    if s == [] then 0
    else if IsSpace(s[0]) then Atoi(s[1..])
    else if s[0] == 45 then 0 - Digits(s[1..], 0)
    else if s[0] == 43 then Digits(s[1..], 0)
    else Digits(s, 0)
  }

  /** The text names a length but no CR follows: the length of the value comes out negative. */
  predicate Malformed(f: Format, text: Text) {
    var k := LengthField(f, text);
    k < |text| && !Contains(text[k..], [CR])
  }

  /** The value of the length field, up to its CR. */
  function FieldValue(f: Format, text: Text): Text
    requires LengthField(f, text) < |text| && !Malformed(f, text)
  {
    var k := LengthField(f, text);
    var nl := Search(text[k..], [CR], 0);
    NameHasNoCr(f, text, nl);
    text[k + 16..k + nl]
  }

  /** The length announced in the text, 0 when there is none. */
  function LengthOf(f: Format, text: Text): int {
    if LengthField(f, text) == |text| || Malformed(f, text) then 0 else Atoi(FieldValue(f, text))
  }

  lemma NameHasNoCr(f: Format, text: Text, nl: nat)
    requires LengthField(f, text) < |text|
    requires nl == Search(text[LengthField(f, text)..], [CR], 0) < |text[LengthField(f, text)..]|
    ensures nl >= 16
  {
    var k := LengthField(f, text);
    var name := if Search(text, f.lower, 0) < |text| then f.lower else f.upper;
    SearchFindsFirst(text, name, 0, k);
    assert forall i | 0 <= i < 16 :: text[k..][i] == text[k..k + 16][i] == name[i] != CR;
    SearchFindsFirst(text[k..], [CR], 0, nl);
    assert text[k..][nl..nl + 1][0] == CR;
  }

  /** How many bytes a request that starts with this text must have. */
  function Needed(f: Format, text: Text): int
    requires Contains(text, f.terminator)
  {
    if LengthOf(f, text) == 0 then 0 else Search(text, f.terminator, 0) + 4 + LengthOf(f, text)
  }

  // ---------- The specification over bursts ----------

  /** The bytes received between two timeouts, from position `j` on, count as one burst, however they were
      cut into chunks. What follows the last timeout belongs to no burst. */
  function Bursts(net: seq<Recv>, j: nat, pending: Text): seq<Text>
    requires j <= |net|
    decreases |net| - j
  {
    if j == |net| then []
    else match net[j]
         case Data(chunk) => Bursts(net, j + 1, pending + chunk)
         case Nothing => [pending] + Bursts(net, j + 1, [])
  }

  /** Bursts are read until the text contains the end of the header section; then, if it announces a
      length, until it is that much longer. */
  function Answer(f: Format, text: Text, bursts: seq<Text>): Outcome
    decreases |bursts|
  {
    if bursts == [] then Waiting
    else
      var t := text + bursts[0];
      if !Contains(t, f.terminator) then Answer(f, t, bursts[1..])
      else if |t| >= Needed(f, t) then Request(t)
      else ReadMore(t, bursts[1..], Needed(f, t))
  }

  function ReadMore(text: Text, bursts: seq<Text>, needed: int): Outcome
    decreases |bursts|
  {
    if bursts == [] then Waiting
    else
      var t := text + bursts[0];
      if |t| >= needed then Request(t) else ReadMore(t, bursts[1..], needed)
  }

  /** Some scan before the end of the header section is seen finds a length without its end. */
  predicate ScanFails(f: Format, text: Text, net: seq<Recv>, j: nat)
    requires j <= |net|
    decreases |net| - j
  {
    j < |net| &&
    match net[j]
    case Data(chunk) => Malformed(f, text + chunk) || ScanFails(f, text + chunk, net, j + 1)
    case Nothing => !Contains(text, f.terminator) && ScanFails(f, text, net, j + 1)
  }

  /** The outcome for everything the socket delivers. */
  function OutcomeOf(f: Format, net: seq<Recv>): Outcome {
    if ScanFails(f, [], net, 0) then Crashed else Answer(f, [], Bursts(net, 0, []))
  }

  /** The same bytes and timeouts from position `j` on, with the chunks between two timeouts made one. */
  function Joined(net: seq<Recv>, j: nat): seq<Recv>
    requires j <= |net|
    decreases |net| - j
  {
    if j == |net| then []
    else
      var rest := Joined(net, j + 1);
      if net[j].Data? && rest != [] && rest[0].Data? then [Data(net[j].chunk + rest[0].chunk)] + rest[1..]
      else [net[j]] + rest
  }

  /** Before the end of the header section is seen, two chunks of a burst meet behind the name of the length
      field and before the CR that ends its value (see `MalformedExactly`). */
  predicate CutsLength(f: Format, text: Text, net: seq<Recv>, j: nat)
    requires j <= |net|
    decreases |net| - j
  {
    j < |net| &&
    match net[j]
    case Data(chunk) =>
      || (j + 1 < |net| && net[j + 1].Data? && Malformed(f, text + chunk))
      || CutsLength(f, text + chunk, net, j + 1)
    case Nothing => !Contains(text, f.terminator) && CutsLength(f, text, net, j + 1)
  }

  function Concat(bursts: seq<Text>): Text {
    if bursts == [] then [] else bursts[0] + Concat(bursts[1..])
  }

  // ---------- Properties of the specification ----------

  lemma {:induction false} BurstsOfSuffix(m: seq<Recv>, i: nat, n: seq<Recv>, j: nat, pending: Text)
    requires i <= |m| && j <= |n| && m[i..] == n[j..]
    ensures Bursts(m, i, pending) == Bursts(n, j, pending)
    decreases |m| - i
  {
    assert |m[i..]| == |n[j..]|;
    if i < |m| {
      assert m[i] == m[i..][0] == n[j..][0] == n[j];
      assert m[i + 1..] == m[i..][1..] && n[j + 1..] == n[j..][1..];
      match m[i]
      case Data(chunk) => BurstsOfSuffix(m, i + 1, n, j + 1, pending + chunk);
      case Nothing => BurstsOfSuffix(m, i + 1, n, j + 1, []);
    }
  }

  lemma {:induction false} ScanFailsOfSuffix(f: Format, text: Text, m: seq<Recv>, i: nat, n: seq<Recv>, j: nat)
    requires i <= |m| && j <= |n| && m[i..] == n[j..]
    ensures ScanFails(f, text, m, i) == ScanFails(f, text, n, j)
    decreases |m| - i
  {
    assert |m[i..]| == |n[j..]|;
    if i < |m| {
      assert m[i] == m[i..][0] == n[j..][0] == n[j];
      assert m[i + 1..] == m[i..][1..] && n[j + 1..] == n[j..][1..];
      match m[i]
      case Data(chunk) => ScanFailsOfSuffix(f, text + chunk, m, i + 1, n, j + 1);
      case Nothing => ScanFailsOfSuffix(f, text, m, i + 1, n, j + 1);
    }
  }

  /** Joining chunks changes no burst. */
  lemma {:induction false} JoinedBursts(net: seq<Recv>, j: nat, pending: Text)
    requires j <= |net|
    ensures Bursts(Joined(net, j), 0, pending) == Bursts(net, j, pending)
    decreases |net| - j
  {
    if j < |net| {
      var rest, joined := Joined(net, j + 1), Joined(net, j);
      match net[j]
      case Nothing =>
        JoinedBursts(net, j + 1, []);
        BurstsOfSuffix(joined, 1, rest, 0, []);
      case Data(chunk) =>
        JoinedBursts(net, j + 1, pending + chunk);
        if rest != [] && rest[0].Data? {
          assert pending + chunk + rest[0].chunk == pending + (chunk + rest[0].chunk);
          BurstsOfSuffix(joined, 1, rest, 1, pending + chunk + rest[0].chunk);
        } else {
          BurstsOfSuffix(joined, 1, rest, 0, pending + chunk);
        }
    }
  }

  lemma JoinedStartsLike(net: seq<Recv>, j: nat)
    requires j < |net|
    ensures Joined(net, j) != [] && Joined(net, j)[0].Data? == net[j].Data?
  {
  }

  /** A scan fails exactly when one fails with the chunks joined, or a cut falls into the length value. */
  lemma {:induction false} JoinedScans(f: Format, text: Text, net: seq<Recv>, j: nat)
    requires j <= |net|
    ensures ScanFails(f, text, net, j) <==> ScanFails(f, text, Joined(net, j), 0) || CutsLength(f, text, net, j)
    decreases |net| - j
  {
    if j < |net| {
      var rest, joined := Joined(net, j + 1), Joined(net, j);
      match net[j]
      case Nothing =>
        JoinedScans(f, text, net, j + 1);
        ScanFailsOfSuffix(f, text, joined, 1, rest, 0);
      case Data(chunk) =>
        JoinedScans(f, text + chunk, net, j + 1);
        if j + 1 < |net| {
          JoinedStartsLike(net, j + 1);
        }
        JoinedScan(f, text, chunk, rest, joined);
    }
  }

  lemma JoinedScan(f: Format, text: Text, chunk: Text, rest: seq<Recv>, joined: seq<Recv>)
    requires joined == if rest != [] && rest[0].Data? then [Data(chunk + rest[0].chunk)] + rest[1..] else [Data(chunk)] + rest
    ensures if rest != [] && rest[0].Data? then ScanFails(f, text, joined, 0) == ScanFails(f, text + chunk, rest, 0)
            else ScanFails(f, text, joined, 0) == (Malformed(f, text + chunk) || ScanFails(f, text + chunk, rest, 0))
  {
    if rest != [] && rest[0].Data? {
      var more := text + chunk + rest[0].chunk;
      assert more == text + (chunk + rest[0].chunk);
      ScanFailsOfSuffix(f, more, joined, 1, rest, 1);
    } else {
      ScanFailsOfSuffix(f, text + chunk, joined, 1, rest, 0);
    }
  }

  lemma {:induction false} AnswerNeverCrashes(f: Format, text: Text, bursts: seq<Text>)
    ensures !Answer(f, text, bursts).Crashed?
    decreases |bursts|
  {
    if bursts != [] {
      var t := text + bursts[0];
      if !Contains(t, f.terminator) {
        AnswerNeverCrashes(f, t, bursts[1..]);
      } else {
        MoreNeverCrashes(t, bursts[1..], Needed(f, t));
      }
    }
  }

  lemma {:induction false} MoreNeverCrashes(text: Text, bursts: seq<Text>, needed: int)
    ensures !ReadMore(text, bursts, needed).Crashed?
    decreases |bursts|
  {
    if bursts != [] {
      MoreNeverCrashes(text + bursts[0], bursts[1..], needed);
    }
  }

  /** When chunking matters: two deliveries of the same bytes and timeouts have the same outcome exactly when
      the length value is cut in both or in neither, or a scan fails however the chunks are cut. */
  lemma ChunkingMattersExactly(f: Format, m: seq<Recv>, n: seq<Recv>)
    requires Joined(m, 0) == Joined(n, 0)
    ensures OutcomeOf(f, m) == OutcomeOf(f, n) <==>
            || ScanFails(f, [], Joined(m, 0), 0)
            || (CutsLength(f, [], m, 0) <==> CutsLength(f, [], n, 0))
  {
    JoinedScans(f, [], m, 0);
    JoinedScans(f, [], n, 0);
    JoinedBursts(m, 0, []);
    JoinedBursts(n, 0, []);
    AnswerNeverCrashes(f, [], Bursts(m, 0, []));
  }

  /** The bytes of a delivery, behind those held before. */
  function Held(text: Text, net: seq<Recv>, j: nat): Text
    requires j <= |net|
    decreases |net| - j
  {
    if j == |net| then text
    else match net[j]
         case Data(chunk) => Held(text + chunk, net, j + 1)
         case Nothing => Held(text, net, j + 1)
  }

  /** The end of the header section has not been seen at a timeout. */
  predicate StillScanning(f: Format, text: Text, net: seq<Recv>, j: nat)
    requires j <= |net|
    decreases |net| - j
  {
    j == |net| ||
    match net[j]
    case Data(chunk) => StillScanning(f, text + chunk, net, j + 1)
    case Nothing => !Contains(text, f.terminator) && StillScanning(f, text, net, j + 1)
  }

  /** When one cut matters, wherever it is made: it changes no burst, and it makes a scan fail exactly when
      scanning still goes on and the bytes in front of it hold the name of the field but no CR behind it. */
  lemma {:induction false} CutMattersExactly(
      f: Format, text: Text, a: seq<Recv>, x: Text, y: Text, b: seq<Recv>, j: nat, pending: Text)
    requires j <= |a|
    ensures var whole, cut := a + [Data(x + y)] + b, a + [Data(x), Data(y)] + b;
            && Bursts(whole, j, pending) == Bursts(cut, j, pending)
            && (ScanFails(f, text, cut, j) <==>
                || ScanFails(f, text, whole, j)
                || (StillScanning(f, text, a, j) && Malformed(f, Held(text, a, j) + x)))
    decreases |a| - j
  {
    var whole, cut := a + [Data(x + y)] + b, a + [Data(x), Data(y)] + b;
    if j == |a| {
      assert whole[j] == Data(x + y) && cut[j] == Data(x) && cut[j + 1] == Data(y);
      assert pending + x + y == pending + (x + y) && text + x + y == text + (x + y);
      assert whole[j + 1..] == b == cut[j + 2..];
      BurstsOfSuffix(whole, j + 1, cut, j + 2, pending + (x + y));
      ScanFailsOfSuffix(f, text + (x + y), whole, j + 1, cut, j + 2);
    } else {
      assert whole[j] == a[j] == cut[j];
      match a[j]
      case Data(chunk) => CutMattersExactly(f, text + chunk, a, x, y, b, j + 1, pending + chunk);
      case Nothing => CutMattersExactly(f, text, a, x, y, b, j + 1, []);
    }
  }

  /** A scan fails exactly on a text that holds the name of the length field and no CR from there on. */
  lemma MalformedExactly(f: Format, text: Text)
    ensures Malformed(f, text) <==> LengthField(f, text) < |text| && CR !in text[LengthField(f, text)..]
  {
    ContainsByte(text[LengthField(f, text)..], CR);
  }

  lemma ContainsByte(text: Text, b: byte)
    ensures Contains(text, [b]) <==> b in text
  {
    var k := Search(text, [b], 0);
    SearchFindsFirst(text, [b], 0, k);
    if k < |text| {
      assert text[k] == text[k..k + 1][0];
    }
    forall i | 0 <= i < |text| && text[i] == b ensures k < |text| {
      assert text[i..i + 1] == [b];
      assert OccursAt(text, [b], i);
    }
  }

  /** A request is the exact concatenation of the first bursts. It contains the end of the header section,
      and at least as many bytes behind it as were announced when that end was seen. */
  lemma {:induction false} AnswerIsComplete(f: Format, text: Text, bursts: seq<Text>)
    requires Answer(f, text, bursts).Request?
    ensures var r := Answer(f, text, bursts).text;
            exists i, j :: 0 < i <= j <= |bursts| && Seen(f, text, bursts, i, j, r)
    decreases |bursts|
  {
    var t := text + bursts[0];
    var r := Answer(f, text, bursts).text;
    assert Concat(bursts[..1]) == bursts[0] by {
      assert bursts[..1][1..] == [];
    }
    if !Contains(t, f.terminator) {
      AnswerIsComplete(f, t, bursts[1..]);
      var i, j :| 0 < i <= j <= |bursts| - 1 && Seen(f, t, bursts[1..], i, j, r);
      Later(text, bursts, i);
      Later(text, bursts, j);
      assert Seen(f, text, bursts, i + 1, j + 1, r);
    } else if |t| >= Needed(f, t) {
      assert Seen(f, text, bursts, 1, 1, r);
    } else {
      var j := MoreIsEnough(t, bursts[1..], Needed(f, t));
      Later(text, bursts, j);
      assert Seen(f, text, bursts, 1, j + 1, r);
    }
  }

  /** After `i` bursts the end of the header section was seen, and after `j` the request was complete. */
  ghost predicate Seen(f: Format, text: Text, bursts: seq<Text>, i: nat, j: nat, r: Text)
    requires i <= j <= |bursts|
  {
    var header := text + Concat(bursts[..i]);
    && r == text + Concat(bursts[..j])
    && Contains(header, f.terminator)
    && |r| >= Needed(f, header)
  }

  lemma Later(text: Text, bursts: seq<Text>, i: nat)
    requires bursts != [] && i < |bursts|
    ensures text + bursts[0] + Concat(bursts[1..][..i]) == text + Concat(bursts[..i + 1])
  {
    assert bursts[..i + 1][1..] == bursts[1..][..i];
    assert text + bursts[0] + Concat(bursts[1..][..i]) == text + (bursts[0] + Concat(bursts[1..][..i]));
  }

  lemma {:induction false} MoreIsEnough(text: Text, bursts: seq<Text>, needed: int) returns (j: nat)
    requires ReadMore(text, bursts, needed).Request?
    ensures 0 < j <= |bursts|
    ensures ReadMore(text, bursts, needed).text == text + Concat(bursts[..j])
    ensures |text + Concat(bursts[..j])| >= needed
    decreases |bursts|
  {
    var t := text + bursts[0];
    if |t| >= needed {
      j := 1;
      assert bursts[..1][1..] == [];
    } else {
      j := MoreIsEnough(t, bursts[1..], needed);
      Later(text, bursts, j);
      j := j + 1;
    }
  }

  /** `Content-Length: 5`, without the CR that ends it. */
  const CUT_HEAD: Text := UPPER_NAME + [53]

  /** The end of the header section, and a body of five bytes. */
  const CUT_TAIL: Text := TERMINATOR + [98, 98, 98, 98, 98]

  /** A request that is answered when it arrives in one chunk, and crashes the reader when the same bytes
      arrive in two. */
  lemma SplitLengthCrashes()
    ensures var whole, cut := [Data(CUT_HEAD + CUT_TAIL), Nothing], [Data(CUT_HEAD), Data(CUT_TAIL), Nothing];
            && Deliverable(whole) && Deliverable(cut)
            && Joined(whole, 0) == Joined(cut, 0)
            && OutcomeOf(HTTP, whole) == Request(CUT_HEAD + CUT_TAIL)
            && OutcomeOf(HTTP, cut) == Crashed
  {
    JoinedPair(CUT_HEAD, CUT_TAIL);
    WholeIsAnswered();
    OneChunk(HTTP, CUT_HEAD + CUT_TAIL);
    HeadIsMalformed();
    FirstChunkFails(HTTP, CUT_HEAD, [Data(CUT_TAIL), Nothing]);
    assert [Data(CUT_HEAD)] + [Data(CUT_TAIL), Nothing] == [Data(CUT_HEAD), Data(CUT_TAIL), Nothing];
    SmallChunks();
  }

  lemma SmallChunks()
    ensures Deliverable([Data(CUT_HEAD + CUT_TAIL), Nothing]) && Deliverable([Data(CUT_HEAD), Data(CUT_TAIL), Nothing])
  {
    assert 0 !in UPPER_NAME && 0 !in TERMINATOR;
    assert 0 !in CUT_HEAD && 0 !in CUT_TAIL;
  }

  lemma OneChunk(f: Format, t: Text)
    requires !Malformed(f, t) && Contains(t, f.terminator) && Needed(f, t) <= |t|
    ensures OutcomeOf(f, [Data(t), Nothing]) == Request(t)
  {
    var net := [Data(t), Nothing];
    assert [] + t == t;
    assert net[0] == Data(t) && net[1] == Nothing;
    assert !ScanFails(f, t, net, 1);
    assert Bursts(net, 2, []) == [] && Bursts(net, 1, t) == [t];
    assert Bursts(net, 0, []) == [t];
  }

  lemma FirstChunkFails(f: Format, x: Text, rest: seq<Recv>)
    requires Malformed(f, x)
    ensures OutcomeOf(f, [Data(x)] + rest) == Crashed
  {
    assert [] + x == x;
    assert ([Data(x)] + rest)[0] == Data(x);
  }

  lemma JoinedPair(x: Text, y: Text)
    ensures Joined([Data(x + y), Nothing], 0) == Joined([Data(x), Data(y), Nothing], 0)
  {
    var whole, cut := [Data(x + y), Nothing], [Data(x), Data(y), Nothing];
    assert Joined(cut, 3) == [] && Joined(whole, 2) == [];
    assert Joined(cut, 2) == [Nothing] && Joined(whole, 1) == [Nothing];
    assert Joined(cut, 1) == [Data(y), Nothing];
    assert Joined(cut, 0) == [Data(x + y)] + [Data(y), Nothing][1..];
  }

  /** The field starts the text under its second spelling. */
  lemma NameComesFirst(rest: Text)
    requires forall i | 0 <= i < |rest| :: rest[i] != 99
    ensures LengthField(HTTP, UPPER_NAME + rest) == 0
  {
    var t := UPPER_NAME + rest;
    forall j | 0 <= j < |t| ensures !OccursAt(t, LOWER_NAME, j) {
      assert t[j] != 99 by {
        assert if j < 16 then t[j] == UPPER_NAME[j] else t[j] == rest[j - 16];
      }
      FirstByteDiffers(t, LOWER_NAME, j);
    }
    SearchFindsFirst(t, LOWER_NAME, 0, |t|);
    assert t[0..16] == UPPER_NAME;
    SearchFindsFirst(t, UPPER_NAME, 0, 0);
  }

  lemma FirstByteDiffers(text: Text, pat: Text, i: nat)
    requires i < |text| && pat != [] && text[i] != pat[0]
    ensures !OccursAt(text, pat, i)
  {
    if i + |pat| <= |text| {
      assert text[i..i + |pat|][0] == text[i];
    }
  }

  lemma HeadIsMalformed()
    ensures Malformed(HTTP, CUT_HEAD)
  {
    NameComesFirst([53]);
    assert CUT_HEAD[0..] == CUT_HEAD;
    MalformedExactly(HTTP, CUT_HEAD);
  }

  lemma WholeIsAnswered()
    ensures var t := CUT_HEAD + CUT_TAIL;
            !Malformed(HTTP, t) && Contains(t, TERMINATOR) && Needed(HTTP, t) == |t|
  {
    var t := CUT_HEAD + CUT_TAIL;
    WholeStartsWithName();
    CrIsAt17(t);
    AnnouncesFive(t);
  }

  lemma AnnouncesFive(t: Text)
    requires LengthField(HTTP, t) == 0 && |t| == 26 && CR in t && t[16..17] == [53]
    requires Search(t, [CR], 0) == 17 && Search(t, TERMINATOR, 0) == 17
    ensures !Malformed(HTTP, t) && Contains(t, TERMINATOR) && Needed(HTTP, t) == 26
  {
    NeededBehind(HTTP, t, 17);
    FiveIsFive();
  }

  lemma WholeStartsWithName()
    ensures LengthField(HTTP, CUT_HEAD + CUT_TAIL) == 0
    ensures (CUT_HEAD + CUT_TAIL)[16..17] == [53]
  {
    var rest := [53] + CUT_TAIL;
    assert CUT_HEAD + CUT_TAIL == UPPER_NAME + rest;
    NameComesFirst(rest);
  }

  /** A text that starts with its length field. */
  lemma NeededBehind(f: Format, t: Text, nl: nat)
    requires LengthField(f, t) == 0 && nl < |t| && CR in t && Search(t, [CR], 0) == nl
    requires Contains(t, f.terminator)
    ensures !Malformed(f, t) && nl >= 16
    ensures LengthOf(f, t) == Atoi(t[16..nl])
    ensures LengthOf(f, t) != 0 ==> Needed(f, t) == Search(t, f.terminator, 0) + 4 + Atoi(t[16..nl])
  {
    WellFormedBehind(f, t);
    LengthBehind(f, t, nl);
  }

  lemma WellFormedBehind(f: Format, t: Text)
    requires LengthField(f, t) == 0 && CR in t
    ensures !Malformed(f, t)
  {
    assert t[0..] == t;
    MalformedExactly(f, t);
  }

  lemma LengthBehind(f: Format, t: Text, nl: nat)
    requires LengthField(f, t) == 0 && !Malformed(f, t) && Search(t, [CR], 0) == nl < |t|
    ensures nl >= 16 && FieldValue(f, t) == t[16..nl]
  {
    assert t[0..] == t;
    NameHasNoCr(f, t, nl);
  }

  lemma CrIsAt17(t: Text)
    requires t == CUT_HEAD + CUT_TAIL
    ensures |t| == 26 && CR in t && Search(t, [CR], 0) == 17 && Search(t, TERMINATOR, 0) == 17
  {
    assert t[17] == CR;
    assert t[17..18] == [CR] && t[17..21] == TERMINATOR;
    forall j | 0 <= j < 17 ensures !OccursAt(t, [CR], j) && !OccursAt(t, TERMINATOR, j) {
      assert t[j] == CUT_HEAD[j];
      assert CR !in UPPER_NAME;
      assert t[j] != CR by {
        assert j < 16 ==> CUT_HEAD[j] == UPPER_NAME[j];
      }
      FirstByteDiffers(t, [CR], j);
      FirstByteDiffers(t, TERMINATOR, j);
    }
    SearchFindsFirst(t, [CR], 0, 17);
    SearchFindsFirst(t, TERMINATOR, 0, 17);
  }

  lemma FiveIsFive()
    ensures Atoi([53]) == 5
  {
    var five: Text := [53];
    assert five[1..] == [];
    assert Digits(five, 0) == Digits(five[1..], 5);
  }

  /** What was found in the text is found at the same place in a longer text. */
  lemma SearchExtends(text: Text, more: Text, pat: Text)
    requires pat != [] && Search(text, pat, 0) < |text|
    ensures Search(text + more, pat, 0) == Search(text, pat, 0)
  {
    var k := Search(text, pat, 0);
    SearchFindsFirst(text, pat, 0, k);
    forall j | 0 <= j <= k ensures OccursAt(text + more, pat, j) == OccursAt(text, pat, j) {
      assert (text + more)[j..j + |pat|] == text[j..j + |pat|];
    }
    SearchFindsFirst(text + more, pat, 0, k);
  }

  /** A text that announces no length has no beginning that announces one. */
  lemma NoLengthBefore(f: Format, text: Text, more: Text)
    requires LengthField(f, text + more) == |text + more|
    ensures LengthField(f, text) == |text|
  {
    if Search(text, f.lower, 0) < |text| {
      SearchExtends(text, more, f.lower);
    } else if Search(text, f.upper, 0) < |text| {
      SearchExtends(text, more, f.upper);
    }
  }

  // ---------- The function ----------

  /** The receive buffer, enlarged by one chunk for every chunk received. */
  class Receiver {
    var buf: array<byte>
    var offset: nat
    var chunks: nat

    /** The capacity exceeds the bytes held, so that the final NUL fits. */
    ghost predicate Valid()
      reads this, buf
    {
      && buf.Length == chunks * CLIENT_CHUNK
      && (chunks == 0 ==> offset == 0)
      && (chunks > 0 ==> offset < buf.Length)
      && offset <= chunks * (CLIENT_CHUNK - 1)
      && offset <= buf.Length
    }

    ghost function Received(): Text
      requires offset <= buf.Length
      reads this, buf
    {
      buf[..offset]
    }

    constructor ()
      ensures Valid() && Received() == [] && fresh(buf)
    {
      buf := new byte[0];
      offset, chunks := 0, 0;
    }

    /** `realloc` to one chunk more, and `memcpy` of the received bytes behind those held. */
    method Append(chunk: Text)
      requires Valid() && 0 < |chunk| < CLIENT_CHUNK
      modifies this
      ensures Valid() && Received() == old(Received()) + chunk
      ensures fresh(buf) && chunks == old(chunks) + 1
    {
      chunks := chunks + 1;
      var grown := new byte[chunks * CLIENT_CHUNK](i => 0);
      forall i | 0 <= i < offset {
        grown[i] := buf[i];
      }
      forall i | 0 <= i < |chunk| {
        grown[offset + i] := chunk[i];
      }
      assert grown[..offset + |chunk|] == buf[..offset] + chunk;
      buf := grown;
      offset := offset + |chunk|;
    }

    /** `buf[offset] = 0` */
    method Terminate()
      requires Valid() && chunks > 0
      modifies buf
      ensures Valid() && Received() == old(Received()) && buf[offset] == 0
    {
      buf[offset] := 0;
    }
  }

  /** The chunks are those that `recv` may deliver without overrunning its buffer when the NUL is stored
      behind them, and hold no NUL, which would cut the copy short. */
  predicate Deliverable(net: seq<Recv>) {
    forall i | 0 <= i < |net| && net[i].Data? :: 0 < |net[i].chunk| < CLIENT_CHUNK && 0 !in net[i].chunk
  }

  /** Looks for an announced length in the text received; `last` is what the scan before found. Scanning for
      the CR ends with the offset 0 when there is none, and the value would have a negative length. */
  method ScanLength(f: Format, text: Text, last: int, ghost before: Text) returns (length: int, crashed: bool)
    requires before <= text && (LengthField(f, before) == |before| ==> last == 0)
    ensures crashed <==> Malformed(f, text)
    ensures !crashed && LengthField(f, text) < |text| ==> length == LengthOf(f, text)
    ensures LengthField(f, text) == |text| ==> length == 0
  {
    length, crashed := last, false;
    var k := LengthField(f, text);
    if k < |text| {
      var field := text[k..];
      var nl := 0;
      var i := 0;
      while i < |field|
        invariant 0 <= i <= |field| && nl == 0
        invariant forall j | 0 <= j < i :: !OccursAt(field, [CR], j)
      {
        if field[i] == CR {
          nl := i;
          break;
        }
        assert !OccursAt(field, [CR], i) by {
          assert i + 1 <= |field| ==> field[i..i + 1] == [field[i]];
        }
        i := i + 1;
      }
      assert i < |field| ==> OccursAt(field, [CR], i);
      SearchFindsFirst(field, [CR], 0, i);
      if i < |field| {
        NameHasNoCr(f, text, i);
      }
      if nl < 16 {
        crashed := true;
      } else {
        length := Atoi(text[k + 16..k + nl]);
      }
    } else {
      assert text == before + text[|before|..];
      NoLengthBefore(f, before, text[|before|..]);
    }
  }

  /** What the first loop knows about the text received so far. */
  ghost predicate Scanned(f: Format, text: Text, seen: bool, length: int) {
    length == LengthOf(f, text) && !Malformed(f, text) && seen == Contains(text, f.terminator)
  }

  /** What is left to do once the end of the header section was seen. */
  function Rest(f: Format, text: Text, bursts: seq<Text>): Outcome
    requires Contains(text, f.terminator)
  {
    if |text| >= Needed(f, text) then Request(text) else ReadMore(text, bursts, Needed(f, text))
  }

  /** A timeout ends a burst. */
  lemma BurstEnds(f: Format, text: Text, burst: Text, net: seq<Recv>, j: nat)
    requires j < |net| && net[j].Nothing?
    ensures var t, more := text + burst, Bursts(net, j + 1, []);
            && Answer(f, text, Bursts(net, j, burst))
               == (if Contains(t, f.terminator) then Rest(f, t, more) else Answer(f, t, more))
            && ScanFails(f, t, net, j) == (!Contains(t, f.terminator) && ScanFails(f, t, net, j + 1))
  {
    assert ([burst] + Bursts(net, j + 1, []))[1..] == Bursts(net, j + 1, []);
  }

  lemma NothingMore(f: Format, text: Text, burst: Text, net: seq<Recv>)
    ensures Answer(f, text, Bursts(net, |net|, burst)) == Waiting
    ensures !ScanFails(f, text + burst, net, |net|)
  {
  }

  lemma ChunkArrives(f: Format, text: Text, burst: Text, net: seq<Recv>, j: nat)
    requires j < |net| && net[j].Data?
    ensures Bursts(net, j, burst) == Bursts(net, j + 1, burst + net[j].chunk)
    ensures var t := text + net[j].chunk;
            ScanFails(f, text, net, j) == (Malformed(f, t) || ScanFails(f, t, net, j + 1))
  {
  }

  /** The position of the first chunk that fills the array it is received into. Storing the NUL behind it
      overruns that array. */
  function FirstFull(net: seq<Recv>, j: nat): (k: nat)
    requires j <= |net|
    ensures j <= k <= |net|
    ensures forall i | j <= i < k && net[i].Data? :: |net[i].chunk| < CLIENT_CHUNK
    ensures k < |net| ==> net[k].Data? && |net[k].chunk| >= CLIENT_CHUNK
    decreases |net| - j
  {
    if j == |net| || (net[j].Data? && |net[j].chunk| >= CLIENT_CHUNK) then j else FirstFull(net, j + 1)
  }

  /** The outcome when chunks of every size may come: a function that still waits when a full one comes
      crashes. */
  function OutcomeWithFull(f: Format, net: seq<Recv>): Outcome {
    var k := FirstFull(net, 0);
    var r := OutcomeOf(f, net[..k]);
    if r.Waiting? && k < |net| then Crashed else r
  }

  /** Exactly when reading crashes: a scan fails, or a full chunk comes before the request is complete. */
  lemma CrashesExactly(f: Format, net: seq<Recv>)
    ensures var k := FirstFull(net, 0);
            OutcomeWithFull(f, net).Crashed? <==>
            || ScanFails(f, [], net[..k], 0)
            || (k < |net| && Answer(f, [], Bursts(net[..k], 0, [])).Waiting?)
    ensures FirstFull(net, 0) == |net| ==> OutcomeWithFull(f, net) == OutcomeOf(f, net)
  {
    var k := FirstFull(net, 0);
    AnswerNeverCrashes(f, [], Bursts(net[..k], 0, []));
    assert k == |net| ==> net[..k] == net;
  }

  /** What `recv` may deliver: at most as many bytes as it is asked for. A NUL would cut the copy short. */
  predicate Receivable(net: seq<Recv>) {
    forall i | 0 <= i < |net| && net[i].Data? :: 0 < |net[i].chunk| <= CLIENT_CHUNK && 0 !in net[i].chunk
  }

  /** Reads a request. The function waits on for ever when the socket has nothing more to deliver. It crashes
      when a scan before the end of the header section finds a length without its end, and when a chunk
      fills the array it is received into. */
  method ReadTcp(net: seq<Recv>) returns (r: Outcome)
    requires Receivable(net)
    ensures r == OutcomeWithFull(HTTP, net)
  {
    var k := FirstFull(net, 0);
    r := ReadSmall(net[..k]);
    if r.Waiting? && k < |net| {
      r := Crashed;
    }
  }

  /** Reads from chunks none of which is full. */
  method ReadSmall(net: seq<Recv>) returns (r: Outcome)
    requires Deliverable(net)
    ensures r == OutcomeOf(HTTP, net)
  {
    var rx := new Receiver();
    var j, seen, length, crashed := ReceiveHeader(HTTP, rx, net);
    if crashed {
      return Crashed;
    }
    if !seen {
      return Waiting;
    }
    r := Complete(HTTP, rx, net, j, length);
  }

  /** What follows the first loop. */
  method Complete(f: Format, rx: Receiver, net: seq<Recv>, j: nat, length: int) returns (r: Outcome)
    requires Deliverable(net) && rx.Valid() && rx.chunks > 0 && j <= |net|
    requires Scanned(f, rx.Received(), true, length)
    modifies rx, rx.buf
    ensures r == Rest(f, old(rx.Received()), Bursts(net, j, []))
  {
    var enough := true;
    if length != 0 {
      var headerLength := Search(rx.buf[..rx.offset], f.terminator, 0) + 4;
      enough := ReceiveBody(rx, net, j, headerLength + length);
    }
    r := if enough then Request(rx.buf[..rx.offset]) else Waiting;
    rx.Terminate();
  }

  /** The first receive loop, up to a timeout after the end of the header section was seen. */
  method ReceiveHeader(f: Format, rx: Receiver, net: seq<Recv>) returns (j: nat, seen: bool, length: int, crashed: bool)
    requires Deliverable(net) && rx.Valid() && rx.Received() == []
    modifies rx
    ensures rx.Valid() && (rx.buf == old(rx.buf) || fresh(rx.buf)) && j <= |net|
    ensures crashed <==> ScanFails(f, [], net, 0)
    ensures !crashed && !seen ==> Answer(f, [], Bursts(net, 0, [])) == Waiting
    ensures !crashed && seen ==>
              && rx.chunks > 0 && Scanned(f, rx.Received(), true, length)
              && Answer(f, [], Bursts(net, 0, [])) == Rest(f, rx.Received(), Bursts(net, j, []))
  {
    ghost var whole := Answer(f, [], Bursts(net, 0, []));
    j, seen, length, crashed := 0, false, 0, false;
    EmptyText(f);
    assert rx.Received() == [];
    var over := false;
    while !seen && !over
      invariant j <= |net| && rx.Valid() && (rx.buf == old(rx.buf) || fresh(rx.buf))
      invariant !over ==> Scanned(f, rx.Received(), seen, length) && (seen ==> rx.chunks > 0)
      invariant whole == if over then Waiting else Remaining(f, rx.Received(), net, j, seen)
      invariant ScanFails(f, [], net, 0) == (!seen && !over && ScanFails(f, rx.Received(), net, j))
      invariant over ==> !seen
      decreases !over, !seen, |net| - j
    {
      j, seen, length, crashed, over := HeaderTurn(f, rx, net, j, length);
      if crashed {
        return;
      }
    }
  }

  /** One turn of the outer receive loop: a burst and the timeout behind it. Without a timeout the function
      waits on for ever, whatever was seen. */
  method HeaderTurn(f: Format, rx: Receiver, net: seq<Recv>, from: nat, length0: int)
    returns (j: nat, seen: bool, length: int, crashed: bool, over: bool)
    requires Deliverable(net) && rx.Valid() && from <= |net|
    requires Scanned(f, rx.Received(), false, length0)
    modifies rx
    ensures rx.Valid() && (rx.buf == old(rx.buf) || fresh(rx.buf)) && from <= j <= |net|
    ensures crashed ==> ScanFails(f, old(rx.Received()), net, from)
    ensures !crashed && over ==>
              && !seen
              && Remaining(f, old(rx.Received()), net, from, false) == Waiting
              && !ScanFails(f, old(rx.Received()), net, from)
    ensures !crashed && !over ==>
              && from < j && Scanned(f, rx.Received(), seen, length) && (seen ==> rx.chunks > 0)
              && Remaining(f, old(rx.Received()), net, from, false) == Remaining(f, rx.Received(), net, j, seen)
              && ScanFails(f, old(rx.Received()), net, from) == (!seen && ScanFails(f, rx.Received(), net, j))
  {
    ghost var before := rx.Received();
    over := false;
    ghost var burst;
    j, seen, length, crashed, burst := ScanBurst(f, rx, net, from, false, length0);
    if crashed {
      return;
    }
    if j == |net| {
      NothingMore(f, before, burst, net);
      seen, over := false, true;
    } else {
      BurstEnds(f, before, burst, net, j);
      j := j + 1;
    }
  }

  /** What is left to do between two bursts. */
  ghost function Remaining(f: Format, text: Text, net: seq<Recv>, j: nat, seen: bool): Outcome
    requires j <= |net| && (seen ==> Contains(text, f.terminator))
  {
    if seen then Rest(f, text, Bursts(net, j, [])) else Answer(f, text, Bursts(net, j, []))
  }

  lemma EmptyText(f: Format)
    ensures Scanned(f, [], false, 0)
  {
  }

  /** One chunk of the first loop: it is appended, and the text received so far is scanned. */
  method TakeChunk(f: Format, rx: Receiver, chunk: Text, length0: int) returns (seen: bool, length: int, crashed: bool)
    requires rx.Valid() && 0 < |chunk| < CLIENT_CHUNK && length0 == LengthOf(f, rx.Received())
    modifies rx
    ensures rx.Valid() && rx.chunks > 0 && fresh(rx.buf) && rx.Received() == old(rx.Received()) + chunk
    ensures crashed == Malformed(f, rx.Received())
    ensures !crashed ==> Scanned(f, rx.Received(), seen, length)
  {
    ghost var before := rx.Received();
    rx.Append(chunk);
    seen := Contains(rx.buf[..rx.offset], f.terminator);
    length, crashed := ScanLength(f, rx.buf[..rx.offset], length0, before);
  }

  /** The inner receive loop: after every chunk the text received so far is scanned. */
  method ScanBurst(f: Format, rx: Receiver, net: seq<Recv>, from: nat, seen0: bool, length0: int)
    returns (j: nat, seen: bool, length: int, crashed: bool, ghost burst: Text)
    requires Deliverable(net) && rx.Valid() && from <= |net|
    requires Scanned(f, rx.Received(), seen0, length0) && (seen0 ==> rx.chunks > 0)
    modifies rx
    ensures rx.Valid() && (rx.buf == old(rx.buf) || fresh(rx.buf)) && from <= j <= |net|
    ensures crashed ==> ScanFails(f, old(rx.Received()), net, from)
    ensures !crashed ==>
              && (j < |net| ==> net[j].Nothing?)
              && Scanned(f, rx.Received(), seen, length) && (seen ==> rx.chunks > 0)
              && rx.Received() == old(rx.Received()) + burst && Bursts(net, from, []) == Bursts(net, j, burst)
              && ScanFails(f, old(rx.Received()), net, from) == ScanFails(f, rx.Received(), net, j)
  {
    ghost var start, text := rx.Received(), rx.Received();
    j, seen, length, crashed := from, seen0, length0, false;
    burst := [];
    assert start + burst == start;
    while j < |net| && net[j].Data?
      invariant from <= j <= |net|
      invariant rx.Valid() && (rx.buf == old(rx.buf) || fresh(rx.buf))
      invariant rx.Received() == text == start + burst
      invariant Scanned(f, text, seen, length) && (seen ==> rx.chunks > 0)
      invariant Bursts(net, from, []) == Bursts(net, j, burst)
      invariant ScanFails(f, start, net, from) == ScanFails(f, text, net, j)
    {
      ChunkArrives(f, text, burst, net, j);
      seen, length, crashed := TakeChunk(f, rx, net[j].chunk, length);
      if crashed {
        return;
      }
      Join(start, burst, net[j].chunk);
      text, burst := text + net[j].chunk, burst + net[j].chunk;
      j := j + 1;
    }
  }

  lemma Join(a: Text, b: Text, c: Text)
    ensures a + b + c == a + (b + c)
  {
  }

  /** The second receive loop: bursts are read until the request is long enough. */
  method ReceiveBody(rx: Receiver, net: seq<Recv>, from: nat, needed: int) returns (enough: bool)
    requires Deliverable(net) && rx.Valid() && rx.chunks > 0 && from <= |net|
    modifies rx
    ensures rx.Valid() && rx.chunks > 0 && (rx.buf == old(rx.buf) || fresh(rx.buf))
    ensures var whole := if |old(rx.Received())| >= needed then Request(old(rx.Received()))
                         else ReadMore(old(rx.Received()), Bursts(net, from, []), needed);
            whole == if enough then Request(rx.Received()) else Waiting
  {
    var j := from;
    ghost var whole := if |rx.Received()| >= needed then Request(rx.Received())
                       else ReadMore(rx.Received(), Bursts(net, from, []), needed);
    while rx.offset < needed
      invariant from <= j <= |net| && rx.Valid() && rx.chunks > 0 && (rx.buf == old(rx.buf) || fresh(rx.buf))
      invariant whole == if |rx.Received()| >= needed then Request(rx.Received())
                         else ReadMore(rx.Received(), Bursts(net, j, []), needed)
      decreases |net| - j
    {
      ghost var before, start := rx.Received(), j;
      j := TakeBurst(rx, net, j);
      ghost var burst := rx.Received()[|before|..];
      assert before + burst == rx.Received();
      if j == |net| {
        return false;
      }
      j := j + 1;
      assert ([burst] + Bursts(net, j, []))[1..] == Bursts(net, j, []);
    }
    enough := true;
  }

  method TakeBurst(rx: Receiver, net: seq<Recv>, from: nat) returns (j: nat)
    requires Deliverable(net) && rx.Valid() && rx.chunks > 0 && from <= |net|
    modifies rx
    ensures rx.Valid() && rx.chunks > 0 && (rx.buf == old(rx.buf) || fresh(rx.buf))
    ensures from <= j <= |net| && (j < |net| ==> net[j].Nothing?)
    ensures old(rx.Received()) <= rx.Received()
    ensures Bursts(net, from, []) == Bursts(net, j, rx.Received()[|old(rx.Received())|..])
  {
    j := from;
    ghost var start, burst: Text := rx.Received(), [];
    assert start + burst == start;
    while j < |net| && net[j].Data?
      invariant from <= j <= |net| && rx.Valid() && rx.chunks > 0 && (rx.buf == old(rx.buf) || fresh(rx.buf))
      invariant rx.Received() == start + burst
      invariant Bursts(net, from, []) == Bursts(net, j, burst)
    {
      ghost var chunk := net[j].chunk;
      rx.Append(net[j].chunk);
      assert start + burst + chunk == start + (burst + chunk);
      burst := burst + chunk;
      j := j + 1;
    }
    assert rx.Received()[|start|..] == burst;
  }
}
