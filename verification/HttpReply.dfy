/** Reading the reply of the AssistNow server: the read-and-parse loop of getAssistNowOnlineData. */
module HttpReply {
  import opened Bytes
  import opened HexText
  import opened DecimalText
  import opened Options

  const BUFFER_SIZE := 8192
  /** The value expectedLength starts from. */
  const UNKNOWN := 10000000
  const NUL: char := 0 as char
  const HEADER_END := "\r\n\r\n"
  const CONTENT_LENGTH := "Content-Length"
  const LENGTH_FIELD := "Content-Length:"
  const UBX := "Content-Type: application/ubx"
  const PLAIN := "Content-Type: text/plain"

  /** p stands at position i of s. */
  predicate Occurs(s: string, p: string, i: nat) {
    i + |p| <= |s| && s[i..i + |p|] == p
  }

  /** The first position of p in s. */
  function Find(s: string, p: string): (r: Option<nat>)
    requires p != []
    ensures r.Some? ==> Occurs(s, p, r.value) && forall i :: 0 <= i < r.value ==> !Occurs(s, p, i)
    ensures r.None? ==> forall i: nat :: !Occurs(s, p, i)
  {
    if |s| < |p| then None
    else if s[..|p|] == p then
      assert Occurs(s, p, 0);
      Some(0)
    else
      var rest := Find(s[1..], p);
      assert forall i: nat :: i > 0 ==> (Occurs(s, p, i) <==> Occurs(s[1..], p, i - 1)) by { OccursLater(s, p); }
      if rest.None? then None else Some(rest.value + 1)
  }

  lemma OccursLater(s: string, p: string)
    requires s != [] && p != []
    ensures forall i: nat :: i > 0 ==> (Occurs(s, p, i) <==> Occurs(s[1..], p, i - 1))
  {
    forall i: nat | i > 0 ensures Occurs(s, p, i) <==> Occurs(s[1..], p, i - 1) {
      if i + |p| <= |s| {
        assert s[1..][i - 1..i - 1 + |p|] == s[i..i + |p|];
      }
    }
  }

  /** The C string at the start of a buffer. */
  function CString(buffer: string): (s: string)
    ensures s <= buffer && NUL !in s
    ensures |s| < |buffer| ==> buffer[|s|] == NUL
  {
    if buffer == [] || buffer[0] == NUL then "" else [buffer[0]] + CString(buffer[1..])
  }

  function SkipSpace(s: string): string {
    if s != [] && IsSpace(s[0]) then SkipSpace(s[1..]) else s
  }

  /** %u: white space, a sign, digits, modulo 2^32; zero when there are no digits. */
  function ScanUnsigned(s: string): nat {
    var t := SkipSpace(s);
    if t != [] && t[0] == '-' then (-(ReadDigits(t[1..], 0) as int)) % 0x1_0000_0000
    else if t != [] && t[0] == '+' then ReadDigits(t[1..], 0) % 0x1_0000_0000
    else ReadDigits(t, 0) % 0x1_0000_0000
  }

  /** sscanf with "Content-Length: %u". */
  function ScanLength(s: string): nat {
    if LENGTH_FIELD <= s then ScanUnsigned(s[|LENGTH_FIELD|..]) else 0
  }

  /** The loop's variables. `payload` is the offset pPayload points to. */
  datatype State = State(reply: string, total: nat, expected: int, length: nat, payload: Option<nat>)

  /** The part of the buffer not yet read is taken to be zero. */
  const START := State(Filled(""), 0, UNKNOWN, 0, None)

  /** A buffer that starts with `text` and is zero beyond it. */
  function Filled(text: string): (buffer: string)
    requires |text| <= BUFFER_SIZE
    ensures |buffer| == BUFFER_SIZE
  {
    text + seq(BUFFER_SIZE - |text|, _ => NUL)
  }

  predicate Valid(s: State) {
    |s.reply| == BUFFER_SIZE && s.total <= BUFFER_SIZE
  }

  /** One read that brought `bytes` (no more than there is room for), and the parsing after it. */
  function Absorb(s: State, bytes: string): (r: State)
    requires Valid(s)
    ensures Valid(r) && r.total == Min(s.total + |bytes|, BUFFER_SIZE)
  {
    var n := Min(|bytes|, BUFFER_SIZE - s.total);
    Parse(State(s.reply[..s.total] + bytes[..n] + s.reply[s.total + n..], s.total + n, s.expected, s.length, s.payload))
  }

  function Parse(s: State): (r: State)
    requires Valid(s)
    ensures Valid(r) && r.total == s.total
  {
    var text := CString(s.reply);
    var end := Find(text, HEADER_END);
    var field := Find(text, CONTENT_LENGTH);
    if end.None? || field.None? then s
    else
      var length := ScanLength(text[field.value..]);
      if length == 0 then s
      else State(s.reply[end.value := NUL], s.total, end.value + length + 4, length, Some(end.value + 4))
  }

  /** What one call of read returned. */
  datatype ReadResult = Data(bytes: string) | Failed

  /** What the function returns, and the bytes it leaves in the caller's buffer if it returns any. */
  datatype Outcome = Outcome(code: int, buffer: Option<string>)

  /** The loop, over the results of the successive reads. A read without data tells that the peer has closed
      the connection; silence after the last is a timeout, with which a read fails. */
  function Loop(s: State, results: seq<ReadResult>, bufferLength: nat): Outcome
    requires Valid(s)
    decreases |results|
  {
    if !(s.total < s.expected && s.total < BUFFER_SIZE) then Conclude(s, bufferLength)
    else if results == [] then Outcome(-1, None)
    else
      match results[0]
      case Failed => Outcome(-1, None)
      case Data(bytes) =>
        if bytes == [] then Outcome(0, None) else Loop(Absorb(s, bytes), results[1..], bufferLength)
  }

  /** After the loop: check the reply and hand over the payload. */
  function Conclude(s: State, bufferLength: nat): Outcome
    requires Valid(s)
  {
    if s.expected == s.total && s.payload.Some? && s.length > 0 then
      var text := CString(s.reply);
      if Find(text, UBX).Some? then
        if s.length > bufferLength then Outcome(-2, None)
        else if s.payload.value + s.length <= BUFFER_SIZE then
          Outcome(s.length, Some(s.reply[s.payload.value..s.payload.value + s.length]))
        else Outcome(-5, None)
      else if Find(text, PLAIN).Some? then Outcome(-3, None)
      else Outcome(-4, None)
    else Outcome(-5, None)
  }

  // ---------- A well-formed reply ----------

  /** Header h, its terminator, and a payload of the announced length, fitting the buffer. */
  predicate WellFormed(h: string, payload: string) {
    && NUL !in h
    && Find(h + HEADER_END, HEADER_END) == Some(|h|)
    && Find(h, CONTENT_LENGTH).Some?
    && ScanLength(h[Find(h, CONTENT_LENGTH).value..]) == |payload| > 0
    && |h| + 4 + |payload| <= BUFFER_SIZE
  }

  /** The answer such a reply deserves, however it arrives. */
  function Deserved(h: string, payload: string, bufferLength: nat): Outcome {
    if Find(h, UBX).Some? then
      if |payload| > bufferLength then Outcome(-2, None) else Outcome(|payload|, Some(payload))
    else if Find(h, PLAIN).Some? then Outcome(-3, None)
    else Outcome(-4, None)
  }

  /** The loop's variables after the first c bytes of the reply. */
  function After(h: string, payload: string, c: nat): (r: State)
    requires WellFormed(h, payload) && c <= |h| + 4 + |payload|
    ensures Valid(r) && r.total == c
  {
    var s := h + HEADER_END + payload;
    if c < |h| + 4 then State(Filled(s[..c]), c, UNKNOWN, 0, None)
    else State(Filled(s[..c][|h| := NUL]), c, |s|, |payload|, Some(|h| + 4))
  }

  lemma {:induction false} CStringOf(text: string, rest: string)
    requires NUL !in text && (rest == [] || rest[0] == NUL)
    ensures CString(text + rest) == text
    decreases |text|
  {
    if text == [] {
      assert text + rest == rest;
    } else {
      assert (text + rest)[1..] == text[1..] + rest;
      assert NUL !in text[1..];
      CStringOf(text[1..], rest);
    }
  }

  lemma {:induction false} CStringAtLeast(text: string, rest: string)
    requires NUL !in text
    ensures text <= CString(text + rest)
    decreases |text|
  {
    if text != [] {
      assert (text + rest)[1..] == text[1..] + rest;
      assert NUL !in text[1..];
      CStringAtLeast(text[1..], rest);
    }
  }

  /** An occurrence in a prefix is an occurrence in the whole, and the other way round if it fits. */
  lemma OccursInPrefix(s: string, t: string, p: string, i: nat)
    requires s <= t
    ensures Occurs(s, p, i) <==> Occurs(t, p, i) && i + |p| <= |s|
  {
    if i + |p| <= |s| {
      assert s[i..i + |p|] == t[i..i + |p|];
    }
  }

  /** Finding is not disturbed by what follows. */
  lemma FindInPrefix(s: string, t: string, p: string)
    requires s <= t && p != []
    ensures Find(s, p).Some? ==> Find(t, p) == Find(s, p)
    ensures Find(t, p).Some? && Find(t, p).value + |p| <= |s| ==> Find(s, p) == Find(t, p)
    ensures Find(t, p).Some? && Find(t, p).value + |p| > |s| ==> Find(s, p).None?
  {
    hide Find, Occurs;
    forall i: nat ensures Occurs(s, p, i) <==> Occurs(t, p, i) && i + |p| <= |s| {
      OccursInPrefix(s, t, p, i);
    }
    var a, b := Find(s, p), Find(t, p);
    if a.Some? && b.Some? {
      assert !(a.value < b.value);
    }
  }

  lemma {:induction false} ReadDigitsStops(s: string, rest: string, sofar: nat)
    requires rest == [] || !IsDigit(rest[0])
    ensures ReadDigits(s + rest, sofar) == ReadDigits(s, sofar)
    decreases |s|
  {
    if s == [] {
      assert s + rest == rest;
    } else if IsDigit(s[0]) {
      assert (s + rest)[1..] == s[1..] + rest;
      ReadDigitsStops(s[1..], rest, sofar * 10 + (s[0] as int - 0x30));
    }
  }

  lemma {:induction false} SkipSpaceStops(s: string, rest: string)
    requires SkipSpace(s) != []
    ensures SkipSpace(s + rest) == SkipSpace(s) + rest
    decreases |s|
  {
    if IsSpace(s[0]) {
      assert (s + rest)[1..] == s[1..] + rest;
      SkipSpaceStops(s[1..], rest);
    }
  }

  /** A length that was read is not changed by text that does not continue its digits. */
  lemma ScanLengthStops(s: string, rest: string)
    requires ScanLength(s) > 0 && (rest == [] || !IsDigit(rest[0]))
    ensures ScanLength(s + rest) == ScanLength(s)
  {
    hide LENGTH_FIELD;
    assert LENGTH_FIELD <= s <= s + rest;
    var n := |LENGTH_FIELD|;
    assert (s + rest)[n..] == s[n..] + rest;
    var t := SkipSpace(s[n..]);
    assert t != [];
    SkipSpaceStops(s[n..], rest);
    ReadDigitsStops(t, rest, 0);
    ReadDigitsStops(t[1..], rest, 0);
    assert (t + rest)[1..] == t[1..] + rest;
  }

  lemma TerminatorFacts()
    ensures |HEADER_END| == 4 && NUL !in HEADER_END && !IsDigit(HEADER_END[0])
    ensures CONTENT_LENGTH != [] && UBX != [] && PLAIN != []
  {
  }

  /** Reading appends to what the buffer holds. */
  lemma AbsorbAppends(s: State, text: string, bytes: string)
    requires |text| + |bytes| <= BUFFER_SIZE && s.reply == Filled(text) && s.total == |text|
    ensures Absorb(s, bytes) == Parse(State(Filled(text + bytes), |text| + |bytes|, s.expected, s.length, s.payload))
  {
    hide Parse;
    assert bytes[..|bytes|] == bytes;
    assert Filled(text)[..|text|] + bytes + Filled(text)[|text| + |bytes|..] == Filled(text + bytes);
  }

  /** The C string in a buffer is what was read, up to the first zero byte. */
  lemma TextIn(text: string, rest: string)
    requires |text| + |rest| <= BUFFER_SIZE && NUL !in text
    ensures text <= CString(Filled(text + rest))
    ensures rest == [] || rest[0] == NUL ==> CString(Filled(text + rest)) == text
  {
    var tail := Filled(text + rest)[|text|..];
    assert Filled(text + rest) == text + tail;
    CStringAtLeast(text, tail);
    if rest == [] || rest[0] == NUL {
      CStringOf(text, tail);
    }
  }

  /** What the parser sees once the header is complete. */
  lemma HeaderSeen(h: string, payload: string, text: string)
    requires WellFormed(h, payload) && h + HEADER_END <= text
    ensures Find(text, HEADER_END) == Some(|h|)
    ensures Find(text, CONTENT_LENGTH).Some? && ScanLength(text[Find(text, CONTENT_LENGTH).value..]) == |payload|
  {
    hide HEADER_END, CONTENT_LENGTH, Find, ScanLength;
    TerminatorFacts();
    FindInPrefix(h + HEADER_END, text, HEADER_END);
    assert h == (h + HEADER_END)[..|h|] == text[..|h|];
    FindInPrefix(h, text, CONTENT_LENGTH);
    var i, rest := Find(h, CONTENT_LENGTH).value, text[|h|..];
    assert text == h + rest && text[i..] == h[i..] + rest;
    assert rest[0] == (h + HEADER_END)[|h|] == HEADER_END[0];
    ScanLengthStops(h[i..], rest);
  }

  /** The three kinds of read: within the header, completing it, within the payload. */
  lemma ParseHeader(s: State, h: string, payload: string, seen: string)
    requires WellFormed(h, payload) && |seen| < |h| + 4 && seen <= h + HEADER_END && s.reply == Filled(seen) && Valid(s)
    ensures Parse(s) == s
  {
    hide HEADER_END, CONTENT_LENGTH, Find, ScanLength, CString;
    TerminatorFacts();
    assert forall i :: 0 <= i < |seen| ==> seen[i] == (h + HEADER_END)[i];
    assert seen + [] == seen;
    TextIn(seen, []);
    FindInPrefix(seen, h + HEADER_END, HEADER_END);
  }

  lemma ParseCross(s: State, h: string, payload: string, rest: string)
    requires WellFormed(h, payload) && |h| + 4 + |rest| <= BUFFER_SIZE && Valid(s)
    requires s.reply == Filled(h + HEADER_END + rest)
    ensures Parse(s) ==
            State(Filled((h + HEADER_END + rest)[|h| := NUL]), s.total, |h| + |payload| + 4, |payload|, Some(|h| + 4))
  {
    hide HEADER_END, CONTENT_LENGTH, Find, ScanLength, CString;
    TerminatorFacts();
    TextIn(h + HEADER_END, rest);
    HeaderSeen(h, payload, CString(s.reply));
    assert s.reply[|h| := NUL] == Filled((h + HEADER_END + rest)[|h| := NUL]);
  }

  /** Once cut off, the header's end is not found again, even if the payload contains one. */
  lemma ParsePayload(s: State, h: string, payload: string, rest: string)
    requires WellFormed(h, payload) && |h| + |rest| <= BUFFER_SIZE && rest != [] && rest[0] == NUL && Valid(s)
    requires s.reply == Filled(h + rest)
    ensures CString(s.reply) == h && Parse(s) == s
  {
    hide HEADER_END, CONTENT_LENGTH, Find, ScanLength, CString;
    TerminatorFacts();
    TextIn(h, rest);
    FindInPrefix(h, h + HEADER_END, HEADER_END);
  }

  /** The header with its terminator cut, as it lies in front of the payload. */
  lemma CutText(h: string, payload: string, c: nat)
    requires |h| + 4 <= c <= |h| + 4 + |payload|
    ensures (h + HEADER_END + payload)[..c][|h| := NUL] == h + ([NUL] + HEADER_END[1..] + payload[..c - |h| - 4])
  {
  }

  /** One read inside a well-formed reply. */
  lemma AbsorbAny(h: string, payload: string, c: nat, n: nat)
    requires WellFormed(h, payload) && c + n <= |h| + 4 + |payload|
    ensures Absorb(After(h, payload, c), (h + HEADER_END + payload)[c..c + n]) == After(h, payload, c + n)
  {
    hide HEADER_END, CONTENT_LENGTH, Find, ScanLength, CString, Absorb, Parse, WellFormed;
    TerminatorFacts();
    var s := h + HEADER_END + payload;
    WithinBuffer(h, payload);
    assert s[..c] + s[c..c + n] == s[..c + n];
    if c + n < |h| + 4 {
      AbsorbAppends(After(h, payload, c), s[..c], s[c..c + n]);
      ParseHeader(State(Filled(s[..c + n]), c + n, UNKNOWN, 0, None), h, payload, s[..c + n]);
    } else if c < |h| + 4 {
      AbsorbAppends(After(h, payload, c), s[..c], s[c..c + n]);
      assert s[..c + n] == h + HEADER_END + payload[..c + n - |h| - 4];
      ParseCross(State(Filled(s[..c + n]), c + n, UNKNOWN, 0, None), h, payload, payload[..c + n - |h| - 4]);
    } else {
      var cut := s[..c][|h| := NUL];
      AbsorbAppends(After(h, payload, c), cut, s[c..c + n]);
      assert cut + s[c..c + n] == s[..c + n][|h| := NUL];
      CutText(h, payload, c + n);
      ParsePayload(After(h, payload, c + n), h, payload, [NUL] + HEADER_END[1..] + payload[..c + n - |h| - 4]);
    }
  }

  lemma WithinBuffer(h: string, payload: string)
    requires WellFormed(h, payload)
    ensures |h| + 4 + |payload| <= BUFFER_SIZE
  {
  }

  /** With the whole reply in the buffer the loop ends and hands over exactly the payload. */
  lemma Finish(h: string, payload: string, results: seq<ReadResult>, bufferLength: nat)
    requires WellFormed(h, payload)
    ensures Loop(After(h, payload, |h| + 4 + |payload|), results, bufferLength) == Deserved(h, payload, bufferLength)
  {
    hide HEADER_END, CONTENT_LENGTH, UBX, PLAIN, Find, ScanLength, Absorb, Parse, CString;
    TerminatorFacts();
    var c := |h| + 4 + |payload|;
    CutText(h, payload, c);
    ParsePayload(After(h, payload, c), h, payload, [NUL] + HEADER_END[1..] + payload[..|payload|]);
    var reply := After(h, payload, c).reply;
    assert reply[|h| + 4..c] == payload;
  }

  function Arrived(results: seq<ReadResult>): string {
    if results == [] then ""
    else (if results[0].Data? then results[0].bytes else "") + Arrived(results[1..])
  }

  predicate AllData(results: seq<ReadResult>) {
    forall i :: 0 <= i < |results| ==> results[i].Data? && results[i].bytes != []
  }

  lemma Split(a: string, b: string, s: string, c: nat)
    requires c <= |s| && a + b == s[c..]
    ensures c + |a| <= |s| && a == s[c..c + |a|] && b == s[c + |a|..]
  {
    assert a == s[c..][..|a|] == s[c..c + |a|];
    assert b == s[c..][|a|..] == s[c + |a|..];
  }

  /** Until the last byte of the reply has come the loop goes on reading. */
  lemma Pending(h: string, payload: string, c: nat)
    requires WellFormed(h, payload) && c < |h| + 4 + |payload|
    ensures After(h, payload, c).total < After(h, payload, c).expected && c < BUFFER_SIZE
  {
    hide HEADER_END, WellFormed, Filled;
    TerminatorFacts();
    WithinBuffer(h, payload);
  }

  lemma ReadStep(h: string, payload: string, c: nat, n: nat, results: seq<ReadResult>, bufferLength: nat)
    requires WellFormed(h, payload) && n > 0 && c + n <= |h| + 4 + |payload|
    requires results != [] && results[0] == Data((h + HEADER_END + payload)[c..c + n])
    ensures Loop(After(h, payload, c), results, bufferLength) ==
            Loop(After(h, payload, c + n), results[1..], bufferLength)
  {
    hide HEADER_END, Absorb, Conclude, WellFormed, After;
    TerminatorFacts();
    Pending(h, payload, c);
    AbsorbAny(h, payload, c, n);
  }

  /** Nothing more comes: the peer closes the connection, a read fails, or there is only silence. */
  predicate BringNothing(ends: seq<ReadResult>) {
    ends == [] || ends[0].Failed? || ends[0] == Data([])
  }

  /** What the function returns then. */
  function Aborted(ends: seq<ReadResult>): Outcome {
    Outcome(if ends != [] && ends[0] == Data([]) then 0 else -1, None)
  }

  lemma Silence(h: string, payload: string, c: nat, ends: seq<ReadResult>, bufferLength: nat)
    requires WellFormed(h, payload) && c < |h| + 4 + |payload| && BringNothing(ends)
    ensures Loop(After(h, payload, c), ends, bufferLength) == Aborted(ends)
  {
    hide Absorb, Conclude, WellFormed, After;
    Pending(h, payload, c);
  }

  lemma {:induction false} LoopFrom(h: string, payload: string, c: nat, results: seq<ReadResult>, more: seq<ReadResult>,
                                    bufferLength: nat)
    requires WellFormed(h, payload) && c <= |h| + 4 + |payload|
    requires AllData(results) && Arrived(results) == (h + HEADER_END + payload)[c..]
    ensures Loop(After(h, payload, c), results + more, bufferLength) == Deserved(h, payload, bufferLength)
    decreases |results|
  {
    hide HEADER_END, Loop, Absorb, WellFormed, After, Deserved;
    TerminatorFacts();
    var s := h + HEADER_END + payload;
    if c == |s| {
      Finish(h, payload, results + more, bufferLength);
    } else {
      var bytes := results[0].bytes;
      Split(bytes, Arrived(results[1..]), s, c);
      assert (results + more)[1..] == results[1..] + more;
      ReadStep(h, payload, c, |bytes|, results + more, bufferLength);
      LoopFrom(h, payload, c + |bytes|, results[1..], more, bufferLength);
    }
  }

  lemma StartState(h: string, payload: string)
    requires WellFormed(h, payload)
    ensures After(h, payload, 0) == START
  {
    assert (h + HEADER_END + payload)[..0] + START.reply == START.reply;
  }

  /** Independence of fragmentation: however a well-formed reply is cut into reads, the loop's answer is
      the same function of header and payload, whatever could be read afterwards; for application/ubx it
      is the payload, exactly. */
  lemma AnyFragmentation(h: string, payload: string, results: seq<ReadResult>, more: seq<ReadResult>, bufferLength: nat)
    requires WellFormed(h, payload)
    requires AllData(results) && Arrived(results) == h + HEADER_END + payload
    ensures Loop(START, results + more, bufferLength) == Deserved(h, payload, bufferLength)
  {
    hide Loop, WellFormed, Deserved, After;
    StartState(h, payload);
    var s := h + HEADER_END + payload;
    assert s[0..] == s;
    LoopFrom(h, payload, 0, results, more, bufferLength);
  }

  lemma ScanField(s: string)
    ensures ScanLength("Content-Length:" + s) == ScanUnsigned(s)
  {
    var field := "Content-Length:" + s;
    assert field[|LENGTH_FIELD|..] == s && LENGTH_FIELD <= field;
    hide ScanUnsigned;
  }

  /** The length field of a header, as any server writes it, is read as the number it shows, modulo 2^32. */
  lemma ScanPrinted(n: nat, rest: string)
    requires rest == [] || !IsDigit(rest[0])
    ensures ScanLength("Content-Length: " + Print(n) + rest) == n % 0x1_0000_0000
  {
    var number := Digits(n) + rest;
    ReadDigitsOfPrinted(n, rest);
    assert IsDigit(number[0]) && ([' '] + number)[1..] == number;
    ScanField([' '] + number);
    assert "Content-Length:" + ([' '] + number) == "Content-Length: " + Print(n) + rest;
    hide Digits, ReadDigits, ScanLength;
    assert SkipSpace([' '] + number) == SkipSpace(number) == number;
  }

  /** A sign is accepted, as sscanf does; a negative number wraps around. */
  lemma ScanSigned(n: int, rest: string)
    requires n >= 0 && (rest == [] || !IsDigit(rest[0]))
    ensures ScanLength("Content-Length:" + (['+'] + (Print(n) + rest))) == n % 0x1_0000_0000
    ensures ScanLength("Content-Length:" + (['-'] + (Print(n) + rest))) == (-n) % 0x1_0000_0000
  {
    var number := Print(n) + rest;
    ReadDigitsOfPrinted(n, rest);
    assert (['+'] + number)[1..] == number && (['-'] + number)[1..] == number;
    ScanField(['+'] + number);
    ScanField(['-'] + number);
    hide Digits, ReadDigits, ScanLength;
  }

  /** Header `before`, length field and `after`, in front of the payload: no other terminator, and no earlier
      length field. */
  ghost predicate WellWritten(before: string, after: string, payload: string) {
    var h := before + "Content-Length: " + Print(|payload|) + after;
    && payload != [] && |h| + 4 + |payload| <= 8192 && 0 as char !in h
    && (after == [] || !IsDigit(after[0]))
    && (forall i: nat :: Occurs(h + "\r\n\r\n", "\r\n\r\n", i) ==> i == |h|)
    && (forall i: nat :: Occurs(h, "Content-Length", i) ==> i >= |before|)
  }

  lemma WrittenIsFormed(before: string, after: string, payload: string)
    requires WellWritten(before, after, payload)
    ensures WellFormed(before + "Content-Length: " + Print(|payload|) + after, payload)
  {
    var field := "Content-Length: " + Print(|payload|) + after;
    var h := before + field;
    hide Print, Find;
    assert h == before + "Content-Length: " + Print(|payload|) + after;
    ScanPrinted(|payload|, after);
    assert (h + HEADER_END)[|h|..|h| + 4] == HEADER_END;
    assert Occurs(h + HEADER_END, HEADER_END, |h|);
    assert field[..14] == CONTENT_LENGTH;
    assert h[|before|..|before| + 14] == field[..14];
    assert Occurs(h, CONTENT_LENGTH, |before|);
    assert h[|before|..] == field;
    hide Find, ScanLength, Print;
  }

  /** The reply loop, from the bytes the server sends: however a reply with one length field is cut into reads,
      and whatever could be read afterwards, an application/ubx reply is handed over exactly, if there is room
      for it, and any other is refused. */
  lemma ReplyDelivered(before: string, after: string, payload: string, results: seq<ReadResult>, more: seq<ReadResult>,
                       bufferLength: nat)
    requires WellWritten(before, after, payload) && AllData(results)
    requires Arrived(results) ==
             before + "Content-Length: " + Print(|payload|) + after + "\r\n\r\n" + payload
    ensures var h := before + "Content-Length: " + Print(|payload|) + after;
      Loop(START, results + more, bufferLength) ==
        if exists i: nat :: Occurs(h, "Content-Type: application/ubx", i) then
          if |payload| > bufferLength then Outcome(-2, None) else Outcome(|payload|, Some(payload))
        else if exists i: nat :: Occurs(h, "Content-Type: text/plain", i) then Outcome(-3, None)
        else Outcome(-4, None)
  {
    var h := before + "Content-Length: " + Print(|payload|) + after;
    WrittenIsFormed(before, after, payload);
    AnyFragmentation(h, payload, results, more, bufferLength);
    assert Find(h, UBX).Some? <==> exists i: nat :: Occurs(h, "Content-Type: application/ubx", i);
    assert Find(h, PLAIN).Some? <==> exists i: nat :: Occurs(h, "Content-Type: text/plain", i);
    hide Find, Loop, Print, WellWritten, WellFormed;
  }

  /** Bytes that follow the reply are harmless only when no read brings them together with its end: a
      read that does makes the loop reject the whole reply. */
  lemma OverrunRejected(h: string, payload: string, c: nat, extra: string, more: seq<ReadResult>, bufferLength: nat)
    requires WellFormed(h, payload) && c < |h| + 4 + |payload|
    requires extra != [] && |h| + 4 + |payload| + |extra| <= BUFFER_SIZE
    ensures Loop(After(h, payload, c), [Data((h + HEADER_END + payload)[c..] + extra)] + more, bufferLength) ==
            Outcome(-5, None)
  {
    hide HEADER_END, CONTENT_LENGTH, Find, ScanLength, CString, Absorb, Parse, WellFormed;
    TerminatorFacts();
    WithinBuffer(h, payload);
    var s, n := h + HEADER_END + payload, |h| + 4 + |payload| + |extra|;
    var bytes := s[c..] + extra;
    assert ([Data(bytes)] + more)[1..] == more;
    if c < |h| + 4 {
      AbsorbAppends(After(h, payload, c), s[..c], bytes);
      assert s[..c] + bytes == h + HEADER_END + (payload + extra);
      ParseCross(State(Filled(s[..c] + bytes), n, UNKNOWN, 0, None), h, payload, payload + extra);
    } else {
      var cut := s[..c][|h| := NUL];
      AbsorbAppends(After(h, payload, c), cut, bytes);
      CutText(h, payload, c);
      var rest := [NUL] + HEADER_END[1..] + payload[..c - |h| - 4] + bytes;
      assert cut + bytes == h + rest;
      ParsePayload(State(Filled(h + rest), n, |s|, |payload|, Some(|h| + 4)), h, payload, rest);
    }
  }

  /** A reply that stops short, however little is missing and however the reading ends, is never handed
      over. */
  lemma {:induction false} StopsShort(h: string, payload: string, c: nat, results: seq<ReadResult>, missing: string,
                                      ends: seq<ReadResult>, bufferLength: nat)
    requires WellFormed(h, payload) && c <= |h| + 4 + |payload| && BringNothing(ends)
    requires AllData(results) && missing != [] && Arrived(results) + missing == (h + HEADER_END + payload)[c..]
    ensures Loop(After(h, payload, c), results + ends, bufferLength) == Aborted(ends)
    decreases |results|
  {
    hide HEADER_END, Loop, Absorb, WellFormed, After, Aborted, BringNothing;
    TerminatorFacts();
    var s := h + HEADER_END + payload;
    assert |s[c..]| > 0;
    if results == [] {
      assert results + ends == ends;
      Silence(h, payload, c, ends, bufferLength);
    } else {
      var bytes := results[0].bytes;
      assert bytes + (Arrived(results[1..]) + missing) == s[c..];
      Split(bytes, Arrived(results[1..]) + missing, s, c);
      assert (results + ends)[1..] == results[1..] + ends;
      ReadStep(h, payload, c, |bytes|, results + ends, bufferLength);
      StopsShort(h, payload, c + |bytes|, results[1..], missing, ends, bufferLength);
    }
  }

  // ---------- The loop as code ----------

  method ReadReply(results: seq<ReadResult>, bufferLength: nat) returns (outcome: Outcome)
    ensures outcome == Loop(START, results, bufferLength)
  {
    hide Absorb, Conclude;
    var reply := new char[BUFFER_SIZE](_ => NUL);
    var totalLength: nat, expectedLength, payloadLength: nat := 0, UNKNOWN, 0;
    var pPayload: Option<nat> := None;
    var next := 0;
    assert reply[..] == Filled("") && results[0..] == results;
    while totalLength < expectedLength && totalLength < BUFFER_SIZE
      invariant totalLength <= BUFFER_SIZE && next <= |results|
      invariant Loop(START, results, bufferLength) ==
                Loop(State(reply[..], totalLength, expectedLength, payloadLength, pPayload), results[next..],
                     bufferLength)
      decreases |results| - next
    {
      if next == |results| || results[next] == Failed { return Outcome(-1, None); }
      assert results[next..][0] == results[next] && results[next..][1..] == results[next + 1..];
      var bytes := results[next].bytes;
      if bytes == [] { return Outcome(0, None); }
      totalLength, expectedLength, payloadLength, pPayload :=
        OneRead(reply, totalLength, expectedLength, payloadLength, pPayload, bytes);
      next := next + 1;
    }
    outcome := Conclude(State(reply[..], totalLength, expectedLength, payloadLength, pPayload), bufferLength);
  }

  /** The body of the loop after a successful read. */
  method OneRead(reply: array<char>, total: nat, expected: int, length: nat, payload: Option<nat>, bytes: string)
    returns (totalLength: nat, expectedLength: int, payloadLength: nat, pPayload: Option<nat>)
    requires reply.Length == BUFFER_SIZE && total <= BUFFER_SIZE
    modifies reply
    ensures State(reply[..], totalLength, expectedLength, payloadLength, pPayload) ==
            Absorb(State(old(reply[..]), total, expected, length, payload), bytes)
  {
    hide Find, CString, ScanLength, HEADER_END, CONTENT_LENGTH;
    TerminatorFacts();
    expectedLength, payloadLength, pPayload := expected, length, payload;
    var readLength := Min(|bytes|, BUFFER_SIZE - total);
    CopyIn(reply, total, bytes, readLength);
    totalLength := total + readLength;
    ghost var before := State(reply[..], totalLength, expected, length, payload);
    assert Absorb(State(old(reply[..]), total, expected, length, payload), bytes) == Parse(before);
    hide Absorb;
    var headerEnd := Find(CString(reply[..]), HEADER_END);
    if headerEnd.Some? {
      var pContentLength := Find(CString(reply[..]), CONTENT_LENGTH);
      var contentLength := if pContentLength.Some? then ScanLength(CString(reply[..])[pContentLength.value..]) else 0;
      if contentLength > 0 {
        expectedLength := headerEnd.value + contentLength + 4;
        payloadLength := contentLength;
        reply[headerEnd.value] := NUL;
        pPayload := Some(headerEnd.value + 4);
        assert reply[..] == before.reply[headerEnd.value := NUL];
      }
    }
  }

  method CopyIn(reply: array<char>, at: nat, bytes: string, n: nat)
    requires n <= |bytes| && at + n <= reply.Length
    modifies reply
    ensures reply[..] == old(reply[..])[..at] + bytes[..n] + old(reply[..])[at + n..]
  {
    ghost var before := reply[..];
    var i := 0;
    while i < n
      invariant 0 <= i <= n
      invariant forall j :: 0 <= j < reply.Length ==>
        reply[j] == if at <= j < at + i then bytes[j - at] else before[j]
    {
      reply[at + i] := bytes[i];
      i := i + 1;
    }
    assert reply[..] == before[..at] + bytes[..n] + before[at + n..];
  }
}
