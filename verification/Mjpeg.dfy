/** The incremental parser of the cockpit's camera stream: header, blank line, as many bytes
    as the header announces. One character stands for one byte. */
module Mjpeg {
  import opened Common

  type Bytes = string

  const BLANK: Bytes := "\r\n\r\n"
  const FIELD: Bytes := "content-length:"

  // ---- finding things ---------------------------------------------------------------

  predicate OccursAt(buf: Bytes, what: Bytes, i: nat) {
    i + |what| <= |buf| && buf[i..i + |what|] == what
  }

  /** The first occurrence from position `i` on, or -1. */
  function FindFrom(buf: Bytes, what: Bytes, i: nat): int
    requires i <= |buf|
    decreases |buf| - i
  {
    if OccursAt(buf, what, i) then i
    else if i == |buf| then -1
    else FindFrom(buf, what, i + 1)
  }

  function LowerCase(c: char): char {
    if 'A' <= c <= 'Z' then c - 'A' + 'a' else c
  }

  /** White space of a byte pattern. */
  predicate IsBlank(c: char) { c == ' ' || '\t' <= c <= '\r' }

  predicate FieldAt(h: Bytes, i: nat) {
    i + |FIELD| <= |h| && forall k :: 0 <= k < |FIELD| ==> LowerCase(h[i + k]) == FIELD[k]
  }

  function SkipSpaces(h: Bytes, i: nat): (r: nat)
    requires i <= |h|
    ensures i <= r <= |h|
    decreases |h| - i
  {
    if i < |h| && IsBlank(h[i]) then SkipSpaces(h, i + 1) else i
  }

  function SkipDigits(h: Bytes, i: nat): (r: nat)
    requires i <= |h|
    ensures i <= r <= |h| && forall k :: i <= k < r ==> IsDigit(h[k])
    decreases |h| - i
  {
    if i < |h| && IsDigit(h[i]) then SkipDigits(h, i + 1) else i
  }

  function Decimal(digits: Bytes): nat
    requires forall k :: 0 <= k < |digits| ==> IsDigit(digits[k])
  {
    if digits == [] then 0
    else
      assert IsDigit(digits[|digits| - 1]);
      10 * Decimal(digits[..|digits| - 1]) + (digits[|digits| - 1] as int - '0' as int)
  }

  /** The number announced by the field at `i`, if there is one: the field name in any case,
      white space, at least one digit. */
  function LengthAt(h: Bytes, i: nat): Option<nat>
    requires i <= |h|
  {
    if !FieldAt(h, i) then None
    else
      var d := SkipSpaces(h, i + |FIELD|);
      var e := SkipDigits(h, d);
      if e == d then None else Some(Decimal(h[d..e]))
  }

  /** The leftmost match of the pattern in the header. */
  function ContentLengthFrom(h: Bytes, i: nat): Option<nat>
    requires i <= |h|
    decreases |h| - i
  {
    if LengthAt(h, i).Some? then LengthAt(h, i)
    else if i == |h| then None
    else ContentLengthFrom(h, i + 1)
  }

  function ContentLength(h: Bytes): Option<nat> {
    ContentLengthFrom(h, 0)
  }

  /** At position `i` stands the field name in any case, then white space, if any, then the
      digits from `d` to `e`, at least one and all there are. */
  ghost predicate FieldReads(h: Bytes, i: nat, d: nat, e: nat) {
    && FieldAt(h, i) && i + |FIELD| <= d < e <= |h|
    && (forall k :: i + |FIELD| <= k < d ==> IsBlank(h[k]))
    && (forall k :: d <= k < e ==> IsDigit(h[k])) && (e < |h| ==> !IsDigit(h[e]))
  }

  ghost predicate AnnouncesAt(h: Bytes, i: nat, n: nat) {
    exists d: nat, e: nat :: FieldReads(h, i, d, e) && n == Decimal(h[d..e])
  }

  lemma {:induction false} SkipSpacesIs(h: Bytes, i: nat, d: nat)
    requires i <= d < |h| && (forall k :: i <= k < d ==> IsBlank(h[k])) && !IsBlank(h[d])
    ensures SkipSpaces(h, i) == d
    decreases d - i
  {
    if i < d { SkipSpacesIs(h, i + 1, d); }
  }

  lemma {:induction false} SkipDigitsIs(h: Bytes, i: nat, e: nat)
    requires i <= e <= |h| && (forall k :: i <= k < e ==> IsDigit(h[k])) && (e < |h| ==> !IsDigit(h[e]))
    ensures SkipDigits(h, i) == e
    decreases e - i
  {
    if i < e { SkipDigitsIs(h, i + 1, e); }
  }

  lemma {:induction false} SkippedSpaces(h: Bytes, i: nat)
    requires i <= |h|
    ensures forall k :: i <= k < SkipSpaces(h, i) ==> IsBlank(h[k])
    decreases |h| - i
  {
    if i < |h| && IsBlank(h[i]) { SkippedSpaces(h, i + 1); }
  }

  lemma {:induction false} SkippedDigits(h: Bytes, i: nat)
    requires i <= |h|
    ensures var e := SkipDigits(h, i); e < |h| ==> !IsDigit(h[e])
    decreases |h| - i
  {
    if i < |h| && IsDigit(h[i]) { SkippedDigits(h, i + 1); }
  }

  lemma LengthIsAnnounced(h: Bytes, i: nat, n: nat)
    requires i <= |h|
    ensures LengthAt(h, i) == Some(n) <==> AnnouncesAt(h, i, n)
  {
    hide FieldAt, Decimal, SkipSpaces, SkipDigits;
    if LengthAt(h, i) == Some(n) {
      var d := SkipSpaces(h, i + |FIELD|);
      SkippedSpaces(h, i + |FIELD|);
      SkippedDigits(h, d);
      assert FieldReads(h, i, d, SkipDigits(h, d));
    }
    if AnnouncesAt(h, i, n) {
      var d: nat, e: nat :| FieldReads(h, i, d, e) && n == Decimal(h[d..e]);
      assert IsDigit(h[d]);
      SkipSpacesIs(h, i + |FIELD|, d);
      SkipDigitsIs(h, d, e);
    }
  }

  /** The length is announced at `i` and nowhere before. */
  ghost predicate FirstAnnounced(h: Bytes, i: nat, n: nat) {
    AnnouncesAt(h, i, n) && forall j: nat, m: nat :: j < i ==> !AnnouncesAt(h, j, m)
  }

  ghost predicate Announced(h: Bytes, length: Option<nat>) {
    match length
    case None => forall i: nat, n: nat :: !AnnouncesAt(h, i, n)
    case Some(n) => exists i: nat :: FirstAnnounced(h, i, n)
  }

  lemma {:induction false} SearchAnnounces(h: Bytes, i: nat)
    requires i <= |h| && forall j: nat, m: nat :: j < i ==> !AnnouncesAt(h, j, m)
    ensures Announced(h, ContentLengthFrom(h, i))
    decreases |h| - i
  {
    hide LengthAt, AnnouncesAt;
    forall n: nat ensures LengthAt(h, i) == Some(n) <==> AnnouncesAt(h, i, n) {
      LengthIsAnnounced(h, i, n);
    }
    if LengthAt(h, i).Some? {
      assert FirstAnnounced(h, i, LengthAt(h, i).value);
    } else if i < |h| {
      SearchAnnounces(h, i + 1);
    } else {
      forall j: nat, n: nat ensures !AnnouncesAt(h, j, n) {
        AnnouncedInside(h, j, n);
      }
    }
  }

  lemma AnnouncedInside(h: Bytes, j: nat, n: nat)
    ensures AnnouncesAt(h, j, n) ==> j < |h|
  {
    if AnnouncesAt(h, j, n) {
      var d: nat, e: nat :| FieldReads(h, j, d, e) && n == Decimal(h[d..e]);
    }
  }

  /** The length found in a header is the first one announced in it, and none exactly when
      none is announced. */
  lemma LengthFoundExactlyWhen(h: Bytes)
    ensures Announced(h, ContentLength(h))
  {
    SearchAnnounces(h, 0);
  }

  // ---- draining the buffer ----------------------------------------------------------

  /** What the inner loop does with a buffer: the parts it completes and the rest it keeps. */
  datatype Drained = Drained(jpegs: seq<Bytes>, rest: Bytes)

  lemma {:induction false} FindSound(buf: Bytes, what: Bytes, i: nat)
    requires i <= |buf|
    ensures var h := FindFrom(buf, what, i);
      && (h >= 0 ==> i <= h && OccursAt(buf, what, h))
      && -1 <= h <= |buf|
      && forall k :: i <= k < (if h < 0 then |buf| + 1 else h) ==> !OccursAt(buf, what, k)
    decreases |buf| - i
  {
    if i < |buf| { FindSound(buf, what, i + 1); }
  }

  /** One pass of the inner loop: wait for more bytes, drop a header that announces nothing,
      or deliver a part. */
  datatype Next = Wait | Drop(rest: Bytes) | Deliver(jpeg: Bytes, rest: Bytes)

  function NextPart(buf: Bytes): (r: Next)
    ensures r.Drop? ==> |r.rest| < |buf|
    ensures r.Deliver? ==> |r.rest| < |buf|
  {
    FindSound(buf, BLANK, 0);
    var h := FindFrom(buf, BLANK, 0);
    if h < 0 then Wait
    else match ContentLength(buf[..h])
      case None => Drop(buf[h + 4..])
      case Some(n) => if |buf| < h + 4 + n then Wait else Deliver(buf[h + 4..h + 4 + n], buf[h + 4 + n..])
  }

  function Drain(buf: Bytes): Drained
    decreases |buf|
  {
    match NextPart(buf)
    case Wait => Drained([], buf)
    case Drop(rest) => Drain(rest)
    case Deliver(jpeg, rest) => var more := Drain(rest); more.(jpegs := [jpeg] + more.jpegs)
  }

  ghost function Concat(chunks: seq<Bytes>, n: nat): Bytes
    requires n <= |chunks|
  {
    if n == 0 then [] else Concat(chunks, n - 1) + chunks[n - 1]
  }

  /** The outer loop: take a chunk, add it to the buffer, drain the buffer. */
  method SampleCockpit(chunks: seq<Bytes>) returns (jpegs: seq<Bytes>, buf: Bytes)
    ensures Drained(jpegs, buf) == Drain(Concat(chunks, |chunks|))
  {
    buf, jpegs := [], [];
    for i := 0 to |chunks|
      invariant Drained(jpegs, buf) == Drain(Concat(chunks, i))
    {
      DrainResumes(Concat(chunks, i), chunks[i]);
      hide Drain;
      jpegs, buf := DrainBuffer(jpegs, buf + chunks[i]);
    }
  }

  /** The inner loop; it ends because every pass that goes on shortens the buffer. */
  method DrainBuffer(before: seq<Bytes>, received: Bytes) returns (jpegs: seq<Bytes>, buf: Bytes)
    ensures jpegs == before + Drain(received).jpegs && buf == Drain(received).rest
  {
    jpegs, buf := before, received;
    while true
      invariant jpegs + Drain(buf).jpegs == before + Drain(received).jpegs
      invariant Drain(buf).rest == Drain(received).rest
      decreases |buf|
    {
      var next := TakeNext(buf);
      hide NextPart;
      match next {
        case Wait => return;
        case Drop(rest) => buf := rest;
        case Deliver(jpeg, rest) =>
          ghost var more := Drain(rest).jpegs;
          assert jpegs + ([jpeg] + more) == jpegs + [jpeg] + more;
          jpegs, buf := jpegs + [jpeg], rest;
      }
    }
  }

  /** One pass of the inner loop. */
  method TakeNext(buf: Bytes) returns (next: Next)
    ensures next == NextPart(buf)
  {
    hide FindFrom, ContentLength;
    FindSound(buf, BLANK, 0);
    var h := FindFrom(buf, BLANK, 0);
    if h < 0 {
      return Wait;
    }
    var m := ContentLength(buf[..h]);
    if m.None? {
      return Drop(buf[h + 4..]);
    }
    var start, end := h + 4, h + 4 + m.value;
    if |buf| < end {
      return Wait;
    }
    next := Deliver(buf[start..end], buf[end..]);
  }

  // ---- chunking does not matter -----------------------------------------------------

  /** More bytes at the end do not move the first blank line. */
  lemma FindStable(a: Bytes, b: Bytes)
    requires FindFrom(a, BLANK, 0) >= 0
    ensures FindFrom(a + b, BLANK, 0) == FindFrom(a, BLANK, 0)
  {
    FindSound(a, BLANK, 0);
    FindSound(a + b, BLANK, 0);
    var h, g := FindFrom(a, BLANK, 0), FindFrom(a + b, BLANK, 0);
    assert (a + b)[h..h + 4] == a[h..h + 4];
    assert OccursAt(a + b, BLANK, h);
    assert 0 <= g <= h;
    assert (a + b)[g..g + 4] == a[g..g + 4];
    assert OccursAt(a, BLANK, g);
  }

  ghost function Resume(first: Drained, b: Bytes): Drained {
    var more := Drain(first.rest + b);
    more.(jpegs := first.jpegs + more.jpegs)
  }

  lemma NextStable(a: Bytes, b: Bytes)
    ensures NextPart(a).Drop? ==> NextPart(a + b) == Drop(NextPart(a).rest + b)
    ensures NextPart(a).Deliver? ==> NextPart(a + b) == Deliver(NextPart(a).jpeg, NextPart(a).rest + b)
  {
    hide FindFrom, ContentLength;
    FindSound(a, BLANK, 0);
    var h := FindFrom(a, BLANK, 0);
    if h >= 0 {
      FindStable(a, b);
      assert (a + b)[..h] == a[..h] && (a + b)[h + 4..] == a[h + 4..] + b;
      if ContentLength(a[..h]).Some? {
        var e := h + 4 + ContentLength(a[..h]).value;
        if e <= |a| {
          assert (a + b)[h + 4..e] == a[h + 4..e] && (a + b)[e..] == a[e..] + b;
        }
      }
    }
  }

  /** Draining what is there, adding more and draining again is draining it all at once. */
  lemma {:induction false} DrainResumes(a: Bytes, b: Bytes)
    ensures Drain(a + b) == Resume(Drain(a), b)
    decreases |a|
  {
    hide NextPart;
    NextStable(a, b);
    match NextPart(a)
    case Wait => assert [] + Drain(a + b).jpegs == Drain(a + b).jpegs;
    case Drop(rest) => DrainResumes(rest, b);
    case Deliver(jpeg, rest) =>
      DrainResumes(rest, b);
      var first, more := Drain(rest).jpegs, Drain(Drain(rest).rest + b).jpegs;
      assert [jpeg] + (first + more) == [jpeg] + first + more;
  }

  /** Two ways to cut the same stream into chunks give the same pictures and the same rest. */
  lemma ChunkingIrrelevant(chunks: seq<Bytes>, chunks': seq<Bytes>)
    requires Concat(chunks, |chunks|) == Concat(chunks', |chunks'|)
    ensures Received(chunks, |chunks|) == Received(chunks', |chunks'|)
  {
    ReceivedIsDrain(chunks, |chunks|);
    ReceivedIsDrain(chunks', |chunks'|);
  }

  /** Chunk by chunk, draining after each. */
  ghost function Received(chunks: seq<Bytes>, n: nat): Drained
    requires n <= |chunks|
  {
    if n == 0 then Drained([], []) else Resume(Received(chunks, n - 1), chunks[n - 1])
  }

  lemma {:induction false} ReceivedIsDrain(chunks: seq<Bytes>, n: nat)
    requires n <= |chunks|
    ensures Received(chunks, n) == Drain(Concat(chunks, n))
  {
    if n > 0 {
      ReceivedIsDrain(chunks, n - 1);
      DrainResumes(Concat(chunks, n - 1), chunks[n - 1]);
    }
  }

  // ---- printed parts come back ------------------------------------------------------

  /** A header that announces `n` bytes and contains no blank line, not even together with
      the one that ends it. */
  ghost predicate Announces(header: Bytes, n: nat) {
    && ContentLength(header) == Some(n)
    && forall k :: 0 <= k < |header| ==> !OccursAt(header + BLANK, BLANK, k)
  }

  datatype Part = Part(header: Bytes, body: Bytes)

  ghost function PrintParts(parts: seq<Part>): Bytes {
    if parts == [] then [] else parts[0].header + BLANK + parts[0].body + PrintParts(parts[1..])
  }

  ghost function Bodies(parts: seq<Part>): (r: seq<Bytes>)
    ensures |r| == |parts|
  {
    seq(|parts|, i requires 0 <= i < |parts| => parts[i].body)
  }

  /** A header that announces nothing is dropped, and the part after it is not lost. */
  lemma JunkIsDropped(header: Bytes, more: Bytes)
    requires ContentLength(header).None?
    requires forall k :: 0 <= k < |header| ==> !OccursAt(header + BLANK, BLANK, k)
    ensures Drain(header + BLANK + more) == Drain(more)
  {
    hide ContentLength;
    var buf := header + BLANK + more;
    HeaderEndsFirst(header, more);
    assert buf[..|header|] == header && buf[|header| + 4..] == more;
    FindSound(buf, BLANK, 0);
    assert NextPart(buf) == Drop(more);
  }

  lemma HeaderEndsFirst(header: Bytes, more: Bytes)
    requires forall k :: 0 <= k < |header| ==> !OccursAt(header + BLANK, BLANK, k)
    ensures FindFrom(header + BLANK + more, BLANK, 0) == |header|
  {
    var start, h := header + BLANK, |header|;
    FindSound(start, BLANK, 0);
    assert start[h..h + 4] == BLANK;
    assert OccursAt(start, BLANK, h);
    FindStable(start, more);
  }

  lemma PartIsNext(p: Part, more: Bytes)
    requires Announces(p.header, |p.body|)
    ensures NextPart(p.header + BLANK + p.body + more) == Deliver(p.body, more)
  {
    hide ContentLength, NextPart;
    var buf, h, n := p.header + BLANK + p.body + more, |p.header|, |p.body|;
    HeaderEndsFirst(p.header, p.body + more);
    assert buf == p.header + BLANK + (p.body + more);
    assert buf[..h] == p.header && buf[h + 4..h + 4 + n] == p.body && buf[h + 4 + n..] == more;
    PartAt(buf, h, p.body, more);
  }

  lemma PartAt(buf: Bytes, h: nat, body: Bytes, more: Bytes)
    requires FindFrom(buf, BLANK, 0) == h && h + 4 + |body| <= |buf|
    requires ContentLength(buf[..h]) == Some(|body|)
    requires buf[h + 4..h + 4 + |body|] == body && buf[h + 4 + |body|..] == more
    ensures NextPart(buf) == Deliver(body, more)
  {
    hide FindFrom, ContentLength;
  }

  /** Whatever the bodies contain, blank lines included, a stream of parts gives back exactly
      the bodies, and what follows the last part stays in the buffer to be drained next. */
  lemma {:induction false} PartsComeBack(parts: seq<Part>, tail: Bytes)
    requires forall i :: 0 <= i < |parts| ==> Announces(parts[i].header, |parts[i].body|)
    ensures Drain(PrintParts(parts) + tail) == Drained(Bodies(parts) + Drain(tail).jpegs, Drain(tail).rest)
  {
    hide NextPart, Announces;
    if parts == [] {
      assert PrintParts(parts) + tail == tail;
      assert Bodies(parts) + Drain(tail).jpegs == Drain(tail).jpegs;
    } else {
      var p, more := parts[0], PrintParts(parts[1..]) + tail;
      PartIsNext(p, more);
      assert PrintParts(parts) + tail == p.header + BLANK + p.body + more;
      PartsComeBack(parts[1..], tail);
      assert Bodies(parts) + Drain(tail).jpegs == [p.body] + (Bodies(parts[1..]) + Drain(tail).jpegs);
    }
  }

  // ---- the headers the cockpit prints -----------------------------------------------

  function Digits(n: nat): (r: Bytes)
    ensures |r| >= 1 && forall k :: 0 <= k < |r| ==> IsDigit(r[k])
  {
    (if n < 10 then [] else Digits(n / 10)) + [(n % 10) as char + '0']
  }

  lemma {:induction false} DecimalOfDigits(n: nat)
    ensures Decimal(Digits(n)) == n
  {
    var r := Digits(n);
    assert r[|r| - 1] as int - '0' as int == n % 10;
    if n >= 10 {
      assert r[..|r| - 1] == Digits(n / 10);
      DecimalOfDigits(n / 10);
    } else {
      assert r[..|r| - 1] == [];
    }
  }

  const PREAMBLE: Bytes := "--frame\r\nContent-Type: image/jpeg\r\n"
  const LABEL: Bytes := "Content-Length: "

  /** `before` is the line end that closed the previous part, empty for the first one. */
  function CockpitHeader(before: Bytes, n: nat): Bytes {
    before + PREAMBLE + LABEL + Digits(n)
  }

  ghost predicate LineEnd(before: Bytes) {
    before == [] || before == "\r\n"
  }

  lemma PreambleLetters(j: nat)
    requires j < |PREAMBLE|
    ensures |PREAMBLE| == 35
    ensures j != 9 ==> LowerCase(PREAMBLE[j]) != 'c'
    ensures PREAMBLE[17] == 'T'
    ensures PREAMBLE[j] == '\r' ==> j == 7 || j == 33
    ensures PREAMBLE[0] == '-' && PREAMBLE[9] == 'C'
  {
  }

  lemma LabelLetters(j: nat)
    requires j < |LABEL|
    ensures |LABEL| == 16 && LABEL[0] == 'C' && LABEL[15] == ' ' && LABEL[j] != '\r'
    ensures |FIELD| == 15 && (j < 15 ==> LowerCase(LABEL[j]) == FIELD[j])
    ensures FIELD[0] == 'c' && FIELD[8] == 'l'
  {
  }

  lemma HeaderLetters(before: Bytes, n: nat, i: nat)
    requires i < |CockpitHeader(before, n)|
    ensures |PREAMBLE| == 35 && |LABEL| == 16
    ensures var h, j := CockpitHeader(before, n), i - |before|;
      h[i] == if j < 0 then before[i]
              else if j < 35 then PREAMBLE[j]
              else if j < 51 then LABEL[j - 35]
              else Digits(n)[j - 51]
  {
  }

  /** No position before the label starts the field name. */
  lemma NoFieldBefore(before: Bytes, n: nat, i: nat)
    requires LineEnd(before) && i < |before| + 35
    ensures |CockpitHeader(before, n)| >= |before| + 51
    ensures !FieldAt(CockpitHeader(before, n), i)
  {
    var h, j := CockpitHeader(before, n), i - |before|;
    LabelLetters(0);
    HeaderLetters(before, n, i);
    HeaderLetters(before, n, i + 8);
    if j >= 0 {
      PreambleLetters(j);
      if j == 9 {
        assert LowerCase(h[i + 8]) != FIELD[8];
      } else {
        assert LowerCase(h[i + 0]) != FIELD[0];
      }
    } else {
      assert LowerCase(h[i + 0]) != FIELD[0];
    }
  }

  lemma {:induction false} SearchSkips(h: Bytes, i: nat, j: nat)
    requires i <= j <= |h| && forall k :: i <= k < j ==> !FieldAt(h, k)
    ensures ContentLengthFrom(h, i) == ContentLengthFrom(h, j)
    decreases j - i
  {
    hide FieldAt;
    if i < j { SearchSkips(h, i + 1, j); }
  }

  lemma LabelIsField(before: Bytes, n: nat)
    ensures |CockpitHeader(before, n)| >= |before| + 51 && FieldAt(CockpitHeader(before, n), |before| + 35)
    ensures |FIELD| == 15 && CockpitHeader(before, n)[|before| + 50] == ' '
  {
    var h, p := CockpitHeader(before, n), |before| + 35;
    LabelLetters(0);
    assert |PREAMBLE| == 35;
    forall k | 0 <= k < |FIELD| ensures LowerCase(h[p + k]) == FIELD[k] {
      LabelLetters(k);
      HeaderLetters(before, n, p + k);
    }
    HeaderLetters(before, n, p + 15);
  }

  /** A field, one space and digits to the end of the header. */
  lemma FieldAndDigits(h: Bytes, p: nat, digits: Bytes)
    requires p + 16 <= |h| && FieldAt(h, p) && |FIELD| == 15 && h[p + 15] == ' '
    requires h[p + 16..] == digits && digits != [] && forall k :: 0 <= k < |digits| ==> IsDigit(digits[k])
    ensures LengthAt(h, p) == Some(Decimal(digits))
  {
    hide FieldAt, Decimal;
    assert forall k :: p + 16 <= k < |h| ==> h[k] == digits[k - p - 16];
    assert SkipSpaces(h, p + 16) == p + 16;
    assert SkipSpaces(h, p + 15) == p + 16;
    SkipDigitsIs(h, p + 16, |h|);
    assert h[p + 16..|h|] == digits;
  }

  lemma HeaderTail(before: Bytes, n: nat)
    ensures |CockpitHeader(before, n)| >= |before| + 51 && CockpitHeader(before, n)[|before| + 51..] == Digits(n)
  {
    assert |PREAMBLE| == 35 && |LABEL| == 16;
    var front := before + PREAMBLE + LABEL;
    assert |front| == |before| + 51 && CockpitHeader(before, n) == front + Digits(n);
  }

  lemma HeaderAnnouncesLength(before: Bytes, n: nat)
    requires LineEnd(before)
    ensures ContentLength(CockpitHeader(before, n)) == Some(n)
  {
    var h, p := CockpitHeader(before, n), |before| + 35;
    hide CockpitHeader, FieldAt, LengthAt, Digits, Decimal, LineEnd;
    LabelIsField(before, n);
    HeaderTail(before, n);
    FieldAndDigits(h, p, Digits(n));
    DecimalOfDigits(n);
    forall k | 0 <= k < p ensures !FieldAt(h, k) {
      NoFieldBefore(before, n, k);
    }
    SearchSkips(h, 0, p);
  }

  lemma HeaderHasNoBlankLine(before: Bytes, n: nat, k: nat)
    requires LineEnd(before) && k < |CockpitHeader(before, n)|
    ensures !OccursAt(CockpitHeader(before, n) + BLANK, BLANK, k)
  {
    var h := CockpitHeader(before, n);
    var buf, j := h + BLANK, k - |before|;
    HeaderLetters(before, n, k);
    LabelLetters(0);
    PreambleLetters(0);
    if OccursAt(buf, BLANK, k) {
      assert buf[k..k + 4][0] == '\r' && buf[k..k + 4][1] == '\n' && buf[k..k + 4][2] == '\r';
      assert buf[k] == h[k] && h[k] == '\r' && buf[k + 1] == '\n' && buf[k + 2] == '\r';
      if 0 <= j < 35 { PreambleLetters(j); }
      if 35 <= j < 51 { LabelLetters(j - 35); }
      assert j < 0 || j == 7 || j == 33;
      HeaderLetters(before, n, k + 2);
    }
  }

  /** Every header the cockpit prints announces its body, at the start of the stream and
      after the line end that closes an earlier part, so the parts come back. */
  lemma CockpitHeaderAnnounces(before: Bytes, n: nat)
    requires LineEnd(before)
    ensures Announces(CockpitHeader(before, n), n)
  {
    HeaderAnnouncesLength(before, n);
    forall k | 0 <= k < |CockpitHeader(before, n)|
      ensures !OccursAt(CockpitHeader(before, n) + BLANK, BLANK, k)
    {
      HeaderHasNoBlankLine(before, n, k);
    }
  }

  /** The bytes the cockpit sends for its frames: each part ends with a line end. */
  ghost function CockpitStream(frames: seq<Bytes>): Bytes
    decreases |frames|
  {
    if frames == [] then []
    else CockpitHeader([], |frames[0]|) + BLANK + frames[0] + "\r\n" + CockpitStream(frames[1..])
  }

  ghost function CockpitParts(before: Bytes, frames: seq<Bytes>): (r: seq<Part>)
    ensures |r| == |frames| && forall i :: 0 <= i < |r| ==> r[i].body == frames[i]
    decreases |frames|
  {
    if frames == [] then []
    else [Part(CockpitHeader(before, |frames[0]|), frames[0])] + CockpitParts("\r\n", frames[1..])
  }

  lemma {:induction false} StreamIsParts(before: Bytes, frames: seq<Bytes>)
    requires LineEnd(before)
    ensures before + CockpitStream(frames)
            == PrintParts(CockpitParts(before, frames)) + if frames == [] then before else "\r\n"
    ensures forall i :: 0 <= i < |frames| ==>
              Announces(CockpitParts(before, frames)[i].header, |CockpitParts(before, frames)[i].body|)
    decreases |frames|
  {
    if frames != [] {
      hide Announces, CockpitHeader;
      StreamIsParts("\r\n", frames[1..]);
      CockpitHeaderAnnounces(before, |frames[0]|);
      FirstPart(before, frames);
      LineEndMoves(before, frames);
    }
  }

  lemma FirstPart(before: Bytes, frames: seq<Bytes>)
    requires frames != []
    ensures var rest := CockpitParts("\r\n", frames[1..]);
      && CockpitParts(before, frames)[0] == Part(CockpitHeader(before, |frames[0]|), frames[0])
      && CockpitParts(before, frames)[1..] == rest
      && PrintParts(CockpitParts(before, frames))
         == CockpitHeader(before, |frames[0]|) + BLANK + frames[0] + PrintParts(rest)
  {
    hide CockpitHeader;
    var parts, rest := CockpitParts(before, frames), CockpitParts("\r\n", frames[1..]);
    assert parts == [Part(CockpitHeader(before, |frames[0]|), frames[0])] + rest;
    assert parts[1..] == rest;
  }

  /** The line end after a body counts as the start of the next header. */
  lemma LineEndMoves(before: Bytes, frames: seq<Bytes>)
    requires frames != []
    ensures before + CockpitStream(frames)
            == CockpitHeader(before, |frames[0]|) + BLANK + frames[0] + ("\r\n" + CockpitStream(frames[1..]))
  {
    hide CockpitHeader;
    var f := frames[0];
    HeaderFrom(before, |f|);
    MoveBracket(before, CockpitHeader([], |f|), BLANK, f, "\r\n", CockpitStream(frames[1..]));
  }

  lemma HeaderFrom(before: Bytes, n: nat)
    ensures CockpitHeader(before, n) == before + CockpitHeader([], n)
  {
    hide Digits;
    assert [] + PREAMBLE == PREAMBLE;
    assert before + PREAMBLE + LABEL + Digits(n) == before + (PREAMBLE + LABEL + Digits(n));
  }

  lemma MoveBracket(a: Bytes, b: Bytes, c: Bytes, d: Bytes, e: Bytes, f: Bytes)
    ensures a + (b + c + d + e + f) == a + b + c + d + (e + f)
  {
  }

  /** The stream the cockpit sends, cut into chunks in any way, gives back exactly its frames. */
  lemma CockpitFramesComeBack(frames: seq<Bytes>, chunks: seq<Bytes>)
    ensures Concat(chunks, |chunks|) == CockpitStream(frames) ==> Received(chunks, |chunks|).jpegs == frames
  {
    WholeStreamComesBack(frames);
    ReceivedIsDrain(chunks, |chunks|);
  }

  lemma WholeStreamComesBack(frames: seq<Bytes>)
    ensures Drain(CockpitStream(frames)).jpegs == frames
  {
    var parts := CockpitParts([], frames);
    StreamIsParts([], frames);
    var tail := if frames == [] then [] else "\r\n";
    assert [] + CockpitStream(frames) == CockpitStream(frames);
    PartsComeBack(parts, tail);
    FindSound(tail, BLANK, 0);
    assert Drain(tail).jpegs == [];
    assert Bodies(parts) + [] == frames;
  }

  /** The sampler stops when its time is up, so it may see the stream cut anywhere: what it
      delivers are the first frames sent, and among them every frame that arrived in full. */
  lemma CutStreamGivesFirstFrames(frames: seq<Bytes>, received: Bytes)
    requires received <= CockpitStream(frames)
    ensures Drain(received).jpegs <= frames
    ensures forall m :: 0 <= m <= |frames| && CockpitStream(frames[..m]) <= received ==> m <= |Drain(received).jpegs|
  {
    hide Drain, CockpitStream;
    WholeStreamComesBack(frames);
    MoreArrives(received, CockpitStream(frames));
    forall m | 0 <= m <= |frames| && CockpitStream(frames[..m]) <= received ensures m <= |Drain(received).jpegs| {
      WholeStreamComesBack(frames[..m]);
      MoreArrives(CockpitStream(frames[..m]), received);
    }
  }

  /** What is delivered stays delivered as more arrives. */
  lemma MoreArrives(a: Bytes, whole: Bytes)
    requires a <= whole
    ensures Drain(a).jpegs <= Drain(whole).jpegs
  {
    hide Drain;
    assert a + whole[|a|..] == whole;
    DrainResumes(a, whole[|a|..]);
  }
}
