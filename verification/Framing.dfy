/** How the length the parser derives compares with the caller's search for the end of the head, and
    what header lines of a closed head come to. */
module Framing {
  import opened Basics
  import opened Splitting
  import opened Trimming
  import opened VStrings
  import opened HttpSpec
  import opened HttpRequests

  // ---- two framings ----

  /** The caller's scan and the parser's `Length` put the end of the head at the same place. */
  predicate FramingsAgree(b: Text, n: nat)
    requires n <= |b|
  {
    FindIn(b, n, CRLFCRLF, 0) == HeadOf(b[..n]).len + 4
  }

  predicate Repeated(t: Text, sep: Text)
    requires sep != []
    decreases |t|
  {
    t == [] || (sep <= t && Repeated(t[|sep|..], sep))
  }

  /** They agree exactly when there is a CRLFCRLF and the first one ends an odd run of CRs; if it opens the
      text, exactly when the text is nothing but CRLFCRLFs. */
  lemma FramingsAgreeIff(b: Text, n: nat)
    requires n <= |b|
    ensures FramingsAgree(b, n) <==>
      match FirstAt(b[..n], CRLFCRLF, 0)
      case None => false
      case Some(p) => if p == 0 then Repeated(b[..n], CRLFCRLF) else CrRun(b[..n], p + 1) % 2 == 1
  {
    var t := b[..n];
    FindInExact(b, n, CRLFCRLF, 0);
    match FirstAt(t, CRLFCRLF, 0)
    case None => NoFraming(b, n);
    case Some(p) =>
      if p == 0 {
        EmptyHeadIff(t);
      } else {
        LaterFraming(b, n, p);
      }
  }

  lemma {:induction false} FindInBound(buffer: Text, n: nat, sub: Text, from: nat)
    requires sub != []
    ensures FindIn(buffer, n, sub, from) < n + |sub|
    decreases n - from
  {
    if from < n {
      FindInBound(buffer, n, sub, from + 1);
    }
  }

  lemma NoFraming(b: Text, n: nat)
    requires n <= |b| && FirstAt(b[..n], CRLFCRLF, 0).None?
    ensures !FramingsAgree(b, n)
  {
    FindInBound(b, n, CRLFCRLF, 0);
    NothingToHit(b[..n], CRLFCRLF, 0);
    FirstPiece(b[..n], CRLFCRLF, 2);
  }

  /** A first CRLFCRLF that does not open the text. */
  lemma LaterFraming(b: Text, n: nat, p: nat)
    requires n <= |b| && 0 < p && FirstAt(b[..n], CRLFCRLF, 0) == Some(p)
    ensures FramingsAgree(b, n) <==> CrRun(b[..n], p + 1) % 2 == 1
    ensures CrRun(b[..n], p + 1) % 2 == 1 ==> HeadOf(b[..n]) == Range(0, p)
  {
    var t := b[..n];
    FindInExact(b, n, CRLFCRLF, 0);
    AtFirstOccurrence(t, CRLFCRLF, 0, p);
    HitsGenuine(t, CRLFCRLF, 0, 0, 0);
    GenuineIsSpaced(t, CRLFCRLF, Hits(t, CRLFCRLF, 0, 0), 0);
    FirstPiece(t, CRLFCRLF, 2);
  }

  /** Each recognised separator starts where the one before it ends, and the last ends the text. */
  predicate Adjacent(hits: seq<nat>, m: nat, start: nat, end: nat)
    decreases hits
  {
    if hits == [] then start == end else hits[0] == start + m && Adjacent(hits[1..], m, hits[0], end)
  }

  lemma {:induction false} EmptyFirstPiece(hits: seq<nat>, m: nat, start: nat, end: nat, room: nat)
    requires Spaced(hits, m, start, end) && 0 < room
    ensures Pieces(hits, m, start, end, room) != []
    ensures Pieces(hits, m, start, end, room)[0].len == 0 <==> Adjacent(hits, m, start, end)
    decreases hits
  {
    if hits != [] && hits[0] == start + m {
      EmptyFirstPiece(hits[1..], m, hits[0], end, room);
    }
  }

  lemma {:induction false} RepeatedIff(t: Text, sep: Text, at: nat)
    requires sep != [] && at <= |t|
    ensures Repeated(t[at..], sep) <==> Adjacent(Hits(t, sep, at, 0), |sep|, at, |t|)
    decreases |t| - at
  {
    var hits, next := Hits(t, sep, at, 0), at + |sep|;
    HitsGenuine(t, sep, at, 0, at);
    if Occurs(t, sep, at) {
      RunThrough(t, sep, at, |sep| - 1);
      assert hits[1..] == Hits(t, sep, next, 0);
      assert t[at..][..|sep|] == sep && t[at..][|sep|..] == t[next..];
      RepeatedIff(t, sep, next);
    } else if at < |t| {
      assert next <= |t| ==> t[at..][..|sep|] == t[at..next];
    }
  }

  /** The head is empty exactly when the text is nothing but CRLFCRLFs. */
  lemma EmptyHeadIff(t: Text)
    ensures HeadOf(t).len == 0 <==> Repeated(t, CRLFCRLF)
  {
    HitsGenuine(t, CRLFCRLF, 0, 0, 0);
    GenuineIsSpaced(t, CRLFCRLF, Hits(t, CRLFCRLF, 0, 0), 0);
    EmptyFirstPiece(Hits(t, CRLFCRLF, 0, 0), 4, 0, |t|, 2);
    RepeatedIff(t, CRLFCRLF, 0);
    assert t[0..] == t;
  }

  /** The first piece of a split whose first recognised separator, if any, does not open the text. */
  lemma FirstPiece(t: Text, sep: Text, size: nat)
    requires sep != [] && 0 < size
    ensures var hits := Hits(t, sep, 0, 0);
      Split(t, sep, size) != [] &&
      (hits == [] ==> Split(t, sep, size)[0] == Range(0, |t|)) &&
      (hits != [] && |sep| < hits[0] ==> Split(t, sep, size)[0] == Range(0, hits[0] - |sep|))
  {
    HitsGenuine(t, sep, 0, 0, 0);
    GenuineIsSpaced(t, sep, Hits(t, sep, 0, 0), 0);
    PiecesInOrder(Hits(t, sep, 0, 0), |sep|, 0, |t|, size);
  }

  /** Two CRs before the LF defeat the parser's matcher but not the caller's scan. */
  lemma FramingsDisagree()
    ensures var t := [65, CR] + CRLFCRLF;
      FindIn(t + [0, 0, 0], |t|, CRLFCRLF, 0) == 6 && HeadOf((t + [0, 0, 0])[..|t|]).len + 4 == 10
  {
    var t: Text := [65, CR] + CRLFCRLF;
    var b: Text := t + [0, 0, 0];
    assert b[..|t|] == t;
    assert t[2..6] == CRLFCRLF;
    assert t[0..4] != CRLFCRLF && t[1..5] != CRLFCRLF by {
      assert t[0..4][0] == 65 && t[1..5][1] == CR;
    }
    assert !Occurs(t, CRLFCRLF, 0) && !Occurs(t, CRLFCRLF, 1) && Occurs(t, CRLFCRLF, 2);
    assert FirstAt(t, CRLFCRLF, 2) == Some(2);
    assert FirstAt(t, CRLFCRLF, 1) == Some(2);
    assert FirstAt(t, CRLFCRLF, 0) == Some(2);
    assert CrRun(t, 1) == 0 && CrRun(t, 2) == 1 && CrRun(t, 3) == 2;
    LaterFraming(b, |t|, 2);
    AtFirstOccurrence(t, CRLFCRLF, 0, 2);
    HitsGenuine(t, CRLFCRLF, 0, 0, 0);
    FirstPiece(t, CRLFCRLF, 2);
  }

  // ---- closed heads ----

  /** The matcher found the end of the head. */
  predicate HeadClosed(t: Text) {
    2 <= |Split(t, CRLFCRLF, 2)|
  }

  /** In a closed head every line is followed by a CR. */
  lemma LinesEndInCr(t: Text, k: nat)
    requires HeadClosed(t) && k < |LinesOf(t)|
    ensures var line := LinesOf(t)[k]; line.start + line.len < |t| && t[line.start + line.len] == CR
  {
    var head := HeadOf(t);
    ClosedBySeparator(t, CRLFCRLF, 2, 0);
    assert t[head.start + head.len] == t[head.start + head.len..head.start + head.len + 4][0];
    var h := Slice(t, head);
    SplitInOrder(h, CRLF, 64);
    SplitEnds(h, CRLF, 64, k);
    var p := Split(h, CRLF, 64)[k];
    if Occurs(h, CRLF, p.start + p.len) {
      assert h[p.start + p.len] == h[p.start + p.len..p.start + p.len + 2][0];
    }
  }

  /** A header line as plain text: a key before the first colon, and something but whitespace after it. */
  predicate WellFormed(line: Text) {
    0 < FirstIndex(line, COLON) && !Blank(line[FirstIndex(line, COLON) + 1..])
  }

  /** What such a line means: the key as a C string, and the trimmed value with its terminator. */
  function Field(line: Text): (Key, Text)
    requires WellFormed(line)
  {
    var c := FirstIndex(line, COLON);
    (CString(line[..c]), Trimmed(line[c + 1..]) + [NUL])
  }

  lemma TrimmedBeforeSpace(s: Text, x: Byte)
    requires IsSpace(x)
    ensures Blank(s + [x]) <==> Blank(s)
    ensures !Blank(s) ==> Trimmed(s + [x]) == Trimmed(s)
  {
    var t := s + [x];
    assert forall i :: 0 <= i < |s| ==> t[i] == s[i];
    if !Blank(s) {
      TrimmedIsPadded(s);
      var a, mid, e := s[..Lead(s)], Trimmed(s), s[TrailStart(s)..];
      assert t == a + mid + (e + [x]);
      SolidMiddle(a, mid, e + [x]);
    } else {
      assert forall i :: 0 <= i < |t| ==> IsSpace(t[i]);
    }
  }

  /** The value view of a line takes in the byte after the line. */
  lemma ValueText(b: Text, line: Range)
    requires Within(line, |b|) && line.start + line.len < |b| && 0 <= Colon(b, line)
    ensures var c := Colon(b, line);
      && Slice(b, ValueView(b, line)) == Slice(b, line)[c + 1..] + [b[line.start + line.len]]
      && Slice(b, KeyView(b, line)) == Slice(b, line)[..c]
  {
    var s, c := Slice(b, line), Colon(b, line);
    var x, y := Slice(b, ValueView(b, line)), s[c + 1..] + [b[line.start + line.len]];
    forall i | 0 <= i < |x| ensures x[i] == y[i] {
      assert x[i] == b[line.start + c + 1 + i];
    }
    assert x == y;
  }

  /** A line that is followed by a CR: the CR its value view takes in is trimmed away again, and the
      writes end on it at the latest. */
  lemma ValueBeforeCr(b: Text, line: Range)
    requires Clean(b, line)
    ensures 0 < Colon(b, line) && ValueSafe(b, line)
    ensures (HeaderKey(b, line), HeaderValue(b, line) + [NUL]) == Field(Slice(b, line))
    ensures ValueView(b, line).start + |HeaderValue(b, line)| <= line.start + line.len
  {
    var rest := Slice(b, line)[Colon(b, line) + 1..];
    ValueText(b, line);
    TrimmedBeforeSpace(rest, CR);
    TrimmedFits(rest);
  }

  /** A well-formed line followed by a CR. */
  predicate Clean(b: Text, line: Range) {
    && Within(line, |b|) && line.start + line.len < |b| && b[line.start + line.len] == CR
    && WellFormed(Slice(b, line))
  }

  lemma TrimmedFits(s: Text)
    requires !Blank(s)
    ensures |Trimmed(s)| <= |s|
  {
    LeadBeforeTrail(s);
  }

  /** On a closed head with well-formed header lines, the in-place header loop is defined, succeeds and
      inserts exactly the fields of the original lines. */
  lemma {:induction false} ScanIsPure(b: Text, lines: seq<Range>)
    requires forall i :: 0 <= i < |lines| ==> Clean(b, lines[i])
    ensures HeadersSafe(b, lines) && ScanHeaders(b, lines).ok
    ensures ScanHeaders(b, lines).pairs == Fields(b, lines)
    decreases lines
  {
    if lines != [] {
      ValueBeforeCr(b, lines[0]);
      ScanIsPure(b, lines[1..]);
    }
  }

  function LineField(b: Text, line: Range): (Key, Text)
    requires Clean(b, line)
  {
    Field(Slice(b, line))
  }

  function Fields(b: Text, lines: seq<Range>): (fs: seq<(Key, Text)>)
    requires forall i :: 0 <= i < |lines| ==> Clean(b, lines[i])
    ensures |fs| == |lines|
    decreases lines
  {
    if lines == [] then [] else [LineField(b, lines[0])] + Fields(b, lines[1..])
  }

  lemma {:induction false} FieldsAt(b: Text, lines: seq<Range>, i: nat)
    requires forall i :: 0 <= i < |lines| ==> Clean(b, lines[i])
    requires i < |lines|
    ensures Fields(b, lines)[i] == LineField(b, lines[i])
    decreases lines
  {
    if i > 0 {
      FieldsAt(b, lines[1..], i - 1);
    }
  }

  /** The in-place parse refines a pure one: for a closed head with well-formed header lines, the pairs
      inserted are the fields of the original lines, whatever the buffer holds behind the text. */
  lemma ParseIsPure(b: Text, n: nat)
    requires n <= |b| && HeadClosed(b[..n])
    requires forall k :: 1 <= k < |LinesOf(b[..n])| ==> LineWellFormed(b[..n], k)
    requires LineDefined(b, LinesOf(b[..n])[0])
    ensures Defined(b, n)
    ensures var o, lines := Parsed(b, n), LinesOf(b[..n]);
      && o.line == RequestLine(b, lines[0])
      && |o.pairs| == |lines| - 1
      && forall k :: 1 <= k < |lines| ==> LineWellFormed(b[..n], k) && o.pairs[k - 1] == Field(LineText(b[..n], k))
  {
    var hs := LinesOf(b[..n])[1..];
    HeaderLinesClean(b, n);
    ScanIsPure(b, hs);
    forall k | 0 <= k < |hs| ensures Fields(b, hs)[k] == Field(LineText(b[..n], k + 1)) {
      FieldsAt(b, hs, k);
    }
  }

  /** Index `x` lies behind the colon of a line, and at the latest on the CR behind the line. */
  predicate InsideLine(b: Text, line: Range, x: nat) {
    && Within(line, |b|) && line.start + line.len < |b| && b[line.start + line.len] == CR
    && 0 <= Colon(b, line) && line.start + Colon(b, line) < x <= line.start + line.len
  }

  /** On a closed head the parse changes no byte but between the colon of a header line and its CR. */
  lemma WritesStayInLines(b: Text, n: nat, now: Text)
    requires n <= |b| && HeadClosed(b[..n])
    requires OnlyValues(b, now, LinesOf(b[..n])[1..])
    ensures forall x :: 0 <= x < |b| && now[x] != b[x] ==>
              exists k :: 1 <= k < |LinesOf(b[..n])| && InsideLine(b, LinesOf(b[..n])[k], x)
  {
    var lines := LinesOf(b[..n]);
    forall x | 0 <= x < |b| && now[x] != b[x] ensures exists k :: 1 <= k < |lines| && InsideLine(b, lines[k], x) {
      var k :| 0 <= k < |lines[1..]| && Within(lines[1..][k], |b|) && ValueByte(b, lines[1..][k], x);
      HeaderLine(b, n, k + 1);
      assert lines[1..][k] == lines[k + 1];
      assert InsideLine(b, lines[k + 1], x);
    }
  }

  lemma HeaderLinesClean(b: Text, n: nat)
    requires n <= |b| && HeadClosed(b[..n])
    requires forall k :: 1 <= k < |LinesOf(b[..n])| ==> LineWellFormed(b[..n], k)
    ensures var hs := LinesOf(b[..n])[1..];
      forall k :: 0 <= k < |hs| ==> Clean(b, hs[k]) && Slice(b, hs[k]) == LineText(b[..n], k + 1)
  {
    var hs := LinesOf(b[..n])[1..];
    forall k | 0 <= k < |hs| ensures Clean(b, hs[k]) && Slice(b, hs[k]) == LineText(b[..n], k + 1) {
      assert LineWellFormed(b[..n], k + 1);
      HeaderLine(b, n, k + 1);
    }
  }

  lemma HeaderLine(b: Text, n: nat, k: nat)
    requires n <= |b| && HeadClosed(b[..n]) && k < |LinesOf(b[..n])|
    ensures var line := LinesOf(b[..n])[k];
      && Within(line, |b|) && line.start + line.len < n && b[line.start + line.len] == CR
      && Slice(b, line) == LineText(b[..n], k)
  {
    LinesInOrder(b[..n]);
    LinesEndInCr(b[..n], k);
    var line := LinesOf(b[..n])[k];
    assert b[0..n] == b[..n];
    SliceSlice(b, 0, n, line.start, line.start + line.len);
  }

  function LineText(t: Text, k: nat): Text
    requires k < |LinesOf(t)|
  {
    LinesInOrder(t);
    Slice(t, LinesOf(t)[k])
  }

  predicate LineWellFormed(t: Text, k: nat)
    requires k < |LinesOf(t)|
  {
    WellFormed(LineText(t, k))
  }
}
