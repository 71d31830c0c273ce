/** Printing a request and parsing it in place gives the request back. */
module RoundTrip {
  import opened Basics
  import opened Splitting
  import opened Trimming
  import opened VStrings
  import opened PercentCoding
  import opened Probing
  import opened TableSpec
  import opened HashTables
  import opened HttpSpec
  import opened HttpRequests
  import opened Framing

  // ---- splitting a joined list of texts ----

  /** Where the joined texts stand, from `base` on. */
  function Places(ts: seq<Text>, m: nat, base: nat): (ps: seq<Range>)
    ensures |ps| == |ts|
  {
    if ts == [] then [] else [Range(base, |ts[0]|)] + Places(ts[1..], m, base + |ts[0]| + m)
  }

  predicate Lacks(t: Text, b: Byte) {
    forall i :: 0 <= i < |t| ==> t[i] != b
  }

  /** A stretch without the separator's first byte recognises nothing. */
  lemma {:induction false} SkipClean(t: Text, sep: Text, i: nat, j: nat)
    requires sep != [] && i <= j <= |t| && forall k :: i <= k < j ==> t[k] != sep[0]
    ensures Hits(t, sep, i, 0) == Hits(t, sep, j, 0)
    decreases j - i
  {
    if i < j {
      SkipClean(t, sep, i + 1, j);
    }
  }

  /** The text from `base` on is the joined list. */
  ghost predicate JoinedAt(t: Text, sep: Text, ts: seq<Text>, base: nat) {
    sep != [] && base <= |t| && t[base..] == Join(ts, sep)
  }

  /** The matcher at the start of a joined list of two or more texts that lack its first byte. */
  lemma FirstOfJoined(t: Text, sep: Text, ts: seq<Text>, base: nat)
    requires JoinedAt(t, sep, ts, base) && 2 <= |ts| && Lacks(ts[0], sep[0])
    ensures var next := base + |ts[0]| + |sep|;
      && next <= |t| && t[base..base + |ts[0]|] == ts[0]
      && Hits(t, sep, base, 0) == [next] + Hits(t, sep, next, 0)
      && JoinedAt(t, sep, ts[1..], next)
  {
    var p, m, rest := base + |ts[0]|, |sep|, Join(ts[1..], sep);
    var j := ts[0] + sep + rest;
    assert t[base..] == j;
    SliceSlice(t, base, |t|, 0, |ts[0]|);
    SliceSlice(t, base, |t|, |ts[0]|, |ts[0]| + m);
    SliceSlice(t, base, |t|, |ts[0]| + m, |j|);
    assert j[..|ts[0]|] == ts[0] && j[|ts[0]|..|ts[0]| + m] == sep && j[|ts[0]| + m..] == rest;
    forall k | base <= k < p ensures t[k] != sep[0] {
      assert t[k] == t[base..p][k - base];
    }
    SkipClean(t, sep, base, p);
    RunThrough(t, sep, p, m - 1);
  }

  lemma LastOfJoined(t: Text, sep: Text, ts: seq<Text>, base: nat)
    requires JoinedAt(t, sep, ts, base) && |ts| == 1 && Lacks(ts[0], sep[0])
    ensures base + |ts[0]| == |t| && t[base..|t|] == ts[0] && Hits(t, sep, base, 0) == []
  {
    forall k | base <= k < |t| ensures t[k] != sep[0] {
      assert t[k] == t[base..][k - base];
    }
    SkipClean(t, sep, base, |t|);
  }

  ghost predicate Splittable(ts: seq<Text>, sep: Text) {
    sep != [] && ts != [] && forall i :: 0 <= i < |ts| ==> ts[i] != [] && Lacks(ts[i], sep[0])
  }

  /** Splitting a joined list of non-empty texts without the separator's first byte gives the list back,
      if there is room for all but the last. */
  lemma {:induction false} JoinedPieces(t: Text, sep: Text, ts: seq<Text>, base: nat, room: nat)
    requires JoinedAt(t, sep, ts, base) && Splittable(ts, sep) && |ts| <= room + 1
    ensures Spaced(Hits(t, sep, base, 0), |sep|, base, |t|)
    ensures Pieces(Hits(t, sep, base, 0), |sep|, base, |t|, room) == Places(ts, |sep|, base)
    decreases |ts|
  {
    if |ts| == 1 {
      LastOfJoined(t, sep, ts, base);
    } else {
      FirstOfJoined(t, sep, ts, base);
      var next := base + |ts[0]| + |sep|;
      JoinedPieces(t, sep, ts[1..], next, room - 1);
      var hits := Hits(t, sep, next, 0);
      assert ([next] + hits)[1..] == hits;
    }
  }

  lemma {:induction false} PlacesHold(t: Text, sep: Text, ts: seq<Text>, base: nat, i: nat)
    requires JoinedAt(t, sep, ts, base) && Splittable(ts, sep) && i < |ts|
    ensures Within(Places(ts, |sep|, base)[i], |t|) && Slice(t, Places(ts, |sep|, base)[i]) == ts[i]
    decreases |ts|
  {
    if |ts| == 1 {
      LastOfJoined(t, sep, ts, base);
    } else {
      FirstOfJoined(t, sep, ts, base);
      if i > 0 {
        PlacesHold(t, sep, ts[1..], base + |ts[0]| + |sep|, i - 1);
      }
    }
  }

  lemma SplitJoined(ts: seq<Text>, sep: Text, size: nat)
    requires Splittable(ts, sep) && |ts| <= size + 1
    ensures var t, ps := Join(ts, sep), Places(ts, |sep|, 0);
      && Split(t, sep, size) == ps
      && forall i :: 0 <= i < |ts| ==> Within(ps[i], |t|) && Slice(t, ps[i]) == ts[i]
  {
    var t := Join(ts, sep);
    assert t[0..] == t;
    JoinedPieces(t, sep, ts, 0, size);
    forall i | 0 <= i < |ts|
      ensures Within(Places(ts, |sep|, 0)[i], |t|) && Slice(t, Places(ts, |sep|, 0)[i]) == ts[i]
    {
      PlacesHold(t, sep, ts, 0, i);
    }
  }

  // ---- the head among the bytes of the buffer ----

  /** A line without CRs brings the head matcher back to zero, whether it starts at zero or just past
      one CRLF. */
  lemma SkipLine(t: Text, i: nat, j: nat, c: nat)
    requires i < j <= |t| && (c == 0 || c == 2) && forall k :: i <= k < j ==> t[k] != CR
    ensures Hits(t, CRLFCRLF, i, c) == Hits(t, CRLFCRLF, j, 0)
  {
    SkipClean(t, CRLFCRLF, i + 1, j);
  }

  /** The head matcher passes all lines of the head and recognises the CRLFCRLF behind them. */
  lemma {:induction false} PassHead(t: Text, ts: seq<Text>, base: nat, c: nat, end: nat)
    requires ts != [] && forall i :: 0 <= i < |ts| ==> ts[i] != [] && Lacks(ts[i], CR)
    requires c == 0 || c == 2
    requires base <= end && Occurs(t, CRLFCRLF, end) && t[base..end] == Join(ts, CRLF)
    ensures Hits(t, CRLFCRLF, base, c) == [end + 4] + Hits(t, CRLFCRLF, end + 4, 0)
    decreases |ts|
  {
    var p := base + |ts[0]|;
    var j := t[base..end];
    if |ts| == 1 {
      assert forall k :: base <= k < p ==> t[k] == j[k - base] == ts[0][k - base];
      SkipLine(t, base, end, c);
      RunThrough(t, CRLFCRLF, end, 3);
    } else {
      var rest := Join(ts[1..], CRLF);
      assert j == ts[0] + CRLF + rest;
      assert forall k :: base <= k < p ==> t[k] == j[k - base] == ts[0][k - base];
      assert t[p] == j[|ts[0]|] == CR && t[p + 1] == j[|ts[0]| + 1] == LF;
      SliceSlice(t, base, end, |ts[0]| + 2, end - base);
      assert j[|ts[0]| + 2..] == rest;
      SkipLine(t, base, p, c);
      PassHead(t, ts[1..], p + 2, 2, end);
    }
  }

  /** The split of a printed head and a body without CRLFCRLF. */
  lemma HeadSplit(ts: seq<Text>, body: Text)
    requires ts != [] && forall i :: 0 <= i < |ts| ==> ts[i] != [] && Lacks(ts[i], CR)
    requires forall p: nat :: !Occurs(body, CRLFCRLF, p)
    ensures var head := Join(ts, CRLF);
      var t := head + CRLFCRLF + body;
      HeadClosed(t) && HeadOf(t) == Range(0, |head|) && Slice(t, HeadOf(t)) == head
  {
    var head := Join(ts, CRLF);
    var t, end := head + CRLFCRLF + body, |head|;
    assert t[0..end] == head && t[end..end + 4] == CRLFCRLF;
    PassHead(t, ts, 0, 0, end);
    NoHitsInBody(t, body, end + 4);
    JoinNotEmpty(ts);
    var hits := Hits(t, CRLFCRLF, 0, 0);
    assert hits[1..] == [];
    HitsGenuine(t, CRLFCRLF, 0, 0, 0);
    GenuineIsSpaced(t, CRLFCRLF, hits, 0);
    assert Pieces(hits[1..], 4, end + 4, |t|, 1) == [Range(end + 4, |body|)];
  }

  lemma JoinNotEmpty(ts: seq<Text>)
    requires ts != [] && ts[0] != []
    ensures Join(ts, CRLF) != []
  {
  }

  lemma NoHitsInBody(t: Text, body: Text, at: nat)
    requires at <= |t| && t[at..] == body && forall p: nat :: !Occurs(body, CRLFCRLF, p)
    ensures Hits(t, CRLFCRLF, at, 0) == []
  {
    HitsGenuine(t, CRLFCRLF, at, 0, at);
    var hits := Hits(t, CRLFCRLF, at, 0);
    if hits != [] {
      FirstHitOccurs(t, CRLFCRLF, hits, at);
      var p := hits[0] - 4 - at;
      SliceSlice(t, at, |t|, p, p + 4);
      assert Occurs(body, CRLFCRLF, p);
    }
  }

  // ---- the printed request ----

  /** A header field with optional whitespace around its value. */
  datatype HeaderField = HeaderField(name: Key, lead: Text, value: Text, trail: Text)

  /** The name is not empty and has no colon (58); the value has whitespace neither first nor last, and only
      whitespace around it; none of them has a CR (13). */
  ghost predicate FieldOk(f: HeaderField) {
    && f.name != [] && Lacks(f.name, 58) && Lacks(f.name, 13)
    && OnlySpaces(f.lead) && Lacks(f.lead, 13) && OnlySpaces(f.trail) && Lacks(f.trail, 13)
    && SolidEnds(f.value) && Lacks(f.value, 13)
  }

  /** A request to print: a method and its name, a URL and how it is spelt, header fields, and a body. */
  datatype Printout = Printout(verb: Method, name: string, url: Text, code: Text, fields: seq<HeaderField>, body: Text)

  ghost predicate Printable(p: Printout) {
    && HasName(p.verb, p.name)
    && p.url != [] && Spells(p.code, p.url) && Lacks(p.code, 32) && Lacks(p.code, 13)
    && |p.fields| <= 64 && (forall i :: 0 <= i < |p.fields| ==> FieldOk(p.fields[i]))
    && forall i: nat :: !Occurs(p.body, Ascii("\r\n\r\n"), i)
  }

  function PrintedFields(fs: seq<HeaderField>): Text {
    if fs == [] then []
    else Ascii("\r\n") + fs[0].name + Ascii(":") + fs[0].lead + fs[0].value + fs[0].trail + PrintedFields(fs[1..])
  }

  function PrintedHead(p: Printout): Text {
    Ascii(p.name) + Ascii(" ") + p.code + Ascii(" HTTP/1.1") + PrintedFields(p.fields)
  }

  function Printed(p: Printout): Text {
    PrintedHead(p) + Ascii("\r\n\r\n") + p.body
  }

  // ---- the same text as a list of lines ----

  function ValuePart(f: HeaderField): Text {
    f.lead + f.value + f.trail
  }

  function FieldText(f: HeaderField): Text {
    f.name + [COLON] + ValuePart(f)
  }

  function RequestLineText(m: Method, code: Text): Text {
    Join([MethodName(m), code, HTTP_1_1], [SPACE])
  }

  function FieldTexts(fs: seq<HeaderField>): (ls: seq<Text>)
    ensures |ls| == |fs| && forall i :: 0 <= i < |fs| ==> ls[i] == FieldText(fs[i])
  {
    seq(|fs|, i requires 0 <= i < |fs| => FieldText(fs[i]))
  }

  function LineTexts(p: Printout): seq<Text> {
    [RequestLineText(p.verb, p.code)] + FieldTexts(p.fields)
  }

  lemma {:induction false} FieldsJoined(first: Text, fs: seq<HeaderField>)
    ensures Join([first] + FieldTexts(fs), CRLF) == first + PrintedFields(fs)
    decreases fs
  {
    NamedBytes();
    var ts := [first] + FieldTexts(fs);
    if fs != [] {
      var x := FieldText(fs[0]);
      assert ts[1..] == FieldTexts(fs) == [x] + FieldTexts(fs[1..]);
      FieldsJoined(x, fs[1..]);
      assert PrintedFields(fs) == CRLF + x + PrintedFields(fs[1..]);
    }
  }

  lemma PrintedLinesJoined(p: Printout)
    requires Printable(p)
    ensures Recognised(p.verb) && MethodName(p.verb) == Ascii(p.name)
    ensures PrintedHead(p) == Join(LineTexts(p), CRLF) && Ascii("\r\n\r\n") == CRLFCRLF
  {
    NamedBytes();
    NameIs(p.verb, p.name);
    var version := Ascii("HTTP/1.1");
    assert version == HTTP_1_1 && Ascii(" HTTP/1.1") == [SPACE] + version;
    JoinThree(MethodName(p.verb), p.code, HTTP_1_1, [SPACE]);
    FieldsJoined(RequestLineText(p.verb, p.code), p.fields);
    assert RequestLineText(p.verb, p.code) == Ascii(p.name) + Ascii(" ") + p.code + Ascii(" HTTP/1.1");
  }

  /** A line with its first colon behind `name`. */
  lemma ColonLine(name: Text, rest: Text)
    requires Lacks(name, COLON)
    ensures var line := name + [COLON] + rest;
      FirstIndex(line, COLON) == |name| && line[..|name|] == name && line[|name| + 1..] == rest
  {
    var line := name + [COLON] + rest;
    assert forall i :: 0 <= i < |name| ==> line[i] == name[i];
    FirstIndexIs(line, COLON, |name|);
  }

  lemma LacksJoined(a: Text, b: Text, x: Byte)
    requires Lacks(a, x) && Lacks(b, x)
    ensures Lacks(a + b, x)
  {
  }

  /** What the parser's own tests make of a field. */
  ghost predicate Parsable(f: HeaderField) {
    && f.name != [] && Lacks(f.name, COLON) && Lacks(f.name, CR)
    && Blank(f.lead) && Lacks(f.lead, CR) && Blank(f.trail) && Lacks(f.trail, CR)
    && Solid(f.value) && Lacks(f.value, CR)
  }

  lemma FieldParsable(f: HeaderField)
    requires FieldOk(f)
    ensures Parsable(f)
  {
    SpacesAre(f.lead);
    SpacesAre(f.value);
    SpacesAre(f.trail);
  }

  lemma ValuePartTrims(f: HeaderField)
    requires Parsable(f)
    ensures !Blank(ValuePart(f)) && Trimmed(ValuePart(f)) == f.value && Lacks(ValuePart(f), CR)
  {
    SolidMiddle(f.lead, f.value, f.trail);
    LacksJoined(f.lead, f.value, CR);
    LacksJoined(f.lead + f.value, f.trail, CR);
  }

  lemma ColonLineMeans(name: Key, rest: Text)
    requires name != [] && Lacks(name, COLON) && !Blank(rest)
    ensures var line := name + [COLON] + rest; WellFormed(line) && Field(line) == (name, Trimmed(rest) + [NUL])
  {
    ColonLine(name, rest);
    CStringOfKey(name, []);
  }

  /** A printed field is a well-formed line that means its name and its value. */
  lemma FieldLine(f: HeaderField)
    requires Parsable(f)
    ensures var line := FieldText(f);
      line != [] && Lacks(line, CR) && WellFormed(line) && Field(line) == (f.name, f.value + [NUL])
  {
    var rest := ValuePart(f);
    ValuePartTrims(f);
    ColonLineMeans(f.name, rest);
    LacksJoined(f.name, [COLON], CR);
    LacksJoined(f.name + [COLON], rest, CR);
  }

  lemma JoinThree(x: Text, y: Text, z: Text, sep: Text)
    ensures Join([x, y, z], sep) == x + sep + (y + sep + z)
  {
    var ts := [x, y, z];
    var us := ts[1..];
    assert us[0] == y && us[1..] == [z];
    assert Join(us[1..], sep) == z;
    assert Join(us, sep) == y + sep + z;
  }

  lemma RequestLineParts(m: Method, code: Text)
    requires Recognised(m) && code != [] && Lacks(code, SPACE) && Lacks(code, CR)
    ensures var line := RequestLineText(m, code);
      var ps := Split(line, [SPACE], 3);
      && 7 <= |line| && Lacks(line, CR) && |ps| == 3
      && (forall i :: 0 <= i < 3 ==> Within(ps[i], |line|))
      && ps[0].start == 0
      && Slice(line, ps[0]) == MethodName(m) && Slice(line, ps[1]) == code && Slice(line, ps[2]) == HTTP_1_1
  {
    var name: Text, version: Text := MethodName(m), HTTP_1_1;
    ThreeParts(name, code, version);
  }

  lemma ThreeParts(x: Text, y: Text, z: Text)
    requires x != [] && y != [] && |z| == 8
    requires Lacks(x, SPACE) && Lacks(y, SPACE) && Lacks(z, SPACE)
    requires Lacks(x, CR) && Lacks(y, CR) && Lacks(z, CR)
    ensures var line := Join([x, y, z], [SPACE]);
      var ps := Split(line, [SPACE], 3);
      && 7 <= |line| && Lacks(line, CR) && |ps| == 3
      && (forall i :: 0 <= i < 3 ==> Within(ps[i], |line|))
      && ps[0].start == 0
      && Slice(line, ps[0]) == x && Slice(line, ps[1]) == y && Slice(line, ps[2]) == z
  {
    var ts := [x, y, z];
    SplitJoined(ts, [SPACE], 3);
    JoinThree(x, y, z, [SPACE]);
    var line, ps := Join(ts, [SPACE]), Places(ts, 1, 0);
    assert ps[0].start == 0;
    assert Slice(line, ps[0]) == ts[0] && Slice(line, ps[1]) == ts[1] && Slice(line, ps[2]) == ts[2];
  }

  /** The three parts of a printed request line, found in the buffer. */
  lemma PartsBack(b: Text, line: Range, m: Method, code: Text)
    requires Recognised(m) && code != [] && Lacks(code, SPACE) && Lacks(code, CR)
    requires Within(line, |b|) && Slice(b, line) == RequestLineText(m, code)
    ensures var parts := PartsOf(b, line);
      && |parts| == 3 && (forall i :: 0 <= i < 3 ==> Within(parts[i], |b|))
      && Slice(b, parts[0]) == MethodName(m) && Slice(b, parts[1]) == code && Slice(b, parts[2]) == HTTP_1_1
      && parts[0].start + 7 <= |b|
      && parts[0].start + parts[0].len < |b| && b[parts[0].start + parts[0].len] == SPACE
  {
    var s := Slice(b, line);
    RequestLineParts(m, code);
    var ps, parts := Split(s, [SPACE], 3), PartsOf(b, line);
    PartSlice(b, line, 0);
    PartSlice(b, line, 1);
    PartSlice(b, line, 2);
    ClosedBySeparator(s, [SPACE], 3, 0);
    SpaceAfter(b, line, ps[0].len);
  }

  lemma PartSlice(b: Text, line: Range, i: nat)
    requires Within(line, |b|) && i < |PartsOf(b, line)|
    ensures var s, part := Slice(b, line), PartsOf(b, line)[i];
      && |Split(s, [SPACE], 3)| == |PartsOf(b, line)| && Within(Split(s, [SPACE], 3)[i], |s|)
      && part == OnBuffer(Split(s, [SPACE], 3)[i], line.start) && Within(part, |b|)
      && Slice(b, part) == Slice(s, Split(s, [SPACE], 3)[i])
  {
    var s := Slice(b, line);
    SplitInOrder(s, [SPACE], 3);
    var p := Split(s, [SPACE], 3)[i];
    SliceSlice(b, line.start, line.start + line.len, p.start, p.start + p.len);
  }

  lemma SpaceAfter(b: Text, line: Range, k: nat)
    requires Within(line, |b|) && Occurs(Slice(b, line), [SPACE], k)
    ensures line.start + k < |b| && b[line.start + k] == SPACE
  {
    var s := Slice(b, line);
    assert s[k] == s[k..k + 1][0] == SPACE;
    assert s[k] == b[line.start + k];
  }

  lemma MethodBack(b: Text, part: Range, m: Method)
    requires Recognised(m) && Within(part, |b|) && Slice(b, part) == MethodName(m)
    requires part.start + 7 <= |b| && part.start + part.len < |b| && b[part.start + part.len] == SPACE
    ensures MethodReadable(b, part) && MethodAt(b, part) == m
  {
    MethodOfView(b, part, m);
  }

  /** The request line read back. */
  lemma RequestLineBack(b: Text, line: Range, m: Method, code: Text, url: Text)
    requires Recognised(m) && url != [] && Spells(code, url) && Lacks(code, SPACE) && Lacks(code, CR)
    requires Within(line, |b|) && Slice(b, line) == RequestLineText(m, code)
    ensures LineDefined(b, line) && RequestLine(b, line) == LineOutcome(true, Some(m), Some(url))
  {
    PartsBack(b, line, m, code);
    MethodBack(b, PartsOf(b, line)[0], m);
    VersionIff(HTTP_1_1);
    DecodeSpelling(code, url);
  }

  /** Stored pairs of the printed fields. */
  function PairsOf(fs: seq<HeaderField>): (ps: seq<(Key, Text)>)
    ensures |ps| == |fs| && forall i :: 0 <= i < |fs| ==> ps[i] == (fs[i].name, fs[i].value + [0])
  {
    seq(|fs|, i requires 0 <= i < |fs| => (fs[i].name, fs[i].value + [0]))
  }

  lemma PrintedFieldsBack(t: Text, p: Printout)
    requires Printable(p) && t == Printed(p)
    ensures HeadClosed(t) && HeadOf(t).len == |PrintedHead(p)| && |LinesOf(t)| == |p.fields| + 1
    ensures forall k :: 1 <= k < |LinesOf(t)| ==>
              LineWellFormed(t, k) && Field(LineText(t, k)) == PairsOf(p.fields)[k - 1]
  {
    PrintedLines(p);
    forall k | 1 <= k < |LinesOf(t)|
      ensures LineWellFormed(t, k) && Field(LineText(t, k)) == PairsOf(p.fields)[k - 1]
    {
      assert LineText(t, k) == FieldText(p.fields[k - 1]);
      FieldBack(p.fields[k - 1]);
    }
  }

  lemma FieldBack(f: HeaderField)
    requires FieldOk(f)
    ensures WellFormed(FieldText(f)) && Field(FieldText(f)) == (f.name, f.value + [0])
  {
    FieldParsable(f);
    FieldLine(f);
  }

  lemma PrintedLineBack(b: Text, n: nat, p: Printout)
    requires Printable(p) && n <= |b| && b[..n] == Printed(p)
    ensures LineDefined(b, LinesOf(b[..n])[0])
    ensures RequestLine(b, LinesOf(b[..n])[0]) == LineOutcome(true, Some(p.verb), Some(p.url))
  {
    PrintedLines(p);
    PrintedLinesJoined(p);
    var line := LinesOf(b[..n])[0];
    LinesInOrder(b[..n]);
    assert LineText(b[..n], 0) == RequestLineText(p.verb, p.code);
    assert b[0..n] == b[..n];
    SliceSlice(b, 0, n, line.start, line.start + line.len);
    RequestLineBack(b, line, p.verb, p.code, p.url);
  }

  /** Lines that mean the fields give their pairs. */
  lemma PairsBack(b: Text, n: nat, fs: seq<HeaderField>)
    requires n <= |b| && HeadClosed(b[..n]) && |LinesOf(b[..n])| == |fs| + 1
    requires forall k :: 1 <= k < |LinesOf(b[..n])| ==>
               LineWellFormed(b[..n], k) && Field(LineText(b[..n], k)) == PairsOf(fs)[k - 1]
    requires LineDefined(b, LinesOf(b[..n])[0])
    ensures Defined(b, n)
    ensures Parsed(b, n) == Outcome(HeadOf(b[..n]).len + 4, PairsOf(fs), RequestLine(b, LinesOf(b[..n])[0]))
  {
    ParseIsPure(b, n);
    var pairs := Parsed(b, n).pairs;
    forall i | 0 <= i < |fs| ensures pairs[i] == PairsOf(fs)[i] {
      assert pairs[i] == Field(LineText(b[..n], i + 1));
    }
  }

  /** Every byte string that is a printed request followed by a body without CRLFCRLF, in a buffer that
      may hold anything behind it, parses to the request that was printed. */
  lemma {:induction false} ParsePrinted(b: Text, n: nat, p: Printout)
    requires Printable(p) && n <= |b| && b[..n] == Printed(p)
    ensures Defined(b, n)
    ensures Parsed(b, n) ==
            Outcome(|PrintedHead(p)| + 4, PairsOf(p.fields), LineOutcome(true, Some(p.verb), Some(p.url)))
  {
    PrintedFieldsBack(b[..n], p);
    PrintedLineBack(b, n, p);
    PairsBack(b, n, p.fields);
  }

  lemma PrintedLines(p: Printout)
    requires Printable(p)
    ensures var t, ts := Printed(p), LineTexts(p);
      && HeadClosed(t) && HeadOf(t) == Range(0, |PrintedHead(p)|)
      && |LinesOf(t)| == |ts| && forall k :: 0 <= k < |ts| ==> LineText(t, k) == ts[k]
  {
    PrintedLinesJoined(p);
    var ts := LineTexts(p);
    RequestLineParts(p.verb, p.code);
    forall i | 0 <= i < |ts| ensures ts[i] != [] && Lacks(ts[i], CR) {
      if i > 0 {
        FieldParsable(p.fields[i - 1]);
        FieldLine(p.fields[i - 1]);
      }
    }
    HeadSplit(ts, p.body);
    JoinedLines(Printed(p), ts);
  }

  /** The lines of a head that is a joined list of texts. */
  lemma JoinedLines(t: Text, ts: seq<Text>)
    requires Splittable(ts, CRLF) && |ts| <= 65
    requires HeadOf(t) == Range(0, |Join(ts, CRLF)|) && Slice(t, HeadOf(t)) == Join(ts, CRLF)
    ensures |LinesOf(t)| == |ts| && forall k :: 0 <= k < |ts| ==> LineText(t, k) == ts[k]
  {
    SplitJoined(ts, CRLF, 64);
    LinesInOrder(t);
    var ps, head := Places(ts, 2, 0), Join(ts, CRLF);
    forall k | 0 <= k < |ts| ensures LineText(t, k) == ts[k] {
      assert LinesOf(t)[k] == ps[k];
      SliceSlice(t, 0, |head|, ps[k].start, ps[k].start + ps[k].len);
    }
  }

  // ---- end to end ----

  ghost predicate DistinctNames(fs: seq<HeaderField>) {
    forall i, j :: 0 <= i < j < |fs| ==> fs[i].name != fs[j].name
  }

  /** The header table of a fresh request takes the printed fields exactly when there are at most 32 of
      them, and then gives each name its value, as a C string. For another name it gives nothing, but with
      exactly 16 or 32 fields it does not return. */
  lemma {:induction false} HeadersStored(fs: seq<HeaderField>)
    requires DistinctNames(fs)
    ensures InsertAll(NewTable(0), PairsOf(fs)).Some? <==> |fs| <= 32
    ensures InsertAll(NewTable(0), PairsOf(fs)).Some? ==>
              HeadersAnswer(fs, InsertAll(NewTable(0), PairsOf(fs)).value.slots)
  {
    var ps := PairsOf(fs);
    FreshTableTheorem(0, ps);
    DistinctCount(ps);
    if InsertAll(NewTable(0), ps).Some? {
      var t := InsertAll(NewTable(0), ps).value;
      forall i | 0 <= i < |fs| ensures Lookup(t.slots, fs[i].name) == Found(fs[i].value + [0]) {
        assert ps[i].0 in KeysOf(ps);
        UpdateAllAt(map[], ps, i);
      }
      forall k: Key | NoName(fs, k)
        ensures Lookup(t.slots, k) == if |fs| == 16 || |fs| == 32 then NoAnswer else NotFound
      {
        assert k !in KeysOf(ps);
        LookupAfterInsertions(0, ps, t, k);
        PackedIff(ps);
      }
    }
  }

  predicate NoName(fs: seq<HeaderField>, k: Key) {
    forall i :: 0 <= i < |fs| ==> fs[i].name != k
  }

  /** What looking up names gives once the fields are in the table. */
  ghost predicate HeadersAnswer(fs: seq<HeaderField>, slots: seq<Slot>) {
    && 0 < |slots|
    && (forall i :: 0 <= i < |fs| ==> Lookup(slots, fs[i].name) == Found(fs[i].value + [0]))
    && (forall k: Key :: NoName(fs, k) ==>
          Lookup(slots, k) == if |fs| == 16 || |fs| == 32 then NoAnswer else NotFound)
  }

  lemma PackedIff(ps: seq<(Key, Text)>)
    requires forall i, j :: 0 <= i < j < |ps| ==> ps[i].0 != ps[j].0
    ensures Packed(INIT_CAPACITY, ps) <==> |ps| == 16 || |ps| == 32
  {
    DistinctCount(ps);
    if ps != [] {
      DistinctCount(ps[..|ps| - 1]);
    }
  }

  lemma {:induction false} DistinctCount(ps: seq<(Key, Text)>)
    requires forall i, j :: 0 <= i < j < |ps| ==> ps[i].0 != ps[j].0
    ensures |KeysOf(ps)| == |ps|
    decreases |ps|
  {
    if ps == [] {
      assert KeysOf(ps) == {};
    } else {
      var init, last := ps[..|ps| - 1], ps[|ps| - 1].0;
      DistinctCount(init);
      assert forall i :: 0 <= i < |init| ==> init[i] == ps[i];
      assert KeysOf(ps) == KeysOf(init) + {last};
      assert last !in KeysOf(init);
    }
  }

  /** Parsing a printed request with a fresh request object returns true and gives back its method, its
      URL and its headers, and leaves the body as it was. */
  method ParsePrintedRequest(request: HttpRequest, raw: VString, ghost p: Printout) returns (ok: bool)
    requires request.Valid() && raw.Valid() && request.Separate(raw.data)
    requires raw != request.strMethod && raw != request.url
    requires request.url.Contents() == [] && request.strMethod.Contents() == [] && request.headers.View() == NewTable(0)
    requires Printable(p) && |p.fields| <= 32 && DistinctNames(p.fields) && raw.Contents() == Printed(p)
    modifies request, raw.data, request.strMethod, request.strMethod.data, request.url, request.url.data
    modifies request.headers, request.headers.items
    ensures ok && request.Valid()
    ensures request.verb == p.verb && request.strMethod.Contents() == Ascii(p.name)
    ensures request.url.Contents() == p.url
    ensures request.length == |PrintedHead(p)| + 4
    ensures HeadersAnswer(p.fields, request.headers.items[..])
    ensures raw.data[..][|PrintedHead(p)| + 4..raw.length] == p.body
  {
    ghost var b, n := raw.data[..], raw.length;
    assert b[..n] == raw.Contents();
    PrintedParses(b, n, p);
    ghost var stored := InsertAll(NewTable(0), PairsOf(p.fields));
    ok := request.Parse(raw);
    assert p.url + [] == p.url;
    assert Some(request.headers.View()) == stored;
    ghost var now := raw.data[..];
    BodyKept(b, n, p, now);
  }

  /** What parsing a printed request with a fresh request object comes to. */
  lemma PrintedParses(b: Text, n: nat, p: Printout)
    requires Printable(p) && |p.fields| <= 32 && DistinctNames(p.fields) && n <= |b| && b[..n] == Printed(p)
    ensures Defined(b, n)
    ensures Parsed(b, n) ==
            Outcome(|PrintedHead(p)| + 4, PairsOf(p.fields), LineOutcome(true, Some(p.verb), Some(p.url)))
    ensures InsertAll(NewTable(0), PairsOf(p.fields)).Some?
    ensures HeadersAnswer(p.fields, InsertAll(NewTable(0), PairsOf(p.fields)).value.slots)
    ensures Copied([], MethodName(p.verb)) == Ascii(p.name)
  {
    PrintedLinesJoined(p);
    ParsePrinted(b, n, p);
    HeadersStored(p.fields);
    CopiedIff([], MethodName(p.verb));
  }

  /** The parser's writes end before the body. */
  lemma BodyKept(b: Text, n: nat, p: Printout, now: Text)
    requires Printable(p) && n <= |b| && b[..n] == Printed(p)
    requires OnlyValues(b, now, LinesOf(b[..n])[1..])
    ensures |PrintedHead(p)| + 4 <= n && now[|PrintedHead(p)| + 4..n] == p.body
  {
    PrintedLines(p);
    BehindHead(b, n, now);
    assert b[..n][|PrintedHead(p)| + 4..] == p.body;
  }

  lemma BehindHead(b: Text, n: nat, now: Text)
    requires n <= |b| && HeadClosed(b[..n]) && OnlyValues(b, now, LinesOf(b[..n])[1..])
    ensures var end := HeadOf(b[..n]).start + HeadOf(b[..n]).len;
      forall i :: end < i <= n ==> now[i..n] == b[..n][i..]
  {
    var end := HeadOf(b[..n]).start + HeadOf(b[..n]).len;
    forall x | end < x < n ensures now[x] == b[x] {
      WritesStayInLines(b, n, now);
      LinesInHead(b[..n]);
    }
  }
}
