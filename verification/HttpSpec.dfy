/** What `VHttpRequest_Parse` computes, as a function of the bytes it is given. */
module HttpSpec {
  import opened Basics
  import opened Splitting
  import opened Trimming
  import opened VStrings
  import opened PercentCoding

  datatype Method = MethodError | Options | Get | Head | Post | Put | Patch | Delete | Trace | Connect

  /** The eight methods the parser recognises; `OPTIONS` has a name but is not among them. */
  predicate Recognised(m: Method) {
    m != MethodError && m != Options
  }

  function MethodName(m: Method): (name: Key)
    ensures m.MethodError? <==> name == []
    ensures |name| <= 7 && forall i :: 0 <= i < |name| ==> 65 <= name[i] <= 90
  {
    match m
    case MethodError => []
    case Options => [79, 80, 84, 73, 79, 78, 83]
    case Get => [71, 69, 84]
    case Head => [72, 69, 65, 68]
    case Post => [80, 79, 83, 84]
    case Put => [80, 85, 84]
    case Patch => [80, 65, 84, 67, 72]
    case Delete => [68, 69, 76, 69, 84, 69]
    case Trace => [84, 82, 65, 67, 69]
    case Connect => [67, 79, 78, 78, 69, 67, 84]
  }

  const HTTP_1_1: Key := [72, 84, 84, 80, 47, 49, 46, 49]

  /** The buffer holds the method's name at `at`. */
  predicate NameAt(b: Text, at: nat, m: Method) {
    at + |MethodName(m)| <= |b| && b[at..at + |MethodName(m)|] == MethodName(m)
  }

  /** `VHttpRequest_GetMethodFromString`: the comparisons read the buffer, not only the view. */
  function MethodAt(b: Text, view: Range): Method {
    if view.len > 7 then MethodError
    else if NameAt(b, view.start, Get) then Get
    else if NameAt(b, view.start, Head) then Head
    else if NameAt(b, view.start, Post) then Post
    else if NameAt(b, view.start, Put) then Put
    else if NameAt(b, view.start, Delete) then Delete
    else if NameAt(b, view.start, Trace) then Trace
    else if NameAt(b, view.start, Connect) then Connect
    else if NameAt(b, view.start, Patch) then Patch
    else MethodError
  }

  /** Every comparison that is made stays inside the buffer; one that succeeds is the last. */
  predicate MethodReadable(b: Text, view: Range) {
    view.len > 7 ||
    (&& view.start + 3 <= |b|
     && (NameAt(b, view.start, Get) ||
         (&& view.start + 4 <= |b|
          && (NameAt(b, view.start, Head) || NameAt(b, view.start, Post) || NameAt(b, view.start, Put) ||
              (&& view.start + 6 <= |b|
               && (NameAt(b, view.start, Delete) || NameAt(b, view.start, Trace) || view.start + 7 <= |b|))))))
  }

  lemma FoundIsNamed(b: Text, view: Range)
    requires view.len <= 7
    ensures var found := MethodAt(b, view);
      found != MethodError ==> Recognised(found) && NameAt(b, view.start, found)
  {
  }

  lemma NamedIsFound(b: Text, view: Range, m: Method)
    requires view.len <= 7 && Recognised(m) && NameAt(b, view.start, m)
    ensures MethodAt(b, view) != MethodError
  {
  }

  /** No two of the names can stand at one place, so the order of the comparisons does not matter. */
  lemma TwoNames(b: Text, at: nat, m: Method, x: Method)
    requires NameAt(b, at, m) && NameAt(b, at, x)
    requires Recognised(m) && Recognised(x)
    ensures m == x
  {
    FirstTwoBytes(b, at, m);
    FirstTwoBytes(b, at, x);
  }

  lemma FirstTwoBytes(b: Text, at: nat, m: Method)
    requires NameAt(b, at, m) && Recognised(m)
    ensures at + 2 <= |b| && b[at] == MethodName(m)[0] && b[at + 1] == MethodName(m)[1]
  {
    var s := b[at..at + |MethodName(m)|];
    assert s[0] == b[at] && s[1] == b[at + 1];
  }

  /** The method found is `m` exactly when the view has at most seven bytes and the name of `m` stands in the
      buffer where the view starts, even if it goes on behind the view. */
  lemma {:induction false} MethodIff(b: Text, view: Range, m: Method)
    requires Recognised(m)
    ensures MethodAt(b, view) == m <==> view.len <= 7 && NameAt(b, view.start, m)
  {
    if view.len <= 7 {
      FoundIsNamed(b, view);
      if NameAt(b, view.start, m) {
        NamedIsFound(b, view, m);
        TwoNames(b, view.start, m, MethodAt(b, view));
      }
    }
  }

  /** The byte after the view, if there is one, cannot continue a name. */
  predicate Ended(b: Text, view: Range) {
    view.len >= 7 || view.start + view.len >= |b| || !(65 <= b[view.start + view.len] <= 90)
  }

  /** The view has at most seven bytes and begins with the name of a recognised method. */
  ghost predicate Accepts(t: Text, m: Method) {
    |t| <= 7 && Recognised(m) && MethodName(m) <= t
  }

  /** Where the view is ended, as by the space behind the method of a request line, the method found depends
      on the view alone; `GET` and `GETTING` are both a GET. */
  lemma MethodOfView(b: Text, view: Range, m: Method)
    requires Within(view, |b|) && Ended(b, view) && Recognised(m)
    ensures MethodAt(b, view) == m <==> Accepts(Slice(b, view), m)
  {
    MethodIff(b, view, m);
    if view.len <= 7 {
      NameInView(b, view, m);
    }
  }

  lemma NameInView(b: Text, view: Range, m: Method)
    requires Within(view, |b|) && view.len <= 7 && Ended(b, view)
    ensures NameAt(b, view.start, m) <==> MethodName(m) <= Slice(b, view)
  {
    var name, v := MethodName(m), Slice(b, view);
    if view.start + |name| <= |b| {
      var s := b[view.start..view.start + |name|];
      assert forall i :: 0 <= i < |name| && i < view.len ==> s[i] == v[i];
      assert view.len < |name| ==> s[view.len] == b[view.start + view.len];
    }
  }

  /** The bytes of `s` stand in the buffer at `at`. */
  predicate Holds(b: Text, at: nat, s: string) {
    at + |s| <= |b| && forall i :: 0 <= i < |s| ==> b[at + i] == s[i] as int
  }

  /** The recognised methods and their names. */
  predicate HasName(m: Method, s: string) {
    || (m == Get && s == "GET") || (m == Head && s == "HEAD") || (m == Post && s == "POST") || (m == Put && s == "PUT")
    || (m == Delete && s == "DELETE") || (m == Trace && s == "TRACE") || (m == Connect && s == "CONNECT")
    || (m == Patch && s == "PATCH")
  }

  lemma NameIs(m: Method, s: string)
    requires HasName(m, s)
    ensures Recognised(m) && MethodName(m) == Ascii(s) && |s| <= 7
  {
  }

  lemma NameBytes(m: Method, s: string)
    requires HasName(m, s)
    ensures Recognised(m) && |MethodName(m)| == |s| <= 7
    ensures forall i :: 0 <= i < |s| ==> MethodName(m)[i] == s[i] as int
  {
  }

  lemma NameHolds(b: Text, at: nat, m: Method, s: string)
    requires HasName(m, s)
    ensures NameAt(b, at, m) <==> Holds(b, at, s)
  {
    NameBytes(m, s);
    if at + |s| <= |b| {
      var x := b[at..at + |s|];
      assert forall i :: 0 <= i < |s| ==> x[i] == b[at + i];
    }
  }

  /** The method found is the one whose name stands in the buffer where a view of at most seven bytes starts. */
  lemma MethodsFound(b: Text, view: Range)
    ensures MethodAt(b, view) == Get <==> view.len <= 7 && Holds(b, view.start, "GET")
    ensures MethodAt(b, view) == Head <==> view.len <= 7 && Holds(b, view.start, "HEAD")
    ensures MethodAt(b, view) == Post <==> view.len <= 7 && Holds(b, view.start, "POST")
    ensures MethodAt(b, view) == Put <==> view.len <= 7 && Holds(b, view.start, "PUT")
    ensures MethodAt(b, view) == Delete <==> view.len <= 7 && Holds(b, view.start, "DELETE")
    ensures MethodAt(b, view) == Trace <==> view.len <= 7 && Holds(b, view.start, "TRACE")
    ensures MethodAt(b, view) == Connect <==> view.len <= 7 && Holds(b, view.start, "CONNECT")
    ensures MethodAt(b, view) == Patch <==> view.len <= 7 && Holds(b, view.start, "PATCH")
    ensures MethodAt(b, view) != Options
  {
    MethodFound(b, view, Get, "GET");
    MethodFound(b, view, Head, "HEAD");
    MethodFound(b, view, Post, "POST");
    MethodFound(b, view, Put, "PUT");
    MethodFound(b, view, Delete, "DELETE");
    MethodFound(b, view, Trace, "TRACE");
    MethodFound(b, view, Connect, "CONNECT");
    MethodFound(b, view, Patch, "PATCH");
    if view.len <= 7 {
      FoundIsNamed(b, view);
    }
  }

  lemma MethodFound(b: Text, view: Range, m: Method, s: string)
    requires HasName(m, s)
    ensures MethodAt(b, view) == m <==> view.len <= 7 && Holds(b, view.start, s)
  {
    NameIs(m, s);
    MethodIff(b, view, m);
    NameHolds(b, view.start, m, s);
  }

  /** `strncmp(data, "HTTP/1.1", length) == 0`: the version is accepted when it agrees with the
      terminated literal for as long as both last. */
  predicate VersionOk(v: Text) {
    v[..if |v| < 9 then |v| else 9] <= HTTP_1_1 + [NUL]
  }

  /** A prefix of the bytes of HTTP/1.1, the empty one included, or those bytes and a NUL, and anything behind. */
  predicate IsVersion(v: Text) {
    (|v| <= 8 || v[8] == 0) && forall i :: 0 <= i < |v| && i < 8 ==> v[i] == "HTTP/1.1"[i] as int
  }

  /** The versions accepted are those. */
  lemma VersionIff(v: Text)
    ensures VersionOk(v) <==> IsVersion(v)
  {
    var literal := HTTP_1_1 + [NUL];
    assert literal[..8] == Ascii("HTTP/1.1") && literal[8] == 0;
    var n := if |v| < 9 then |v| else 9;
    assert forall i :: 0 <= i < n ==> v[..n][i] == v[i];
    assert forall i :: 0 <= i < 8 ==> literal[i] == "HTTP/1.1"[i] as int;
  }

  // ---- header lines ----

  /** The index of the first colon of a line of the buffer, or -1. */
  function Colon(b: Text, line: Range): (c: int)
    requires Within(line, |b|)
    ensures -1 <= c < line.len
  {
    FirstIndex(Slice(b, line), COLON)
  }

  /** The value view starts behind the colon and ends one byte past the line. */
  function ValueView(b: Text, line: Range): (v: Range)
    requires Within(line, |b|) && 0 <= Colon(b, line)
    ensures v.start + v.len == line.start + line.len + 1
  {
    Range(line.start + Colon(b, line) + 1, line.len - Colon(b, line))
  }

  function KeyView(b: Text, line: Range): (v: Range)
    requires Within(line, |b|) && 0 <= Colon(b, line)
    ensures Within(v, |b|)
  {
    Range(line.start, Colon(b, line))
  }

  /** The key copied up to the colon and read back as a C string. */
  function HeaderKey(b: Text, line: Range): Key
    requires Within(line, |b|) && 0 <= Colon(b, line)
  {
    CString(Slice(b, KeyView(b, line)))
  }

  /** A line with a colon behind a non-empty key has a value that can be trimmed and terminated in place. */
  predicate ValueSafe(b: Text, line: Range)
    requires Within(line, |b|) && 0 <= Colon(b, line)
  {
    var v := ValueView(b, line);
    Within(v, |b|) && !Blank(Slice(b, v)) && v.start + |Trimmed(Slice(b, v))| < |b|
  }

  function HeaderValue(b: Text, line: Range): Text
    requires Within(line, |b|) && 0 <= Colon(b, line) && ValueSafe(b, line)
  {
    Trimmed(Slice(b, ValueView(b, line)))
  }

  /** Every line up to the first with an empty key has a colon and a value. */
  predicate HeadersSafe(b: Text, lines: seq<Range>)
    decreases lines
  {
    lines == [] ||
    (&& Within(lines[0], |b|) && 0 <= Colon(b, lines[0])
     && (Colon(b, lines[0]) == 0 || (ValueSafe(b, lines[0]) && HeadersSafe(b, lines[1..]))))
  }

  /** The pairs inserted, each value with its terminator, and whether every key was non-empty. */
  datatype Scan = Scan(pairs: seq<(Key, Text)>, ok: bool)

  function ScanHeaders(b: Text, lines: seq<Range>): Scan
    requires HeadersSafe(b, lines)
    decreases lines
  {
    if lines == [] then Scan([], true)
    else if Colon(b, lines[0]) == 0 then Scan([], false)
    else
      var rest := ScanHeaders(b, lines[1..]);
      Scan([(HeaderKey(b, lines[0]), HeaderValue(b, lines[0]) + [NUL])] + rest.pairs, rest.ok)
  }

  // ---- the whole request ----

  function HeadOf(t: Text): (r: Range)
    ensures Within(r, |t|)
  {
    SplitInOrder(t, CRLFCRLF, 2);
    Split(t, CRLFCRLF, 2)[0]
  }

  /** The request line and the header lines, as stretches of the buffer. */
  function LinesOf(t: Text): (lines: seq<Range>)
    ensures lines != []
  {
    SplitInOrder(Slice(t, HeadOf(t)), CRLF, 64);
    Shifted(Split(Slice(t, HeadOf(t)), CRLF, 64), HeadOf(t).start)
  }

  function PartsOf(b: Text, line: Range): (parts: seq<Range>)
    requires Within(line, |b|)
    ensures parts != []
  {
    SplitInOrder(Slice(b, line), [SPACE], 3);
    Shifted(Split(Slice(b, line), [SPACE], 3), line.start)
  }

  lemma SplitInOrder(t: Text, sep: Text, size: nat)
    requires sep != []
    ensures var ps := Split(t, sep, size);
      && |ps| <= size + 1 && (0 < size ==> 0 < |ps|)
      && (forall i :: 0 <= i < |ps| ==> Within(ps[i], |t|))
      && (forall i, j :: 0 <= i < j < |ps| ==> ps[i].start + ps[i].len + |sep| <= ps[j].start)
      && (forall i :: 0 <= i < |ps| - 1 ==> 0 < ps[i].len)
  {
    HitsGenuine(t, sep, 0, 0, 0);
    GenuineIsSpaced(t, sep, Hits(t, sep, 0, 0), 0);
    PiecesInOrder(Hits(t, sep, 0, 0), |sep|, 0, |t|, size);
  }

  lemma LinesInOrder(t: Text)
    ensures var lines := LinesOf(t);
      && |lines| <= 65
      && (forall i :: 0 <= i < |lines| ==> Within(lines[i], |t|))
      && (forall i, j :: 0 <= i < j < |lines| ==> lines[i].start + lines[i].len + 2 <= lines[j].start)
  {
    SplitInOrder(Slice(t, HeadOf(t)), CRLF, 64);
  }

  lemma LinesInHead(t: Text)
    ensures forall k :: 0 <= k < |LinesOf(t)| ==>
              LinesOf(t)[k].start + LinesOf(t)[k].len <= HeadOf(t).start + HeadOf(t).len
  {
    SplitInOrder(Slice(t, HeadOf(t)), CRLF, 64);
  }

  /** A line with another one behind it is followed by a CR. */
  lemma LineClosed(t: Text, k: nat)
    requires k + 1 < |LinesOf(t)|
    ensures var line := LinesOf(t)[k]; line.start + line.len < |t| && t[line.start + line.len] == CR
  {
    var head := HeadOf(t);
    var h := Slice(t, head);
    SplitInOrder(h, CRLF, 64);
    ClosedBySeparator(h, CRLF, 64, k);
    var p := Split(h, CRLF, 64)[k];
    assert h[p.start + p.len] == h[p.start + p.len..p.start + p.len + 2][0];
  }

  lemma PartsInside(b: Text, line: Range)
    requires Within(line, |b|)
    ensures var parts := PartsOf(b, line);
      && |parts| <= 4
      && (forall i :: 0 <= i < |parts| ==>
            line.start <= parts[i].start && parts[i].start + parts[i].len <= line.start + line.len)
      && (forall i, j :: 0 <= i < j < |parts| ==> parts[i].start + parts[i].len + 1 <= parts[j].start)
  {
    SplitInOrder(Slice(b, line), [SPACE], 3);
  }

  /** The request line can be read: unless it has too many pieces or no recognised method, it has three. */
  predicate LineDefined(b: Text, line: Range) {
    && Within(line, |b|)
    && var parts := PartsOf(b, line);
       |parts| <= 3 ==> MethodReadable(b, parts[0]) && (|parts| == 3 || MethodAt(b, parts[0]) == MethodError)
  }

  /** What the request line gives: whether it is accepted, and the method and the URL it sets, if the
      parser gets that far. */
  datatype LineOutcome = LineOutcome(ok: bool, verb: Option<Method>, url: Option<Text>)

  function RequestLine(b: Text, line: Range): LineOutcome
    requires LineDefined(b, line)
  {
    PartsInside(b, line);
    var parts := PartsOf(b, line);
    if |parts| > 3 then LineOutcome(false, None, None)
    else if MethodAt(b, parts[0]) == MethodError then LineOutcome(false, Some(MethodError), None)
    else LineOutcome(VersionOk(Slice(b, parts[2])), Some(MethodAt(b, parts[0])), Some(Decode(Slice(b, parts[1]))))
  }

  /** The pieces of a line are those of a true split at spaces, at most three closed ones. */
  lemma PartsAre(b: Text, line: Range)
    requires Within(line, |b|)
    ensures PartsOf(b, line) == Shifted(TrueSplit(Slice(b, line), Ascii(" "), 3), line.start)
  {
    NamedBytes();
    OneByteSplit(Slice(b, line), SPACE, 3);
  }

  /** In a head in which every CRLF ends an odd run of CRs the lines are those of a true split. */
  lemma LinesAre(t: Text)
    requires OddRuns(Slice(t, HeadOf(t)), Ascii("\r\n"), 0)
    ensures LinesOf(t) == Shifted(TrueSplit(Slice(t, HeadOf(t)), Ascii("\r\n"), 64), HeadOf(t).start)
  {
    NamedBytes();
    CrlfSplit(Slice(t, HeadOf(t)), CRLF, 64);
  }

  predicate Begins(t: Text, s: string) {
    |s| <= |t| && forall i :: 0 <= i < |s| ==> t[i] == s[i] as int
  }

  predicate BeginsWithMethod(t: Text) {
    || Begins(t, "GET") || Begins(t, "HEAD") || Begins(t, "POST") || Begins(t, "PUT")
    || Begins(t, "DELETE") || Begins(t, "TRACE") || Begins(t, "CONNECT") || Begins(t, "PATCH")
  }

  function Piece(b: Text, line: Range, i: nat): Text
    requires Within(line, |b|) && i < |PartsOf(b, line)|
  {
    PartsInside(b, line);
    Slice(b, PartsOf(b, line)[i])
  }

  /** Three pieces: at most seven bytes that begin with the name of a method, anything, and a version. */
  predicate AcceptedLine(b: Text, line: Range)
    requires Within(line, |b|)
  {
    |PartsOf(b, line)| == 3 &&
    |Piece(b, line, 0)| <= 7 && BeginsWithMethod(Piece(b, line, 0)) && IsVersion(Piece(b, line, 2))
  }

  /** The method piece of a line of three is followed by a space. */
  lemma MethodEnded(b: Text, line: Range)
    requires Within(line, |b|) && |PartsOf(b, line)| == 3
    ensures Within(PartsOf(b, line)[0], |b|) && Ended(b, PartsOf(b, line)[0])
  {
    PartsInside(b, line);
    var s := Slice(b, line);
    ClosedBySeparator(s, [SPACE], 3, 0);
    var p := Split(s, [SPACE], 3)[0];
    assert s[p.start + p.len] == s[p.start + p.len..p.start + p.len + 1][0];
  }

  lemma BeginsIff(b: Text, view: Range, m: Method, s: string)
    requires Within(view, |b|) && view.len <= 7 && Ended(b, view) && HasName(m, s)
    ensures Begins(Slice(b, view), s) <==> MethodAt(b, view) == m
  {
    NameBytes(m, s);
    MethodOfView(b, view, m);
    BeginsName(Slice(b, view), MethodName(m), s);
  }

  lemma BeginsName(t: Text, name: Text, s: string)
    requires |name| == |s| && forall i :: 0 <= i < |s| ==> name[i] == s[i] as int
    ensures Begins(t, s) <==> name <= t
  {
    if Begins(t, s) {
      assert t[..|name|] == name;
    }
  }

  lemma BeginsWithMethodIff(b: Text, view: Range)
    requires Within(view, |b|) && view.len <= 7 && Ended(b, view)
    ensures BeginsWithMethod(Slice(b, view)) <==> MethodAt(b, view) != MethodError
  {
    BeginsIff(b, view, Get, "GET");
    BeginsIff(b, view, Head, "HEAD");
    BeginsIff(b, view, Post, "POST");
    BeginsIff(b, view, Put, "PUT");
    BeginsIff(b, view, Delete, "DELETE");
    BeginsIff(b, view, Trace, "TRACE");
    BeginsIff(b, view, Connect, "CONNECT");
    BeginsIff(b, view, Patch, "PATCH");
    FoundIsNamed(b, view);
  }

  /** When a request line is accepted, and what it sets: nothing with more than three pieces, else the method
      found, and the decoded URL unless there is no method; also when the version is rejected. */
  lemma RequestLineIff(b: Text, line: Range)
    requires LineDefined(b, line)
    ensures RequestLine(b, line).ok <==> AcceptedLine(b, line)
    ensures var o, parts := RequestLine(b, line), PartsOf(b, line);
      && (o.verb == if |parts| > 3 then None else Some(MethodAt(b, parts[0])))
      && (o.url.Some? <==> |parts| <= 3 && MethodAt(b, parts[0]) != MethodError)
      && (o.url.Some? ==> |parts| == 3 && o.url == Some(Decode(Piece(b, line, 1))))
  {
    PartsInside(b, line);
    var parts := PartsOf(b, line);
    if |parts| == 3 {
      MethodEnded(b, line);
      if parts[0].len <= 7 {
        BeginsWithMethodIff(b, parts[0]);
      }
      VersionIff(Slice(b, parts[2]));
    }
  }

  /** The lines can be read: the header lines are safe and, unless the parser has given up on one of
      them, so is the request line. */
  predicate LinesDefined(b: Text, lines: seq<Range>) {
    lines != [] && HeadersSafe(b, lines[1..]) && (ScanHeaders(b, lines[1..]).ok ==> LineDefined(b, lines[0]))
  }

  /** The pairs inserted and what the request line gives. */
  function ParsedLines(b: Text, lines: seq<Range>): (seq<(Key, Text)>, LineOutcome)
    requires LinesDefined(b, lines)
  {
    var scan := ScanHeaders(b, lines[1..]);
    (scan.pairs, if scan.ok then RequestLine(b, lines[0]) else LineOutcome(false, None, None))
  }

  /** Parsing a buffer of which the first `n` bytes are used reads only bytes and views that exist. */
  predicate Defined(b: Text, n: nat) {
    n <= |b| && LinesDefined(b, LinesOf(b[..n]))
  }

  /** What one call does: the length it sets, the pairs it inserts, and what the request line gives. */
  datatype Outcome = Outcome(length: nat, pairs: seq<(Key, Text)>, line: LineOutcome)

  function Parsed(b: Text, n: nat): Outcome
    requires Defined(b, n)
  {
    var (pairs, line) := ParsedLines(b, LinesOf(b[..n]));
    Outcome(HeadOf(b[..n]).len + 4, pairs, line)
  }

  // ---- when a request is accepted ----

  /** The pairs are those of the lines before the first with an empty key, which begins with a colon. */
  lemma {:induction false} ScanExact(b: Text, lines: seq<Range>)
    requires HeadersSafe(b, lines)
    ensures var scan := ScanHeaders(b, lines);
      && |scan.pairs| <= |lines| && (scan.ok <==> |scan.pairs| == |lines|)
      && (!scan.ok ==> BeginsWithColon(b, lines[|scan.pairs|]))
      && forall k :: 0 <= k < |scan.pairs| ==>
           && Within(lines[k], |b|) && !BeginsWithColon(b, lines[k]) && 0 < Colon(b, lines[k]) && ValueSafe(b, lines[k])
           && scan.pairs[k] == (HeaderKey(b, lines[k]), HeaderValue(b, lines[k]) + [0])
    decreases lines
  {
    if lines != [] {
      NamedBytes();
      assert Ascii(":")[0] == 58;
      var s := Slice(b, lines[0]);
      assert lines[0].len > 0 ==> s[0] == b[lines[0].start];
      if Colon(b, lines[0]) != 0 {
        ScanExact(b, lines[1..]);
      }
    }
  }

  predicate BeginsWithColon(b: Text, line: Range) {
    0 < line.len && line.start < |b| && b[line.start] == 58
  }

  /** No header line begins with a colon, and the request line is accepted. */
  predicate Accepted(b: Text, n: nat)
    requires n <= |b|
  {
    LinesInOrder(b[..n]);
    && (forall k :: 1 <= k < |LinesOf(b[..n])| ==> !BeginsWithColon(b, LinesOf(b[..n])[k]))
    && AcceptedLine(b, LinesOf(b[..n])[0])
  }

  /** A request is accepted exactly then. Its length is that of the head and the CRLFCRLF behind it in any case,
      and without a line that begins with a colon method and URL are those of the request line. */
  lemma ParsedIff(b: Text, n: nat)
    requires Defined(b, n)
    ensures Parsed(b, n).line.ok <==> Accepted(b, n)
    ensures Parsed(b, n).length == HeadOf(b[..n]).len + 4
    ensures var lines, o := LinesOf(b[..n]), Parsed(b, n);
      if exists k :: 1 <= k < |lines| && BeginsWithColon(b, lines[k]) then o.line == LineOutcome(false, None, None)
      else LineDefined(b, lines[0]) && o.line == RequestLine(b, lines[0])
  {
    LinesInOrder(b[..n]);
    var lines := LinesOf(b[..n]);
    var scan := ScanHeaders(b, lines[1..]);
    ScanExact(b, lines[1..]);
    if scan.ok {
      assert forall k :: 1 <= k < |lines| ==> lines[1..][k - 1] == lines[k];
      RequestLineIff(b, lines[0]);
    } else {
      assert BeginsWithColon(b, lines[|scan.pairs| + 1]);
    }
  }
}
