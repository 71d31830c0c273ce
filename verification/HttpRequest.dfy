/** `vhttp_request`: the parser that trims and terminates header values inside the receive buffer. */
module HttpRequests {
  import opened Basics
  import opened Splitting
  import opened Trimming
  import opened VStrings
  import opened PercentCoding
  import opened TableSpec
  import opened HashTables
  import opened HttpSpec

  // ---- what one header line does to the buffer ----

  /** The buffer after the value of a line has been trimmed and terminated. */
  function AfterHeader(b: Text, line: Range): (r: Text)
    requires Within(line, |b|) && 0 <= Colon(b, line) && ValueSafe(b, line)
    ensures |r| == |b|
  {
    var v := ValueView(b, line);
    TrimmedIn(b, v)[v.start + |Trimmed(Slice(b, v))| := NUL]
  }

  /** The writes cover the value and its terminator, at the start of the value view; they end at
      the byte past the line if that is whitespace, as the CR of a line end is, and at most one
      byte later otherwise. */
  lemma HeaderWrites(b: Text, line: Range)
    requires Within(line, |b|) && 0 <= Colon(b, line) && ValueSafe(b, line)
    ensures var at, value := ValueView(b, line).start, HeaderValue(b, line);
      && at + |value| < |b|
      && (forall i :: 0 <= i < |b| && !(at <= i <= at + |value|) ==> AfterHeader(b, line)[i] == b[i])
      && AfterHeader(b, line)[at..at + |value| + 1] == value + [NUL]
      && at + |value| <= line.start + line.len + if IsSpace(b[line.start + line.len]) then 0 else 1
  {
    var v := ValueView(b, line);
    EndOfValue(b, line);
    TrimOverwrites(b, v);
    WriteTerminated(b, v.start, HeaderValue(b, line));
  }

  lemma EndOfValue(b: Text, line: Range)
    requires Within(line, |b|) && 0 <= Colon(b, line) && ValueSafe(b, line)
    ensures ValueView(b, line).start + |HeaderValue(b, line)|
         <= line.start + line.len + if IsSpace(b[line.start + line.len]) then 0 else 1
  {
    var v := ValueView(b, line);
    var t := Slice(b, v);
    assert t[v.len - 1] == b[line.start + line.len];
  }

  lemma WriteTerminated(b: Text, at: nat, value: Text)
    requires at + |value| < |b|
    ensures var r := Overwritten(b, at, value)[at + |value| := NUL];
      && (forall i :: 0 <= i < |b| && !(at <= i <= at + |value|) ==> r[i] == b[i])
      && r[at..at + |value| + 1] == value + [NUL]
  {
    OverwrittenBytes(b, at, value);
    Terminated(Overwritten(b, at, value), at, value);
  }

  lemma Terminated(b: Text, at: nat, value: Text)
    requires at + |value| < |b| && b[at..at + |value|] == value
    ensures b[at + |value| := NUL][at..at + |value| + 1] == value + [NUL]
  {
    var r := b[at + |value| := NUL];
    assert r[at..at + |value|] == b[at..at + |value|];
    assert r[at..at + |value| + 1] == r[at..at + |value|] + [NUL];
  }

  /** Two buffers that agree from `lo` on. */
  predicate AgreeFrom(b: Text, c: Text, lo: nat) {
    |b| == |c| && forall i :: lo <= i < |b| ==> b[i] == c[i]
  }

  lemma SameSlice(b: Text, c: Text, lo: nat, i: nat, j: nat)
    requires AgreeFrom(b, c, lo) && lo <= i <= j <= |b|
    ensures b[i..j] == c[i..j]
  {
  }

  lemma LineAgrees(b: Text, c: Text, line: Range)
    requires AgreeFrom(b, c, line.start) && Within(line, |b|)
    ensures Slice(b, line) == Slice(c, line) && Colon(b, line) == Colon(c, line)
    ensures 0 <= Colon(b, line) ==> HeaderKey(b, line) == HeaderKey(c, line)
  {
    SameSlice(b, c, line.start, line.start, line.start + line.len);
    if 0 <= Colon(b, line) {
      SameSlice(b, c, line.start, line.start, line.start + Colon(b, line));
    }
  }

  lemma ValueAgrees(b: Text, c: Text, line: Range)
    requires AgreeFrom(b, c, line.start) && Within(line, |b|)
    requires 0 <= Colon(b, line) && ValueSafe(b, line)
    ensures Colon(b, line) == Colon(c, line) && ValueSafe(c, line)
    ensures HeaderValue(b, line) == HeaderValue(c, line)
  {
    LineAgrees(b, c, line);
    var v := ValueView(b, line);
    SameSlice(b, c, line.start, v.start, v.start + v.len);
    assert ValueView(c, line) == v && Slice(c, v) == Slice(b, v);
  }

  ghost predicate InOrder(lines: seq<Range>) {
    forall i, j :: 0 <= i < j < |lines| ==> lines[i].start + lines[i].len + 2 <= lines[j].start
  }

  /** Index `i` lies between the colon of one of the lines and the byte past its end, or one further if that
      byte is no whitespace. */
  ghost predicate InValueOf(b: Text, lines: seq<Range>, i: nat) {
    exists k :: 0 <= k < |lines| && Within(lines[k], |b|) && ValueByte(b, lines[k], i)
  }

  predicate ValueByte(b: Text, line: Range, i: nat)
    requires Within(line, |b|)
  {
    0 <= Colon(b, line) && line.start + Colon(b, line) < i <= LastWritten(b, line)
  }

  function LastWritten(b: Text, line: Range): nat {
    var end := line.start + line.len;
    if end < |b| && IsSpace(b[end]) then end else end + 1
  }

  // ---- comparisons ----

  /** `strncmp(data, literal, length) == 0` on a view. */
  method StrNEqual(buffer: array<Byte>, view: Range) returns (equal: bool)
    requires Within(view, buffer.Length)
    ensures equal <==> VersionOk(Slice(buffer[..], view))
  {
    ghost var v := Slice(buffer[..], view);
    ghost var literal := HTTP_1_1 + [NUL];
    for i := 0 to view.len
      invariant i <= 8 && v[..i] <= literal
    {
      var x := VStrings.At(buffer, view, i);
      var y := if i < |HTTP_1_1| then HTTP_1_1[i] else NUL;
      assert y == literal[i] && v[..i + 1] == v[..i] + [x];
      if x != y {
        NotPrefix(v, literal, i);
        return false;
      }
      if y == NUL {
        return true;
      }
    }
    assert v[..view.len] == v;
    return true;
  }

  lemma NotPrefix(v: Text, literal: Text, i: nat)
    requires i < |v| && i < |literal| == 9 && v[i] != literal[i]
    ensures !(v[..if |v| < 9 then |v| else 9] <= literal)
  {
    var n := if |v| < 9 then |v| else 9;
    assert v[..n][i] == v[i];
  }

  method GetMethodFromString(buffer: array<Byte>, view: Range) returns (m: Method)
    requires MethodReadable(buffer[..], view)
    ensures m == MethodAt(buffer[..], view)
  {
    if view.len > 7 {
      return MethodError;
    }
    var named := Named(buffer, view.start, Get);
    if named {
      return Get;
    }
    named := Named(buffer, view.start, Head);
    if named {
      return Head;
    }
    named := Named(buffer, view.start, Post);
    if named {
      return Post;
    }
    named := Named(buffer, view.start, Put);
    if named {
      return Put;
    }
    named := Named(buffer, view.start, Delete);
    if named {
      return Delete;
    }
    named := Named(buffer, view.start, Trace);
    if named {
      return Trace;
    }
    named := Named(buffer, view.start, Connect);
    if named {
      return Connect;
    }
    named := Named(buffer, view.start, Patch);
    if named {
      return Patch;
    }
    return MethodError;
  }

  method Named(buffer: array<Byte>, at: nat, m: Method) returns (equal: bool)
    requires at + |MethodName(m)| <= buffer.Length
    ensures equal <==> NameAt(buffer[..], at, m)
  {
    equal := MemEqual(buffer, at, MethodName(m));
    assert buffer[..][at..at + |MethodName(m)|] == buffer[at..at + |MethodName(m)|];
  }

  /** Trims the value and writes the terminator behind it; the result is the value as it is copied. */
  method TerminateValue(buffer: array<Byte>, line: Range, view: Range) returns (value: Text)
    requires Within(line, buffer.Length) && 0 <= Colon(buffer[..], line) && ValueSafe(buffer[..], line)
    requires view == ValueView(buffer[..], line)
    modifies buffer
    ensures buffer[..] == AfterHeader(old(buffer[..]), line)
    ensures value == HeaderValue(old(buffer[..]), line) + [NUL]
  {
    ghost var b := buffer[..];
    HeaderWrites(b, line);
    var kept := Trim(buffer, view);
    buffer[kept.start + kept.len] := NUL;
    assert buffer[..] == AfterHeader(b, line);
    value := buffer[kept.start..kept.start + kept.len + 1];
    assert value == AfterHeader(b, line)[kept.start..kept.start + kept.len + 1];
  }

  /** The key copied into a buffer of its own, terminated, and read back as a C string. The buffer of
      the source has no room for the terminator it writes; here it has. */
  method CopyKey(buffer: array<Byte>, view: Range) returns (key: Key)
    requires Within(view, buffer.Length)
    ensures key == CString(Slice(buffer[..], view))
  {
    key := CString(buffer[view.start..view.start + view.len]);
    assert buffer[view.start..view.start + view.len] == Slice(buffer[..], view);
  }

  // ---- the request ----

  class HttpRequest {
    var verb: Method
    var length: nat
    const strMethod: VString
    const url: VString
    const headers: HashTable

    ghost predicate Valid()
      reads this, strMethod, url, headers
    {
      && strMethod != url && strMethod.data != url.data
      && strMethod.Valid() && url.Valid() && headers.Valid()
    }

    /** The parser may write the buffer: it is none of the request's own. */
    ghost predicate Separate(buffer: array<Byte>)
      reads strMethod, url
    {
      buffer != strMethod.data && buffer != url.data
    }

    constructor ()
      ensures Valid() && fresh(strMethod) && fresh(url) && fresh(headers)
      ensures fresh(strMethod.data) && fresh(url.data) && fresh(headers.items)
      ensures verb == MethodError && length == 0
      ensures strMethod.Contents() == [] && url.Contents() == [] && headers.View() == NewTable(0)
    {
      verb, length := MethodError, 0;
      url := new VString.WithCapacity(0);
      strMethod := new VString.WithCapacity(0);
      headers := new HashTable(0);
    }

    /** Inserts one byte behind the decoded part, before what the string held. */
    method Emit(count: nat, ch: Byte, ghost done: Text, ghost before: Text)
      requires url.Valid() && count == |done| && url.Contents() == done + before
      modifies url, url.data
      ensures url.Valid() && (url.data == old(url.data) || fresh(url.data))
      ensures url.Contents() == done + [ch] + before
    {
      assert (done + before)[..count] == done && (done + before)[count..] == before;
      url.Insert(count, ch);
    }

    /** The `switch` of the decoder: the bytes it emits for index `i` and the index it goes on at. */
    method DecodeByte(buffer: array<Byte>, view: Range, i: nat, count: nat, ghost done: Text, ghost before: Text)
      returns (next: nat, emitted: nat, ghost bytes: Text)
      requires Valid() && Separate(buffer) && i < view.len
      requires view.start + view.len < buffer.Length && !IsHex(buffer[view.start + view.len])
      requires count == |done| && url.Contents() == done + before
      modifies url, url.data
      ensures Valid() && (url.data == old(url.data) || fresh(url.data))
      ensures i < next <= view.len && emitted == |done| + |bytes| && url.Contents() == done + bytes + before
      ensures var u := Slice(buffer[..], view); Decode(u[i..]) == bytes + Decode(u[next..])
    {
      var ch := VStrings.At(buffer, view, i);
      DecodeStep(Slice(buffer[..], view), i);
      if ch == PERCENT {
        var escape := IsEscape(buffer, view, i);
        if escape {
          var x := HexValue(buffer[view.start + i + 1]) * 16 + HexValue(buffer[view.start + i + 2]);
          Emit(count, x, done, before);
          return i + 3, count + 1, [x];
        }
      } else if ch == PLUS {
        Emit(count, SPACE, done, before);
        Emit(count + 1, ch, done + [SPACE], before);
        assert done + [SPACE] + [ch] == done + [SPACE, ch];
        return i + 1, count + 2, [SPACE, ch];
      }
      Emit(count, ch, done, before);
      return i + 1, count + 1, [ch];
    }

    /** Inserts the decoded URL before what the string held. */
    method DecodeUrl(buffer: array<Byte>, view: Range)
      requires Valid() && Separate(buffer)
      requires view.start + view.len < buffer.Length && !IsHex(buffer[view.start + view.len])
      modifies url, url.data
      ensures Valid() && (url.data == old(url.data) || fresh(url.data))
      ensures url.Contents() == Decode(Slice(buffer[..], view)) + old(url.Contents())
    {
      ghost var u, before, done, bytes: Text := Slice(buffer[..], view), url.Contents(), [], [];
      var count, i := 0, 0;
      DecodedStart(u);
      while i < view.len
        invariant Valid() && Separate(buffer) && (url.data == old(url.data) || fresh(url.data))
        invariant Slice(buffer[..], view) == u && !IsHex(buffer[view.start + view.len])
        invariant i <= view.len && count == |done| && url.Contents() == done + before && Decoded(u, i, done)
      {
        ghost var here := i;
        i, count, bytes := DecodeByte(buffer, view, i, count, done, before);
        DecodedNext(u, here, i, done, bytes);
        done := done + bytes;
      }
      DecodedEnd(u, done);
    }

    /** One header line: false when its key is empty. */
    method InsertHeader(buffer: array<Byte>, line: Range) returns (ok: bool)
      requires headers.Valid() && Within(line, buffer.Length) && 0 <= Colon(buffer[..], line)
      requires Colon(buffer[..], line) != 0 ==> ValueSafe(buffer[..], line)
      requires Colon(buffer[..], line) != 0 ==>
                 Inserted(headers.View(), HeaderKey(buffer[..], line), HeaderValue(buffer[..], line) + [NUL]).Some?
      modifies buffer, headers, headers.items
      ensures headers.Valid() && (headers.items == old(headers.items) || fresh(headers.items))
      ensures ok <==> old(Colon(buffer[..], line)) != 0
      ensures !ok ==> buffer[..] == old(buffer[..]) && headers.View() == old(headers.View())
      ensures ok ==> buffer[..] == AfterHeader(old(buffer[..]), line)
      ensures ok ==> Some(headers.View()) ==
                     old(Inserted(headers.View(), HeaderKey(buffer[..], line), HeaderValue(buffer[..], line) + [NUL]))
    {
      ghost var b := buffer[..];
      var idx := FindFirstCharOccurence(buffer, line, COLON);
      var keyView := Range(line.start, idx);
      var valueView := Range(line.start + idx + 1, line.len - idx);
      if keyView.len == 0 || valueView.len == 0 {
        return false;
      }
      assert keyView == KeyView(b, line) && valueView == ValueView(b, line);
      var key := CopyKey(buffer, keyView);
      assert buffer[..] == b;
      var value := TerminateValue(buffer, line, valueView);
      ok := headers.Insert(key, value);
    }

    /** One round of the header loop. */
    method NextHeader(buffer: array<Byte>, line: Range, ghost b: Text, ghost ls: seq<Range>, ghost i: nat,
                      ghost target: Option<Table>) returns (ok: bool)
      requires headers.Valid() && i < |ls| && line == ls[i] && InOrder(ls) && HeadersSafe(b, ls[1..])
      requires Midway(b, buffer[..], ls, i, headers.View(), target)
      modifies buffer, headers, headers.items
      ensures headers.Valid() && (headers.items == old(headers.items) || fresh(headers.items))
      ensures ok ==> Midway(b, buffer[..], ls, i + 1, headers.View(), target)
      ensures !ok ==> !ScanHeaders(b, ls[1..]).ok && target == Some(headers.View())
      ensures !ok ==> OnlyValues(b, buffer[..], ls[1..])
    {
      HeaderStep(b, buffer[..], ls, i, headers.View(), target);
      ok := InsertHeader(buffer, line);
    }

    /** The header loop, over all lines but the first. */
    method HeaderLoop(buffer: array<Byte>, lines: array<Range>, count: nat, ghost b: Text, ghost ls: seq<Range>,
                      ghost target: Option<Table>) returns (ok: bool)
      requires headers.Valid() && 1 <= count <= lines.Length && ls == lines[..count] && InOrder(ls)
      requires HeadersSafe(b, ls[1..]) && Midway(b, buffer[..], ls, 1, headers.View(), target)
      modifies buffer, headers, headers.items
      ensures headers.Valid() && (headers.items == old(headers.items) || fresh(headers.items))
      ensures ok ==> Midway(b, buffer[..], ls, |ls|, headers.View(), target)
      ensures !ok ==> !ScanHeaders(b, ls[1..]).ok && target == Some(headers.View())
      ensures !ok ==> OnlyValues(b, buffer[..], ls[1..])
    {
      for i := 1 to count
        invariant headers.Valid() && (headers.items == old(headers.items) || fresh(headers.items))
        invariant Midway(b, buffer[..], ls, i, headers.View(), target)
      {
        assert lines[i] == ls[i];
        var good := NextHeader(buffer, lines[i], b, ls, i, target);
        if !good {
          return false;
        }
      }
      return true;
    }

    method ParseHeaders(buffer: array<Byte>, lines: array<Range>, count: nat, ghost ls: seq<Range>) returns (ok: bool)
      requires headers.Valid() && 1 <= count <= lines.Length && ls == lines[..count] && InOrder(ls)
      requires HeadersSafe(buffer[..], ls[1..])
      requires InsertAll(headers.View(), ScanHeaders(buffer[..], ls[1..]).pairs).Some?
      modifies buffer, headers, headers.items
      ensures headers.Valid() && (headers.items == old(headers.items) || fresh(headers.items))
      ensures ok == ScanHeaders(old(buffer[..]), ls[1..]).ok
      ensures Some(headers.View()) == InsertAll(old(headers.View()), ScanHeaders(old(buffer[..]), ls[1..]).pairs)
      ensures OnlyValues(old(buffer[..]), buffer[..], ls[1..])
    {
      ghost var b := buffer[..];
      ghost var target := InsertAll(headers.View(), ScanHeaders(b, ls[1..]).pairs);
      MidwayStart(b, ls, headers.View());
      ok := HeaderLoop(buffer, lines, count, b, ls, target);
      if ok {
        MidwayDone(b, buffer[..], ls, headers.View(), target);
      }
    }

    /** The part of the request line behind a recognised method. */
    method TakeUrl(buffer: array<Byte>, target: Range, version: Range) returns (ok: bool)
      requires Valid() && Separate(buffer)
      requires target.start + target.len < buffer.Length && buffer[target.start + target.len] == SPACE
      requires Within(version, buffer.Length)
      modifies strMethod, strMethod.data, url, url.data
      ensures Valid() && (url.data == old(url.data) || fresh(url.data))
      ensures strMethod.data == old(strMethod.data) || fresh(strMethod.data)
      ensures strMethod.Contents() == Copied(old(strMethod.Contents()), MethodName(verb))
      ensures url.Contents() == Decode(Slice(old(buffer[..]), target)) + old(url.Contents())
      ensures ok == VersionOk(Slice(old(buffer[..]), version))
    {
      ghost var b := buffer[..];
      var _ := strMethod.CopyCString(MethodName(verb));
      assert buffer[..] == b;
      DecodeUrl(buffer, target);
      assert buffer[..] == b;
      ok := StrNEqual(buffer, version);
    }

    /** The request line: method, URL and version. */
    method ParseRequestLine(buffer: array<Byte>, line: Range) returns (ok: bool)
      requires Valid() && Separate(buffer) && LineDefined(buffer[..], line)
      modifies this`verb, strMethod, strMethod.data, url, url.data
      ensures Valid() && (url.data == old(url.data) || fresh(url.data))
      ensures strMethod.data == old(strMethod.data) || fresh(strMethod.data)
      ensures Applied(RequestLine(old(buffer[..]), line), old(verb), verb, old(url.Contents()), url.Contents(),
                      old(strMethod.Contents()), strMethod.Contents())
      ensures ok == RequestLine(old(buffer[..]), line).ok
    {
      ghost var b := buffer[..];
      PartsInside(b, line);
      var parts, count := SplitLine(buffer, line);
      assert buffer[..] == b;
      if count > 3 {
        return false;
      }
      verb := GetMethodFromString(buffer, parts[0]);
      if verb == MethodError {
        return false;
      }
      AfterUrl(b, line);
      ok := TakeUrl(buffer, parts[1], parts[2]);
    }

    /** The header lines, then the request line. */
    method ParseLines(buffer: array<Byte>, lines: array<Range>, count: nat, ghost ls: seq<Range>) returns (ok: bool)
      requires Valid() && Separate(buffer)
      requires 1 <= count <= lines.Length && ls == lines[..count] && InOrder(ls) && LinesDefined(buffer[..], ls)
      requires FirstClosed(buffer[..], ls)
      requires InsertAll(headers.View(), ParsedLines(buffer[..], ls).0).Some?
      modifies this`verb, buffer, strMethod, strMethod.data, url, url.data, headers, headers.items
      ensures Valid()
      ensures var (pairs, line) := ParsedLines(old(buffer[..]), ls);
        && ok == line.ok && Some(headers.View()) == InsertAll(old(headers.View()), pairs)
        && Applied(line, old(verb), verb, old(url.Contents()), url.Contents(),
                   old(strMethod.Contents()), strMethod.Contents())
      ensures OnlyValues(old(buffer[..]), buffer[..], ls[1..])
    {
      ghost var b := buffer[..];
      ok := ParseHeaders(buffer, lines, count, ls);
      if !ok {
        return false;
      }
      ghost var now := buffer[..];
      RequestLineKept(b, now, ls);
      assert lines[0] == ls[0];
      ok := ParseRequestLine(buffer, lines[0]);
      assert buffer[..] == now;
    }

    /** Parses the head of a request in place. */
    method Parse(raw: VString) returns (ok: bool)
      requires Valid() && raw.Valid() && raw != strMethod && raw != url && Separate(raw.data)
      requires Defined(raw.data[..], raw.length)
      requires InsertAll(headers.View(), Parsed(raw.data[..], raw.length).pairs).Some?
      modifies this, raw.data, strMethod, strMethod.data, url, url.data, headers, headers.items
      ensures Valid()
      ensures var o := Parsed(old(raw.data[..]), raw.length);
        && ok == o.line.ok && length == o.length
        && Some(headers.View()) == InsertAll(old(headers.View()), o.pairs)
        && verb == (if o.line.verb.Some? then o.line.verb.value else old(verb))
        && url.Contents() == (if o.line.url.Some? then o.line.url.value else []) + old(url.Contents())
        && strMethod.Contents() ==
           (if o.line.url.Some? then Copied(old(strMethod.Contents()), MethodName(verb)) else old(strMethod.Contents()))
      ensures ok <==> Accepted(old(raw.data[..]), raw.length)
      ensures OnlyValues(old(raw.data[..]), raw.data[..], LinesOf(old(raw.data[..])[..raw.length])[1..])
    {
      ghost var b := raw.data[..];
      ghost var ls := LinesOf(b[..raw.length]);
      ParsedIff(b, raw.length);
      var head, lines, count := SplitHead(raw.data, raw.length);
      assert raw.data[..] == b;
      FirstLineClosed(b, raw.length);
      length := head.len + 4;
      ok := ParseLines(raw.data, lines, count, ls);
    }
  }

  /** What a request line does to the method, the URL and the method's string: the decoded URL comes
      before the old one. */
  ghost predicate Applied(o: LineOutcome, verb0: Method, verb: Method, url0: Text, url: Text, str0: Text, str: Text) {
    && verb == (if o.verb.Some? then o.verb.value else verb0)
    && url == (if o.url.Some? then o.url.value else []) + url0
    && str == if o.url.Some? then Copied(str0, MethodName(verb)) else str0
  }

  method SplitLine(buffer: array<Byte>, line: Range) returns (parts: array<Range>, count: nat)
    requires Within(line, buffer.Length)
    ensures fresh(parts) && count <= parts.Length && parts[..count] == PartsOf(buffer[..], line)
    ensures forall k :: 0 <= k < count ==> parts[k] == PartsOf(buffer[..], line)[k]
  {
    SplitInOrder(Slice(buffer[..], line), [SPACE], 3);
    parts := new Range[4];
    count := SplitBySubstring(buffer, line, [SPACE], parts, 3);
    assert forall k :: 0 <= k < count ==> parts[k] == parts[..count][k];
  }

  /** The two splits that open a parse: the head, and its lines. The arrays have the cell more than
      the source's that a split may need. */
  method SplitHead(buffer: array<Byte>, n: nat) returns (head: Range, lines: array<Range>, count: nat)
    requires n <= buffer.Length
    ensures fresh(lines) && 1 <= count <= lines.Length
    ensures head == HeadOf(buffer[..][..n])
    ensures lines[..count] == LinesOf(buffer[..][..n]) && lines[0] == LinesOf(buffer[..][..n])[0]
    ensures InOrder(lines[..count])
  {
    ghost var b := buffer[..];
    LinesInOrder(b[..n]);
    SplitSizes(b, n);
    var split := new Range[3];
    var pieces := SplitBySubstring(buffer, Range(0, n), CRLFCRLF, split, 2);
    assert split[..pieces][0] == HeadOf(b[..n]);
    head := split[0];
    lines := new Range[65];
    count := SplitBySubstring(buffer, head, CRLF, lines, 64);
    assert lines[..count] == LinesOf(b[..n]);
    assert lines[..count][0] == lines[0];
  }

  /** The first two splits of a parse, on the buffer instead of its used part. */
  lemma SplitSizes(b: Text, n: nat)
    requires n <= |b|
    ensures Slice(b, Range(0, n)) == b[..n]
    ensures var split := Split(b[..n], CRLFCRLF, 2);
      |split| <= 3 && split != [] && OnBuffer(split[0], 0) == HeadOf(b[..n])
    ensures var head := HeadOf(b[..n]);
      && Within(head, |b|) && Slice(b, head) == Slice(b[..n], head)
      && |Split(Slice(b, head), CRLF, 64)| <= 65
      && Shifted(Split(Slice(b, head), CRLF, 64), head.start) == LinesOf(b[..n])
  {
    SplitInOrder(b[..n], CRLFCRLF, 2);
    var head := HeadOf(b[..n]);
    SliceSlice(b, 0, n, head.start, head.start + head.len);
    SplitInOrder(Slice(b, head), CRLF, 64);
  }

  /** In a request line of three pieces the URL is followed by a space. */
  lemma AfterUrl(b: Text, line: Range)
    requires Within(line, |b|) && 3 <= |PartsOf(b, line)|
    ensures var url := PartsOf(b, line)[1];
      url.start + url.len < line.start + line.len && b[url.start + url.len] == SPACE
  {
    PartsInside(b, line);
    ClosedBySeparator(Slice(b, line), [SPACE], 3, 1);
  }

  /** If there are header lines, the request line is followed by a CR. */
  predicate FirstClosed(b: Text, ls: seq<Range>) {
    |ls| > 1 ==> ls[0].start + ls[0].len < |b| && b[ls[0].start + ls[0].len] == CR
  }

  lemma FirstLineClosed(b: Text, n: nat)
    requires n <= |b|
    ensures FirstClosed(b, LinesOf(b[..n]))
  {
    if |LinesOf(b[..n])| > 1 {
      LineClosed(b[..n], 0);
    }
  }

  /** Header processing leaves the request line, and what the parser reads of it, as it was. */
  lemma RequestLineKept(b: Text, now: Text, ls: seq<Range>)
    requires InOrder(ls) && ls != [] && OnlyValues(b, now, ls[1..]) && LineDefined(b, ls[0]) && FirstClosed(b, ls)
    ensures LineDefined(now, ls[0]) && RequestLine(now, ls[0]) == RequestLine(b, ls[0])
  {
    var line := ls[0];
    if |ls| == 1 {
      assert now == b;
    } else {
      assert forall k :: 0 <= k < |ls[1..]| ==> ls[1..][k] == ls[k + 1];
      assert forall x :: 0 <= x < |b| && x <= line.start + line.len ==> !InValueOf(b, ls[1..], x);
      SameRequestLine(b, now, line);
    }
  }

  lemma SameRequestLine(b: Text, now: Text, line: Range)
    requires LineDefined(b, line) && |now| == |b|
    requires line.start + line.len < |b| && b[line.start + line.len] == CR
    requires forall x :: 0 <= x < |b| && x <= line.start + line.len ==> now[x] == b[x]
    ensures LineDefined(now, line) && RequestLine(now, line) == RequestLine(b, line)
  {
    assert Slice(now, line) == Slice(b, line);
    PartsInside(b, line);
    var parts := PartsOf(b, line);
    assert forall i :: 0 <= i < |parts| ==> Slice(now, parts[i]) == Slice(b, parts[i]);
    if |parts| <= 3 {
      AfterMethod(b, line);
      SameMethod(b, now, parts[0]);
    }
  }

  /** The method piece is followed by a space, or by the CR behind the line. */
  lemma AfterMethod(b: Text, line: Range)
    requires Within(line, |b|) && line.start + line.len < |b| && b[line.start + line.len] == CR
    ensures var m := PartsOf(b, line)[0];
      m.start + m.len <= line.start + line.len && (b[m.start + m.len] == SPACE || b[m.start + m.len] == CR)
  {
    PartsInside(b, line);
    var s := Slice(b, line);
    SplitEnds(s, [SPACE], 3, 0);
    var p := Split(s, [SPACE], 3)[0];
    if Occurs(s, [SPACE], p.start + p.len) {
      assert s[p.start + p.len] == s[p.start + p.len..p.start + p.len + 1][0];
    }
  }

  lemma SameName(b: Text, now: Text, m: Range, x: Method)
    requires Within(m, |b|) && |now| == |b| && Slice(now, m) == Slice(b, m) && m.len <= 7
    requires Ended(b, m) && Ended(now, m)
    ensures NameAt(b, m.start, x) <==> NameAt(now, m.start, x)
  {
    NameInView(b, m, x);
    NameInView(now, m, x);
  }

  lemma SameMethod(b: Text, now: Text, m: Range)
    requires Within(m, |b|) && |now| == |b| && Slice(now, m) == Slice(b, m)
    requires Ended(b, m) && Ended(now, m)
    ensures MethodAt(now, m) == MethodAt(b, m) && (MethodReadable(b, m) <==> MethodReadable(now, m))
  {
    if m.len <= 7 {
      SameName(b, now, m, Get);
      SameName(b, now, m, Head);
      SameName(b, now, m, Post);
      SameName(b, now, m, Put);
      SameName(b, now, m, Delete);
      SameName(b, now, m, Trace);
      SameName(b, now, m, Connect);
      SameName(b, now, m, Patch);
    }
  }

  /** `now` differs from `b` only in bytes of the values of the lines. */
  ghost predicate OnlyValues(b: Text, now: Text, lines: seq<Range>) {
    |now| == |b| && forall x :: 0 <= x < |b| && now[x] != b[x] ==> InValueOf(b, lines, x)
  }

  /** The header loop before line `i`: `now` is the buffer, `t` the table, `b` the original buffer and
      `target` the table all headers lead to. */
  ghost predicate Midway(b: Text, now: Text, ls: seq<Range>, i: nat, t: Table, target: Option<Table>)
    requires ls != [] && HeadersSafe(b, ls[1..])
  {
    && 1 <= i <= |ls| && OnlyValues(b, now, ls[1..])
    && HeadersSafe(b, ls[i..]) && 0 < |t.slots|
    && InsertAll(t, ScanHeaders(b, ls[i..]).pairs) == target && target.Some?
    && ScanHeaders(b, ls[i..]).ok == ScanHeaders(b, ls[1..]).ok
    && (i < |ls| ==> AgreeFrom(b, now, ls[i].start))
  }

  lemma MidwayStart(b: Text, ls: seq<Range>, t: Table)
    requires ls != [] && HeadersSafe(b, ls[1..]) && 0 < |t.slots|
    requires InsertAll(t, ScanHeaders(b, ls[1..]).pairs).Some?
    ensures Midway(b, b, ls, 1, t, InsertAll(t, ScanHeaders(b, ls[1..]).pairs))
  {
  }

  lemma MidwayDone(b: Text, now: Text, ls: seq<Range>, t: Table, target: Option<Table>)
    requires ls != [] && HeadersSafe(b, ls[1..]) && Midway(b, now, ls, |ls|, t, target)
    ensures ScanHeaders(b, ls[1..]).ok && target == Some(t) && OnlyValues(b, now, ls[1..])
  {
    assert ls[|ls|..] == [];
  }

  lemma HeaderStep(b: Text, now: Text, ls: seq<Range>, i: nat, t: Table, target: Option<Table>)
    requires ls != [] && HeadersSafe(b, ls[1..]) && Midway(b, now, ls, i, t, target) && i < |ls| && InOrder(ls)
    ensures var line := ls[i];
      && Within(line, |now|) && 0 <= Colon(now, line)
      && (Colon(now, line) == 0 ==> !ScanHeaders(b, ls[1..]).ok && target == Some(t))
      && (Colon(now, line) != 0 ==>
            && ValueSafe(now, line)
            && var one := Inserted(t, HeaderKey(now, line), HeaderValue(now, line) + [NUL]);
               one.Some? && Midway(b, AfterHeader(now, line), ls, i + 1, one.value, target))
  {
    var line, rest := ls[i], ls[i..];
    assert rest[0] == line && rest[1..] == ls[i + 1..];
    LineAgrees(b, now, line);
    if Colon(b, line) != 0 {
      ValueAgrees(b, now, line);
      FirstInsert(t, (HeaderKey(b, line), HeaderValue(b, line) + [NUL]), ScanHeaders(b, rest[1..]).pairs);
      WritesInside(b, now, ls, i);
    }
  }

  lemma FirstInsert(t: Table, pair: (Key, Text), rest: seq<(Key, Text)>)
    requires 0 < |t.slots| && InsertAll(t, [pair] + rest).Some?
    ensures var one := Inserted(t, pair.0, pair.1);
      one.Some? && InsertAll(t, [pair] + rest) == InsertAll(one.value, rest)
  {
    assert ([pair] + rest)[1..] == rest;
  }

  /** Processing line `i` changes only its own value bytes, and nothing of the later lines. */
  lemma WritesInside(b: Text, now: Text, ls: seq<Range>, i: nat)
    requires 1 <= i < |ls| && InOrder(ls) && AgreeFrom(b, now, ls[i].start) && Within(ls[i], |b|)
    requires 0 < Colon(b, ls[i]) && Colon(now, ls[i]) == Colon(b, ls[i]) && ValueSafe(now, ls[i])
    requires OnlyValues(b, now, ls[1..])
    ensures var r := AfterHeader(now, ls[i]);
      && OnlyValues(b, r, ls[1..])
      && (i + 1 < |ls| ==> AgreeFrom(b, r, ls[i + 1].start))
  {
    var r := AfterHeader(now, ls[i]);
    HeaderWrites(now, ls[i]);
    forall x | 0 <= x < |b| && r[x] != b[x] ensures InValueOf(b, ls[1..], x) {
      if r[x] != now[x] {
        assert ls[1..][i - 1] == ls[i] && ValueByte(b, ls[i], x);
      }
    }
  }

  /** `done` is what decoding emits for the bytes before index `i`. */
  ghost predicate Decoded(u: Text, i: nat, done: Text) {
    i <= |u| && done + Decode(u[i..]) == Decode(u)
  }

  lemma DecodedStart(u: Text)
    ensures Decoded(u, 0, [])
  {
    assert u[0..] == u;
  }

  lemma DecodedEnd(u: Text, done: Text)
    requires Decoded(u, |u|, done)
    ensures done == Decode(u)
  {
    assert u[|u|..] == [];
  }

  lemma DecodedNext(u: Text, i: nat, next: nat, done: Text, bytes: Text)
    requires Decoded(u, i, done) && next <= |u| && Decode(u[i..]) == bytes + Decode(u[next..])
    ensures Decoded(u, next, done + bytes)
  {
    var rest := Decode(u[next..]);
    assert done + (bytes + rest) == done + bytes + rest;
  }

  predicate EscapeAt(u: Text, i: nat) {
    i + 2 < |u| && u[i] == PERCENT && IsHex(u[i + 1]) && IsHex(u[i + 2])
  }

  function Escaped(u: Text, i: nat): Byte
    requires EscapeAt(u, i)
  {
    HexValue(u[i + 1]) * 16 + HexValue(u[i + 2])
  }

  /** The two look-aheads stop at the byte after the view, which is no hexadecimal digit. */
  method IsEscape(buffer: array<Byte>, view: Range, i: nat) returns (escape: bool)
    requires view.start + view.len < buffer.Length && !IsHex(buffer[view.start + view.len])
    requires i < view.len && buffer[view.start + i] == PERCENT
    ensures escape <==> EscapeAt(Slice(buffer[..], view), i)
    ensures escape ==> i + 2 < view.len && view.start + i + 2 < buffer.Length
                       && IsHex(buffer[view.start + i + 1]) && IsHex(buffer[view.start + i + 2])
  {
    ghost var u := Slice(buffer[..], view);
    assert i + 1 < |u| ==> u[i + 1] == buffer[view.start + i + 1];
    assert i + 2 < |u| ==> u[i + 2] == buffer[view.start + i + 2];
    return IsHex(buffer[view.start + i + 1]) && IsHex(buffer[view.start + i + 2]);
  }

  /** One round of decoding from index `i`. */
  lemma DecodeStep(u: Text, i: nat)
    requires i < |u|
    ensures EscapeAt(u, i) ==> Decode(u[i..]) == [Escaped(u, i)] + Decode(u[i + 3..])
    ensures !EscapeAt(u, i) && u[i] != PLUS ==> Decode(u[i..]) == [u[i]] + Decode(u[i + 1..])
    ensures u[i] == PLUS ==> Decode(u[i..]) == [SPACE, PLUS] + Decode(u[i + 1..])
  {
    var rest := u[i..];
    assert rest[1..] == u[i + 1..];
    if i + 2 < |u| {
      assert rest[3..] == u[i + 3..];
    }
  }
}
