/** `vstring` and the functions that read or rewrite a view of a buffer in place. */
module VStrings {
  import opened Basics
  import opened Splitting
  import opened Trimming

  const INIT_TEXT_SIZE: nat := 512

  // ---- raw memory ----

  /** What `memmove` leaves in a buffer: source and destination may overlap. */
  function Moved(b: Text, dst: nat, src: nat, n: nat): (r: Text)
    requires dst + n <= |b| && src + n <= |b|
    ensures |r| == |b|
  {
    b[..dst] + b[src..src + n] + b[dst + n..]
  }

  method MemMove(buffer: array<Byte>, dst: nat, src: nat, n: nat)
    requires dst + n <= buffer.Length && src + n <= buffer.Length
    modifies buffer
    ensures buffer[..] == Moved(old(buffer[..]), dst, src, n)
  {
    forall i | 0 <= i < n {
      buffer[dst + i] := buffer[src + i];
    }
  }

  /** A buffer with `bytes` written over it at `at`. */
  function Overwritten(b: Text, at: nat, bytes: Text): (r: Text)
    requires at + |bytes| <= |b|
    ensures |r| == |b|
  {
    b[..at] + bytes + b[at + |bytes|..]
  }

  /** `memcmp(buffer + at, sub, strlen(sub)) == 0`. */
  method MemEqual(buffer: array<Byte>, at: nat, sub: Text) returns (equal: bool)
    requires at + |sub| <= buffer.Length
    ensures equal <==> buffer[at..at + |sub|] == sub
  {
    for i := 0 to |sub|
      invariant forall j :: 0 <= j < i ==> buffer[at + j] == sub[j]
    {
      if buffer[at + i] != sub[i] {
        assert buffer[at..at + |sub|][i] != sub[i];
        return false;
      }
    }
    return true;
  }

  // ---- views ----

  method FindFirstCharOccurence(buffer: array<Byte>, view: Range, ch: Byte) returns (at: int)
    requires Within(view, buffer.Length)
    ensures at == FirstIndex(Slice(buffer[..], view), ch)
  {
    ghost var t := Slice(buffer[..], view);
    for i := 0 to view.len
      invariant forall j :: 0 <= j < i ==> t[j] != ch
    {
      assert buffer[view.start + i] == t[i];
      if buffer[view.start + i] == ch {
        FirstIndexIs(t, ch, i);
        return i;
      }
    }
    return -1;
  }

  /** `Data[i]` of a view. */
  function At(buffer: array<Byte>, view: Range, i: nat): (b: Byte)
    requires Within(view, buffer.Length) && i < view.len
    reads buffer
    ensures b == Slice(buffer[..], view)[i]
  {
    buffer[view.start + i]
  }

  lemma OverwrittenBytes(b: Text, at: nat, bytes: Text)
    requires at + |bytes| <= |b|
    ensures var r := Overwritten(b, at, bytes);
      && (forall i :: 0 <= i < |b| && !(at <= i < at + |bytes|) ==> r[i] == b[i])
      && r[at..at + |bytes|] == bytes
  {
  }

  /** The two loops of a trim: the first byte to keep and the last. On a view of whitespace only
      both would leave the view. */
  method TrimBounds(buffer: array<Byte>, view: Range) returns (start: nat, end: nat)
    requires Within(view, buffer.Length) && !Blank(Slice(buffer[..], view))
    ensures start <= end < view.len
    ensures var t := Slice(buffer[..], view); start == Lead(t) && end + 1 == TrailStart(t)
  {
    ghost var t := Slice(buffer[..], view);
    LeadBeforeTrail(t);
    start, end := 0, view.len - 1;
    while IsSpace(At(buffer, view, start))
      invariant start <= Lead(t)
      decreases Lead(t) - start
    {
      start := start + 1;
    }
    while IsSpace(At(buffer, view, end))
      invariant TrailStart(t) - 1 <= end < view.len
      decreases end
    {
      end := end - 1;
    }
  }

  /** The buffer after trimming a view of it. */
  function TrimmedIn(b: Text, view: Range): (r: Text)
    requires Within(view, |b|) && !Blank(Slice(b, view))
    ensures |r| == |b|
  {
    var t := Slice(b, view);
    LeadBeforeTrail(t);
    Moved(b, view.start, view.start + Lead(t), TrailStart(t) - Lead(t))
  }

  /** Trimming writes the trimmed text over the start of the view and changes nothing else. */
  lemma TrimOverwrites(b: Text, view: Range)
    requires Within(view, |b|) && !Blank(Slice(b, view))
    ensures var mid := Trimmed(Slice(b, view));
      |mid| <= view.len && TrimmedIn(b, view) == Overwritten(b, view.start, mid)
  {
    var t := Slice(b, view);
    LeadBeforeTrail(t);
    SliceSlice(b, view.start, view.start + view.len, Lead(t), TrailStart(t));
  }

  method Trim(buffer: array<Byte>, view: Range) returns (kept: Range)
    requires Within(view, buffer.Length) && !Blank(Slice(buffer[..], view))
    modifies buffer
    ensures buffer[..] == TrimmedIn(old(buffer[..]), view)
    ensures kept == Range(view.start, |Trimmed(old(Slice(buffer[..], view)))|)
  {
    ghost var b := buffer[..];
    var start, end := TrimBounds(buffer, view);
    var newLen := end + 1 - start;
    assert TrimmedIn(b, view) == Moved(b, view.start, view.start + start, newLen);
    MemMove(buffer, view.start, view.start + start, newLen);
    kept := Range(view.start, newLen);
  }

  /** The splitting loop from index `i` on, with the pieces `done` found so far. */
  function SplitFrom(t: Text, sep: Text, size: nat, done: seq<Range>, i: nat, check: nat, start: nat): (all: seq<Range>)
    requires check < |sep| && start + check <= i <= |t|
    ensures |done| <= |all|
    decreases |t| - i
  {
    if i == |t| then done + [Range(start, i - start)]
    else if t[i] != sep[check] then SplitFrom(t, sep, size, done, i + 1, 0, start)
    else if check + 1 < |sep| then SplitFrom(t, sep, size, done, i + 1, check + 1, start)
    else if |done| >= size then done
    else if i - check == start then SplitFrom(t, sep, size, done, i + 1, 0, i + 1)
    else SplitFrom(t, sep, size, done + [Range(start, i - check - start)], i + 1, 0, i + 1)
  }

  /** The loop finds the pieces between the recognised separators. */
  lemma {:induction false} SplitFromPieces(t: Text, sep: Text, size: nat, done: seq<Range>, i: nat, check: nat,
                                           start: nat)
    requires check < |sep| && start + check <= i <= |t| && |done| <= size
    requires Spaced(Hits(t, sep, i, check), |sep|, start, |t|)
    ensures SplitFrom(t, sep, size, done, i, check, start) ==
            done + Pieces(Hits(t, sep, i, check), |sep|, start, |t|, size - |done|)
    decreases |t| - i
  {
    if i < |t| {
      if t[i] != sep[check] {
        SplitFromPieces(t, sep, size, done, i + 1, 0, start);
      } else if check + 1 < |sep| {
        SplitFromPieces(t, sep, size, done, i + 1, check + 1, start);
      } else if |done| < size {
        var rest := Hits(t, sep, i + 1, 0);
        assert ([i + 1] + rest)[1..] == rest;
        if i - check == start {
          SplitFromPieces(t, sep, size, done, i + 1, 0, i + 1);
        } else {
          var piece := Range(start, i - check - start);
          SplitFromPieces(t, sep, size, done + [piece], i + 1, 0, i + 1);
          var more := Pieces(rest, |sep|, i + 1, |t|, size - |done| - 1);
          assert done + ([piece] + more) == done + [piece] + more;
        }
      }
    }
  }

  lemma SplitFromStart(t: Text, sep: Text, size: nat)
    requires sep != []
    ensures SplitFrom(t, sep, size, [], 0, 0, 0) == Split(t, sep, size)
  {
    HitsGenuine(t, sep, 0, 0, 0);
    GenuineIsSpaced(t, sep, Hits(t, sep, 0, 0), 0);
    SplitFromPieces(t, sep, size, [], 0, 0, 0);
  }

  /** Splits the view at the recognised separators. The last piece may need one cell more than `size`. */
  method SplitBySubstring(buffer: array<Byte>, view: Range, sep: Text, result: array<Range>, size: nat)
    returns (count: nat)
    requires Within(view, buffer.Length)
    requires sep != [] ==> |Split(Slice(buffer[..], view), sep, size)| <= result.Length
    modifies result
    ensures sep == [] ==> count == 0 && result[..] == old(result[..])
    ensures sep != [] ==>
              var pieces := Split(Slice(buffer[..], view), sep, size);
              count == |pieces| <= result.Length && result[..count] == Shifted(pieces, view.start)
  {
    if |sep| == 0 {
      return 0;
    }
    ghost var t, done: seq<Range> := Slice(buffer[..], view), [];
    SplitFromStart(t, sep, size);
    ghost var all := SplitFrom(t, sep, size, done, 0, 0, 0);
    var resultCursor, check, start := 0, 0, 0;
    for i := 0 to view.len
      invariant check < |sep| && start + check <= i
      invariant resultCursor == |done| <= |all| <= result.Length
      invariant SplitFrom(t, sep, size, done, i, check, start) == all
      invariant result[..resultCursor] == Shifted(done, view.start)
    {
      if At(buffer, view, i) == sep[check] {
        check := check + 1;
        if |sep| == check {
          if resultCursor < size {
            var len := i + 1 - |sep| - start;
            if len != 0 {
              ShiftedAppend(done, Range(start, len), view.start);
              result[resultCursor] := Range(view.start + start, len);
              resultCursor, done := resultCursor + 1, done + [Range(start, len)];
            }
            start := i + 1;
            check := 0;
          } else {
            return resultCursor;
          }
        }
      } else {
        check := 0;
      }
    }
    ShiftedAppend(done, Range(start, view.len - start), view.start);
    result[resultCursor] := Range(view.start + start, view.len - start);
    return resultCursor + 1;
  }

  /** A piece of a view, as a stretch of its buffer. */
  function OnBuffer(piece: Range, base: nat): Range {
    Range(base + piece.start, piece.len)
  }

  function Shifted(pieces: seq<Range>, base: nat): (r: seq<Range>)
    ensures |r| == |pieces|
    ensures forall i :: 0 <= i < |r| ==> r[i] == OnBuffer(pieces[i], base)
  {
    seq(|pieces|, i requires 0 <= i < |pieces| => OnBuffer(pieces[i], base))
  }

  lemma ShiftedAppend(pieces: seq<Range>, piece: Range, base: nat)
    ensures Shifted(pieces + [piece], base) == Shifted(pieces, base) + [OnBuffer(piece, base)]
  {
  }

  // ---- the string builder ----

  /** The capacity that doubling gives. */
  function GrownCapacity(capacity: nat): (n: nat)
    ensures capacity == 0 ==> n == 512
    ensures capacity > 0 ==> n == 2 * capacity
  {
    if capacity == 0 then INIT_TEXT_SIZE else capacity * 2
  }

  class VString {
    var data: array<Byte>
    var length: nat
    var capacity: nat

    ghost predicate Allocated()
      reads this
    {
      capacity == data.Length
    }

    ghost predicate Valid()
      reads this
    {
      Allocated() && length <= capacity
    }

    ghost function Contents(): Text
      reads this, data
      requires Valid()
    {
      data[..length]
    }

    constructor WithCapacity(size: nat)
      ensures Valid() && fresh(data) && Contents() == []
      ensures capacity == if size == 0 then 512 else size
    {
      var n := if size == 0 then INIT_TEXT_SIZE else size;
      data := new Byte[n](_ => 0);
      length, capacity := 0, n;
    }

    /** `realloc`: zero asks for twice the capacity. Shrinking keeps a prefix of the bytes. */
    method Resize(size: nat)
      requires Allocated()
      modifies this
      ensures Allocated() && fresh(data) && length == old(length)
      ensures capacity == if size != 0 then size else GrownCapacity(old(capacity))
      ensures var n := if capacity < old(capacity) then capacity else old(capacity);
        data[..n] == old(data[..n])
    {
      var n := if size != 0 then size else if capacity == 0 then INIT_TEXT_SIZE else capacity * 2;
      var bytes := new Byte[n];
      var kept := if n < capacity then n else capacity;
      forall i | 0 <= i < kept {
        bytes[i] := data[i];
      }
      data, capacity := bytes, n;
    }

    method Append(ch: Byte)
      requires Valid()
      modifies this, data
      ensures Valid() && (data == old(data) || fresh(data))
      ensures Contents() == old(Contents()) + [ch]
      ensures capacity == if old(length) < old(capacity) then old(capacity) else GrownCapacity(old(capacity))
    {
      if length >= capacity {
        Resize(0);
      }
      data[length] := ch;
      length := length + 1;
    }

    method Insert(at: nat, ch: Byte)
      requires Valid() && at <= length
      modifies this, data
      ensures Valid() && (data == old(data) || fresh(data))
      ensures Contents() == old(Contents())[..at] + [ch] + old(Contents())[at..]
      ensures capacity == if old(length) + 1 < old(capacity) then old(capacity) else GrownCapacity(old(capacity))
    {
      ghost var before := Contents();
      if length + 1 >= capacity {
        Resize(0);
        assert Contents() == before;
      }
      MemMove(data, at + 1, at, length - at);
      data[at] := ch;
      length := length + 1;
    }

    method Remove(at: nat)
      requires Valid()
      modifies this, data
      ensures Valid() && data == old(data)
      ensures Contents() ==
              if at < old(length) then old(Contents())[..at] + old(Contents())[at + 1..] else old(Contents())
    {
      if at >= length {
        return;
      }
      MemMove(data, at, at + 1, length - at - 1);
      length := length - 1;
    }

    /** Doubles the capacity until `n` bytes and one more fit. */
    method Reserve(n: nat)
      requires Valid()
      modifies this
      ensures Valid() && n < capacity && (data == old(data) || fresh(data))
      ensures length == old(length) && Contents() == old(Contents())
      ensures capacity == old(capacity) || capacity <= 512 || capacity <= 2 * n
    {
      while n >= capacity
        invariant Valid() && length == old(length) && Contents() == old(Contents())
        invariant capacity == old(capacity) || capacity <= 512 || capacity <= 2 * n
        invariant data == old(data) || fresh(data)
        decreases n - capacity
      {
        ghost var before := Contents();
        Resize(0);
        assert Contents() == before;
      }
    }

    /** With one object on both sides the source would grow as it is read. */
    method Concat(src: VString)
      requires Valid() && src.Valid() && this != src && data != src.data
      modifies this, data
      ensures Valid() && (data == old(data) || fresh(data))
      ensures Contents() == old(Contents()) + old(src.Contents())
    {
      ghost var before, more := Contents(), src.Contents();
      Reserve(src.length + length);
      for i := 0 to src.length
        invariant Valid() && (data == old(data) || fresh(data)) && src.Valid() && data != src.data
        invariant src.Contents() == more && Contents() == before + more[..i]
      {
        assert src.data[i] == more[i];
        Append(src.data[i]);
      }
    }

    /** `memset(Data, 0, Length)`. */
    method MemSetZero()
      requires Valid()
      modifies data
      ensures Contents() == Zeros(length)
    {
      forall i | 0 <= i < length {
        data[i] := NUL;
      }
    }

    /** Copies a C string. The old bytes are zeroed but the new ones are appended after them, so only
        an empty destination ends up holding the string. */
    method CopyCString(src: Key) returns (copied: nat)
      requires Valid()
      modifies this, data
      ensures Valid() && (data == old(data) || fresh(data))
      ensures copied == |src| && Contents() == Copied(old(Contents()), src)
    {
      Reserve(|src|);
      if length != 0 {
        MemSetZero();
      }
      ghost var zeros := Zeros(length);
      for i := 0 to |src|
        invariant Valid() && (data == old(data) || fresh(data))
        invariant Contents() == zeros + src[..i]
      {
        Append(src[i]);
      }
      length := |src|;
      return |src|;
    }
  }

  function Zeros(n: nat): (z: Text)
    ensures |z| == n && forall i :: 0 <= i < n ==> z[i] == NUL
  {
    seq(n, _ => NUL)
  }

  function Copied(before: Text, src: Key): Text {
    (Zeros(|before|) + src)[..|src|]
  }

  /** `CopyCString` copies exactly when the destination was empty, or there is nothing to copy. */
  lemma CopiedIff(before: Text, src: Key)
    ensures |Copied(before, src)| == |src|
    ensures forall i :: 0 <= i < |src| ==> Copied(before, src)[i] == if i < |before| then 0 else src[i - |before|]
    ensures Copied(before, src) == src <==> before == [] || src == []
  {
    if before != [] && src != [] {
      assert Copied(before, src)[0] == NUL && src[0] != NUL;
    }
  }

  /** `VString_FindSubstring`. Each comparison reads `|sub|` bytes, also where fewer remain. */
  method FindSubstring(buffer: array<Byte>, length: nat, sub: Text) returns (end: nat)
    requires length <= buffer.Length && (sub != [] ==> FindReadable(buffer[..], length, sub))
    ensures end == if sub == [] then 0 else FindIn(buffer[..], length, sub, 0)
  {
    if |sub| == 0 {
      return 0;
    }
    for i := 0 to length
      invariant FindIn(buffer[..], length, sub, 0) == FindIn(buffer[..], length, sub, i)
    {
      if FindIn(buffer[..], length, sub, i) != 0 {
        FoundInside(buffer[..], length, sub, i);
      }
      var equal := MemEqual(buffer, i, sub);
      assert buffer[..][i..i + |sub|] == buffer[i..i + |sub|];
      if equal {
        return i + |sub|;
      }
    }
    return 0;
  }
}
