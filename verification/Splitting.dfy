/** The separator matcher of `VString_SplitBySubstring`, the pieces it yields, and how it compares
    with searching for the separator. */
module Splitting {
  import opened Basics

  /** A stretch of a text or buffer. */
  datatype Range = Range(start: nat, len: nat)

  predicate Within(r: Range, n: nat) {
    r.start + r.len <= n
  }

  function Slice(t: Text, r: Range): (s: Text)
    requires Within(r, |t|)
    ensures |s| == r.len
  {
    t[r.start..r.start + r.len]
  }

  predicate Occurs(t: Text, sep: Text, p: nat) {
    p + |sep| <= |t| && t[p..p + |sep|] == sep
  }

  // ---- the matcher as written ----

  /** Where the one-counter matcher recognises separators: the indices just past them. On a
      mismatch the counter drops to zero and the mismatching byte is not looked at again. */
  function Hits(t: Text, sep: Text, i: nat, check: nat): seq<nat>
    requires check < |sep| && i <= |t|
    decreases |t| - i
  {
    if i == |t| then []
    else if t[i] != sep[check] then Hits(t, sep, i + 1, 0)
    else if check + 1 == |sep| then [i + 1] + Hits(t, sep, i + 1, 0)
    else Hits(t, sep, i + 1, check + 1)
  }

  /** The pieces between recognised separators of length `m`, from `start` on, with room for `room`
      closed pieces: empty closed pieces are dropped, the last piece is kept even when empty, and a
      separator met with no room left ends the split without a last piece. */
  function Pieces(hits: seq<nat>, m: nat, start: nat, end: nat, room: nat): seq<Range>
    requires Spaced(hits, m, start, end)
    decreases hits
  {
    if hits == [] then [Range(start, end - start)]
    else if room == 0 then []
    else
      var len := hits[0] - m - start;
      if len == 0 then Pieces(hits[1..], m, hits[0], end, room)
      else [Range(start, len)] + Pieces(hits[1..], m, hits[0], end, room - 1)
  }

  predicate Spaced(hits: seq<nat>, m: nat, start: nat, end: nat)
    decreases hits
  {
    start <= end &&
    (hits != [] ==> start + m <= hits[0] && Spaced(hits[1..], m, hits[0], end))
  }

  /** Every recognised separator is one, and they do not overlap. */
  ghost predicate Genuine(t: Text, sep: Text, hits: seq<nat>, start: nat)
    decreases hits
  {
    hits != [] ==> && start + |sep| <= hits[0] <= |t| && t[hits[0] - |sep|..hits[0]] == sep
                   && Genuine(t, sep, hits[1..], hits[0])
  }

  lemma {:induction false} GenuineIsSpaced(t: Text, sep: Text, hits: seq<nat>, start: nat)
    requires Genuine(t, sep, hits, start) && start <= |t|
    ensures Spaced(hits, |sep|, start, |t|)
    decreases hits
  {
    if hits != [] {
      GenuineIsSpaced(t, sep, hits[1..], hits[0]);
    }
  }

  lemma {:induction false} HitsGenuine(t: Text, sep: Text, i: nat, check: nat, start: nat)
    requires check < |sep| && i <= |t| && start + check <= i && t[i - check..i] == sep[..check]
    ensures Genuine(t, sep, Hits(t, sep, i, check), start)
    decreases |t| - i
  {
    if i < |t| {
      if t[i] != sep[check] {
        HitsGenuine(t, sep, i + 1, 0, start);
      } else {
        assert t[i - check..i + 1] == t[i - check..i] + [t[i]] == sep[..check + 1];
        if check + 1 == |sep| {
          assert sep[..|sep|] == sep;
          HitsGenuine(t, sep, i + 1, 0, i + 1);
        } else {
          HitsGenuine(t, sep, i + 1, check + 1, start);
        }
      }
    }
  }

  /** `VString_SplitBySubstring` as a function of the text. */
  function Split(t: Text, sep: Text, size: nat): seq<Range>
    requires sep != []
  {
    HitsGenuine(t, sep, 0, 0, 0);
    GenuineIsSpaced(t, sep, Hits(t, sep, 0, 0), 0);
    Pieces(Hits(t, sep, 0, 0), |sep|, 0, |t|, size)
  }

  // ---- tiling ----

  /** All gaps between recognised separators, empty ones included. */
  function Gaps(hits: seq<nat>, m: nat, start: nat, end: nat): (g: seq<Range>)
    requires Spaced(hits, m, start, end)
    ensures |g| == |hits| + 1
    decreases hits
  {
    if hits == [] then [Range(start, end - start)]
    else [Range(start, hits[0] - m - start)] + Gaps(hits[1..], m, hits[0], end)
  }

  function NonEmpty(g: seq<Range>): (r: seq<Range>)
    ensures |r| <= |g|
  {
    if g == [] then [] else (if g[0].len == 0 then [] else [g[0]]) + NonEmpty(g[1..])
  }

  /** Texts joined by a separator. */
  function Join(ts: seq<Text>, sep: Text): Text {
    if ts == [] then []
    else if |ts| == 1 then ts[0]
    else ts[0] + sep + Join(ts[1..], sep)
  }

  function Slices(t: Text, g: seq<Range>): (ts: seq<Text>)
    requires forall i :: 0 <= i < |g| ==> Within(g[i], |t|)
    ensures |ts| == |g|
  {
    if g == [] then [] else [Slice(t, g[0])] + Slices(t, g[1..])
  }

  /** The gaps and the recognised separators tile the text. */
  lemma {:induction false} GapsTile(t: Text, sep: Text, hits: seq<nat>, start: nat)
    requires Genuine(t, sep, hits, start) && Spaced(hits, |sep|, start, |t|)
    ensures var g := Gaps(hits, |sep|, start, |t|);
      (forall i :: 0 <= i < |g| ==> Within(g[i], |t|) && start <= g[i].start) && Join(Slices(t, g), sep) == t[start..]
    decreases hits
  {
    var g := Gaps(hits, |sep|, start, |t|);
    if hits != [] {
      GapsTile(t, sep, hits[1..], hits[0]);
      var rest := Gaps(hits[1..], |sep|, hits[0], |t|);
      assert g[1..] == rest;
      assert forall i :: 1 <= i < |g| ==> g[i] == rest[i - 1];
      assert Slices(t, g)[1..] == Slices(t, rest);
      assert t[start..] == t[start..hits[0] - |sep|] + t[hits[0] - |sep|..hits[0]] + t[hits[0]..];
    }
  }

  /** A separator is met when there is no room for another piece. */
  predicate CutOff(hits: seq<nat>, m: nat, start: nat, end: nat, room: nat)
    requires Spaced(hits, m, start, end)
    decreases hits
  {
    hits != [] && (room == 0 ||
      CutOff(hits[1..], m, hits[0], end, if hits[0] - m == start then room else room - 1))
  }

  /** The result of a split, in terms of the gaps: the non-empty closed gaps and the last gap, or,
      when the split was cut off, the first `room` of the non-empty closed gaps. */
  lemma {:induction false} PiecesAreGaps(hits: seq<nat>, m: nat, start: nat, end: nat, room: nat)
    requires Spaced(hits, m, start, end)
    ensures var g := Gaps(hits, m, start, end);
      var closed := NonEmpty(g[..|hits|]);
      if CutOff(hits, m, start, end, room)
      then room <= |closed| && Pieces(hits, m, start, end, room) == closed[..room]
      else |closed| <= room && Pieces(hits, m, start, end, room) == closed + [g[|hits|]]
    decreases hits
  {
    if hits != [] && room > 0 {
      var g := Gaps(hits, m, start, end);
      var room' := if g[0].len == 0 then room else room - 1;
      PiecesAreGaps(hits[1..], m, hits[0], end, room');
      var rest := Gaps(hits[1..], m, hits[0], end);
      assert g[..|hits|] == [g[0]] + rest[..|hits| - 1];
      assert g[..|hits|][1..] == rest[..|hits| - 1];
    }
  }

  /** Splitting any text: the recognised separators are genuine and, with the gaps between them, tile
      the text; the pieces are the non-empty closed gaps and the last gap, or the first `size` closed ones. */
  lemma SplitTiles(t: Text, sep: Text, size: nat)
    requires sep != []
    ensures var hits := Hits(t, sep, 0, 0);
      && Genuine(t, sep, hits, 0) && Spaced(hits, |sep|, 0, |t|)
      && var g := Gaps(hits, |sep|, 0, |t|);
         var closed := NonEmpty(g[..|hits|]);
         && (forall i :: 0 <= i < |g| ==> Within(g[i], |t|))
         && Join(Slices(t, g), sep) == t
         && if CutOff(hits, |sep|, 0, |t|, size)
            then size <= |closed| && Split(t, sep, size) == closed[..size]
            else |closed| <= size && Split(t, sep, size) == closed + [g[|hits|]]
  {
    var hits := Hits(t, sep, 0, 0);
    HitsGenuine(t, sep, 0, 0, 0);
    GenuineIsSpaced(t, sep, hits, 0);
    GapsTile(t, sep, hits, 0);
    assert t[0..] == t;
    PiecesAreGaps(hits, |sep|, 0, |t|, size);
  }

  /** The pieces lie in order inside the text, at least a separator apart, and all but the last are
      non-empty. There are at most `size + 1` of them; the extra one is the last piece of a split
      that was not cut off and had exactly `size` non-empty pieces before it. */
  lemma {:induction false} PiecesInOrder(hits: seq<nat>, m: nat, start: nat, end: nat, room: nat)
    requires Spaced(hits, m, start, end)
    ensures var ps := Pieces(hits, m, start, end, room);
      && |ps| <= room + 1 && (0 < room ==> 0 < |ps|)
      && (forall i :: 0 <= i < |ps| ==> start <= ps[i].start && Within(ps[i], end))
      && (forall i, j :: 0 <= i < j < |ps| ==> ps[i].start + ps[i].len + m <= ps[j].start)
      && (forall i :: 0 <= i < |ps| - 1 ==> 0 < ps[i].len)
    decreases hits
  {
    if hits != [] && room > 0 {
      SpacedEnd(hits, m, start, end);
      var len := hits[0] - m - start;
      var rest := Pieces(hits[1..], m, hits[0], end, if len == 0 then room else room - 1);
      PiecesInOrder(hits[1..], m, hits[0], end, if len == 0 then room else room - 1);
      var ps := Pieces(hits, m, start, end, room);
      if len != 0 {
        assert ps == [Range(start, len)] + rest;
        assert forall i :: 1 <= i < |ps| ==> ps[i] == rest[i - 1];
      }
    }
  }

  lemma {:induction false} SpacedEnd(hits: seq<nat>, m: nat, start: nat, end: nat)
    requires Spaced(hits, m, start, end) && hits != []
    ensures hits[0] <= end
    decreases hits
  {
  }

  /** The result needs a cell beyond `size` exactly when the split is not cut off and fills all `size`
      cells with closed pieces. */
  lemma OverflowIff(t: Text, sep: Text, size: nat)
    requires sep != []
    ensures |Split(t, sep, size)| <= size + 1
    ensures var hits := Hits(t, sep, 0, 0);
      && Spaced(hits, |sep|, 0, |t|)
      && (|Split(t, sep, size)| == size + 1 <==>
            !CutOff(hits, |sep|, 0, |t|, size) && |NonEmpty(Gaps(hits, |sep|, 0, |t|)[..|hits|])| == size)
  {
    var hits := Hits(t, sep, 0, 0);
    HitsGenuine(t, sep, 0, 0, 0);
    GenuineIsSpaced(t, sep, hits, 0);
    PiecesAreGaps(hits, |sep|, 0, |t|, size);
  }

  /** Every piece but the last ends at a genuine separator. */
  lemma {:induction false} PiecesClosed(t: Text, sep: Text, hits: seq<nat>, start: nat, room: nat, k: nat)
    requires Genuine(t, sep, hits, start) && Spaced(hits, |sep|, start, |t|)
    requires k + 1 < |Pieces(hits, |sep|, start, |t|, room)|
    ensures var p := Pieces(hits, |sep|, start, |t|, room)[k]; Occurs(t, sep, p.start + p.len)
    decreases hits
  {
    var len := hits[0] - |sep| - start;
    if len == 0 {
      PiecesClosed(t, sep, hits[1..], hits[0], room, k);
    } else if k > 0 {
      PiecesClosed(t, sep, hits[1..], hits[0], room - 1, k - 1);
    }
  }

  lemma ClosedBySeparator(t: Text, sep: Text, size: nat, k: nat)
    requires sep != [] && k + 1 < |Split(t, sep, size)|
    ensures var p := Split(t, sep, size)[k]; Occurs(t, sep, p.start + p.len)
  {
    HitsGenuine(t, sep, 0, 0, 0);
    GenuineIsSpaced(t, sep, Hits(t, sep, 0, 0), 0);
    PiecesClosed(t, sep, Hits(t, sep, 0, 0), 0, size, k);
  }

  /** A piece that is not closed by a separator ends the text. */
  lemma {:induction false} PieceEnds(t: Text, sep: Text, hits: seq<nat>, start: nat, room: nat, k: nat)
    requires Genuine(t, sep, hits, start) && Spaced(hits, |sep|, start, |t|)
    requires k < |Pieces(hits, |sep|, start, |t|, room)|
    ensures var p := Pieces(hits, |sep|, start, |t|, room)[k];
      p.start + p.len == |t| || Occurs(t, sep, p.start + p.len)
    decreases hits
  {
    if hits != [] && room > 0 {
      if hits[0] - |sep| == start {
        PieceEnds(t, sep, hits[1..], hits[0], room, k);
      } else if k > 0 {
        PieceEnds(t, sep, hits[1..], hits[0], room - 1, k - 1);
      }
    }
  }

  lemma SplitEnds(t: Text, sep: Text, size: nat, k: nat)
    requires sep != [] && k < |Split(t, sep, size)|
    ensures var p := Split(t, sep, size)[k]; p.start + p.len == |t| || Occurs(t, sep, p.start + p.len)
  {
    HitsGenuine(t, sep, 0, 0, 0);
    GenuineIsSpaced(t, sep, Hits(t, sep, 0, 0), 0);
    PieceEnds(t, sep, Hits(t, sep, 0, 0), 0, size, k);
  }

  // ---- searching for the separator ----

  /** The first occurrence of `sep` at or after `from`. */
  function FirstAt(t: Text, sep: Text, from: nat): (r: Option<nat>)
    ensures r.Some? ==> from <= r.value && Occurs(t, sep, r.value)
    ensures r.Some? ==> forall p :: from <= p < r.value ==> !Occurs(t, sep, p)
    ensures r.None? ==> forall p :: from <= p ==> !Occurs(t, sep, p)
    decreases |t| - from
  {
    if from + |sep| > |t| then None
    else if Occurs(t, sep, from) then Some(from)
    else FirstAt(t, sep, from + 1)
  }

  /** The leftmost non-overlapping occurrences of the separator: the indices just past them. */
  function TrueHits(t: Text, sep: Text, from: nat): seq<nat>
    requires sep != []
    decreases |t| - from
  {
    match FirstAt(t, sep, from)
    case None => []
    case Some(p) => [p + |sep|] + TrueHits(t, sep, p + |sep|)
  }

  lemma {:induction false} TrueHitsGenuine(t: Text, sep: Text, from: nat)
    requires sep != []
    ensures Genuine(t, sep, TrueHits(t, sep, from), from)
    decreases |t| - from
  {
    if FirstAt(t, sep, from).Some? {
      TrueHitsGenuine(t, sep, FirstAt(t, sep, from).value + |sep|);
    }
  }

  /** Splitting at the leftmost non-overlapping occurrences, with the same treatment of empty
      pieces and of `size`. */
  function TrueSplit(t: Text, sep: Text, size: nat): seq<Range>
    requires sep != []
  {
    TrueHitsGenuine(t, sep, 0);
    GenuineIsSpaced(t, sep, TrueHits(t, sep, 0), 0);
    Pieces(TrueHits(t, sep, 0), |sep|, 0, |t|, size)
  }

  lemma {:induction false} OneByteHits(t: Text, b: Byte, from: nat)
    requires from <= |t|
    ensures Hits(t, [b], from, 0) == TrueHits(t, [b], from)
    decreases |t| - from
  {
    if from < |t| {
      OneByteHits(t, b, from + 1);
      assert t[from..from + 1] == [t[from]];
      assert Occurs(t, [b], from) <==> t[from] == b;
    }
  }

  /** For a one-byte separator the matcher is a true split, on any text. */
  lemma OneByteSplit(t: Text, b: Byte, size: nat)
    ensures Split(t, [b], size) == TrueSplit(t, [b], size)
  {
    OneByteHits(t, b, 0);
  }

  /** From `from` on the matcher recognises exactly the leftmost non-overlapping occurrences. */
  predicate Agree(t: Text, sep: Text, from: nat)
    requires sep != [] && from <= |t|
  {
    Hits(t, sep, from, 0) == TrueHits(t, sep, from)
  }

  // ---- separators made of CRLFs ----

  /** One or more CRLFs. */
  predicate Crlfs(sep: Text) {
    2 <= |sep| && |sep| % 2 == 0 && forall i :: 0 <= i < |sep| ==> sep[i] == if i % 2 == 0 then CR else LF
  }

  /** How many CRs end just before index `i`. */
  function CrRun(t: Text, i: nat): (n: nat)
    requires i <= |t|
    ensures n <= i
  {
    if i > 0 && t[i - 1] == CR then CrRun(t, i - 1) + 1 else 0
  }

  /** Every occurrence of the separator starts with the last CR of a run of odd length. */
  ghost predicate OddRuns(t: Text, sep: Text, from: nat) {
    forall p: nat :: from <= p < |t| && Occurs(t, sep, p) ==> CrRun(t, p + 1) % 2 == 1
  }

  /** The matcher's counter `c` at index `i`, with nothing recognised since `from`. */
  ghost predicate Counter(t: Text, sep: Text, from: nat, i: nat, c: nat) {
    && from + c <= i <= |t| && c < |sep| && t[i - c..i] == sep[..c]
    && c % 2 == CrRun(t, i) % 2
  }

  lemma CounterStep(t: Text, sep: Text, from: nat, i: nat, c: nat)
    requires Crlfs(sep) && Counter(t, sep, from, i, c) && i < |t| && (t[i] == sep[c] ==> c + 1 < |sep|)
    ensures Counter(t, sep, from, i + 1, if t[i] == sep[c] then c + 1 else 0)
  {
    assert sep[c] == if c % 2 == 0 then CR else LF;
    assert CrRun(t, i + 1) == if t[i] == CR then CrRun(t, i) + 1 else 0;
    if t[i] == sep[c] {
      assert t[i - c..i + 1] == t[i - c..i] + [t[i]] == sep[..c + 1];
    } else {
      assert t[i + 1..i + 1] == sep[..0];
    }
  }

  /** Completing the counter completes an occurrence. */
  lemma CounterFull(t: Text, sep: Text, from: nat, i: nat, c: nat)
    requires Counter(t, sep, from, i, c) && i < |t| && t[i] == sep[c] && c + 1 == |sep|
    ensures Occurs(t, sep, i - c)
  {
    assert t[i - c..i + 1] == t[i - c..i] + [t[i]] == sep[..c] + [sep[c]] == sep;
  }

  /** Up to the first occurrence the matcher recognises nothing, and its counter has the parity of
      the CRs it has just passed. */
  lemma {:induction false} Advance(t: Text, sep: Text, from: nat, i: nat, c: nat, p: nat) returns (c': nat)
    requires Crlfs(sep) && Counter(t, sep, from, i, c) && i <= p && Occurs(t, sep, p)
    requires forall q :: from <= q < p ==> !Occurs(t, sep, q)
    ensures Counter(t, sep, from, p, c')
    ensures Hits(t, sep, i, c) == Hits(t, sep, p, c')
    decreases p - i
  {
    if i == p {
      return c;
    }
    if t[i] == sep[c] && c + 1 == |sep| {
      CounterFull(t, sep, from, i, c);
    }
    CounterStep(t, sep, from, i, c);
    c' := Advance(t, sep, from, i + 1, if t[i] == sep[c] then c + 1 else 0, p);
  }

  /** From a zero counter a separator is recognised byte by byte. */
  lemma {:induction false} RunThrough(t: Text, sep: Text, p: nat, k: nat)
    requires Occurs(t, sep, p) && k < |sep|
    ensures Hits(t, sep, p, 0) == Hits(t, sep, p + k, k)
    ensures k == |sep| - 1 ==> Hits(t, sep, p, 0) == [p + |sep|] + Hits(t, sep, p + |sep|, 0)
    decreases k
  {
    assert t[p + k] == t[p..p + |sep|][k];
    if k > 0 {
      assert t[p + k - 1] == t[p..p + |sep|][k - 1];
      RunThrough(t, sep, p, k - 1);
    }
  }

  /** An even, positive counter before an occurrence would make an earlier occurrence. */
  lemma EvenCounterIsZero(t: Text, sep: Text, from: nat, p: nat, c: nat)
    requires Crlfs(sep) && Counter(t, sep, from, p, c) && Occurs(t, sep, p) && c % 2 == 0
    requires forall q :: from <= q < p ==> !Occurs(t, sep, q)
    ensures c == 0
  {
    if c > 0 {
      var q, m := p - c, |sep|;
      forall k | 0 <= k < m ensures t[q + k] == sep[k] {
        if k < c {
          assert t[q + k] == t[p - c..p][k] == sep[..c][k];
        } else {
          assert t[q + k] == t[p..p + m][k - c] == sep[k - c];
        }
      }
      assert t[q..q + m] == sep;
      assert Occurs(t, sep, q);
    }
  }

  /** An odd counter misses the occurrence: the next recognised separator ends later. */
  lemma OddCounterMisses(t: Text, sep: Text, p: nat, c: nat)
    requires Crlfs(sep) && c < |sep| && c % 2 == 1 && Occurs(t, sep, p)
    ensures Hits(t, sep, p, c) == [] || p + |sep| < Hits(t, sep, p, c)[0]
  {
    assert t[p] == t[p..p + |sep|][0] == CR && t[p + 1] == t[p..p + |sep|][1] == LF;
    HitsGenuine(t, sep, p + 2, 0, p + 2);
  }

  lemma InsideOccurrence(t: Text, sep: Text, p: nat, q: nat)
    requires Crlfs(sep) && Occurs(t, sep, p) && p < q < p + |sep| && Occurs(t, sep, q)
    ensures CrRun(t, q + 1) == 1
  {
    assert t[q] == t[q..q + |sep|][0] == CR;
    assert t[q] == t[p..p + |sep|][q - p] && t[q - 1] == t[p..p + |sep|][q - p - 1];
  }

  /** An occurrence starts with a CR and ends with an LF. */
  lemma OccurrenceRuns(t: Text, sep: Text, p: nat)
    requires Crlfs(sep) && Occurs(t, sep, p)
    ensures CrRun(t, p + 1) == CrRun(t, p) + 1 && CrRun(t, p + |sep|) == 0
  {
    var m := |sep|;
    assert t[p] == t[p..p + m][0] == CR;
    assert t[p + m - 1] == t[p..p + m][m - 1] == sep[m - 1] == LF;
  }

  /** The counter at the first occurrence decides: when it is zero the occurrence is recognised, and when it
      is odd nothing is before a later index. */
  lemma CounterDecides(t: Text, sep: Text, from: nat, p: nat, c: nat)
    requires Crlfs(sep) && Counter(t, sep, from, p, c) && Occurs(t, sep, p)
    requires forall q :: from <= q < p ==> !Occurs(t, sep, q)
    ensures c % 2 == 0 ==> Hits(t, sep, p, c) == [p + |sep|] + Hits(t, sep, p + |sep|, 0)
    ensures c % 2 == 1 ==> Hits(t, sep, p, c) == [] || p + |sep| < Hits(t, sep, p, c)[0]
  {
    if c % 2 == 1 {
      OddCounterMisses(t, sep, p, c);
    } else {
      EvenCounterIsZero(t, sep, from, p, c);
      RunThrough(t, sep, p, |sep| - 1);
    }
  }

  /** What the matcher does at the first occurrence: it recognises it if the CR run that ends there
      is odd, and otherwise recognises nothing before a later index. */
  lemma AtFirstOccurrence(t: Text, sep: Text, from: nat, p: nat)
    requires Crlfs(sep) && from <= |t| && CrRun(t, from) == 0 && FirstAt(t, sep, from) == Some(p)
    ensures CrRun(t, p + |sep|) == 0
    ensures CrRun(t, p + 1) % 2 == 1 ==> Hits(t, sep, from, 0) == [p + |sep|] + Hits(t, sep, p + |sep|, 0)
    ensures CrRun(t, p + 1) % 2 == 0 ==> Hits(t, sep, from, 0) == [] || p + |sep| < Hits(t, sep, from, 0)[0]
  {
    OccurrenceRuns(t, sep, p);
    assert t[from - 0..from] == sep[..0];
    var c := Advance(t, sep, from, from, 0, p);
    CounterDecides(t, sep, from, p, c);
  }

  lemma OddRunsFromNext(t: Text, sep: Text, from: nat, p: nat)
    requires Crlfs(sep) && from <= |t| && FirstAt(t, sep, from) == Some(p)
    ensures OddRuns(t, sep, from) <==> CrRun(t, p + 1) % 2 == 1 && OddRuns(t, sep, p + |sep|)
  {
    if CrRun(t, p + 1) % 2 == 1 && OddRuns(t, sep, p + |sep|) {
      forall q: nat | from <= q < |t| && Occurs(t, sep, q) ensures CrRun(t, q + 1) % 2 == 1 {
        if p < q < p + |sep| {
          InsideOccurrence(t, sep, p, q);
        }
      }
    }
  }

  lemma NothingToHit(t: Text, sep: Text, from: nat)
    requires sep != [] && from <= |t| && FirstAt(t, sep, from).None?
    ensures Agree(t, sep, from) && OddRuns(t, sep, from)
  {
    HitsGenuine(t, sep, from, 0, from);
    if Hits(t, sep, from, 0) != [] {
      FirstHitOccurs(t, sep, Hits(t, sep, from, 0), from);
    }
  }

  lemma FirstHitOccurs(t: Text, sep: Text, hits: seq<nat>, from: nat)
    requires Genuine(t, sep, hits, from) && hits != []
    ensures from <= hits[0] - |sep| && Occurs(t, sep, hits[0] - |sep|)
  {
  }

  /** Agreement from one resumption point is recognising the first occurrence and agreeing after it. */
  lemma AgreeFromNext(t: Text, sep: Text, from: nat, p: nat)
    requires Crlfs(sep) && from <= |t| && CrRun(t, from) == 0 && FirstAt(t, sep, from) == Some(p)
    ensures CrRun(t, p + |sep|) == 0
    ensures Agree(t, sep, from) <==> CrRun(t, p + 1) % 2 == 1 && Agree(t, sep, p + |sep|)
  {
    AtFirstOccurrence(t, sep, from, p);
    var next := p + |sep|;
    SameTail(next, Hits(t, sep, next, 0), TrueHits(t, sep, next));
  }

  lemma SameTail(x: nat, a: seq<nat>, b: seq<nat>)
    ensures [x] + a == [x] + b <==> a == b
  {
    assert ([x] + a)[1..] == a && ([x] + b)[1..] == b;
  }

  lemma {:induction false} CrlfHits(t: Text, sep: Text, from: nat)
    requires Crlfs(sep) && from <= |t| && CrRun(t, from) == 0
    ensures Agree(t, sep, from) <==> OddRuns(t, sep, from)
    decreases |t| - from
  {
    match FirstAt(t, sep, from)
    case None => NothingToHit(t, sep, from);
    case Some(p) =>
      AgreeFromNext(t, sep, from, p);
      OddRunsFromNext(t, sep, from, p);
      CrlfHits(t, sep, p + |sep|);
  }

  /** For CRLF, CRLFCRLF and so on, the matcher recognises the leftmost non-overlapping
      occurrences exactly when each occurrence ends an odd run of CRs. */
  lemma CrlfMatcherIff(t: Text, sep: Text)
    requires Crlfs(sep)
    ensures Agree(t, sep, 0) <==> OddRuns(t, sep, 0)
  {
    CrlfHits(t, sep, 0);
  }

  /** On such texts, and so on every text without two adjacent CRs, the split is a true one. */
  lemma CrlfSplit(t: Text, sep: Text, size: nat)
    requires Crlfs(sep)
    requires OddRuns(t, sep, 0) || forall i :: 0 < i < |t| ==> t[i - 1] != CR || t[i] != CR
    ensures Split(t, sep, size) == TrueSplit(t, sep, size)
  {
    if !OddRuns(t, sep, 0) {
      forall p: nat | Occurs(t, sep, p) ensures CrRun(t, p + 1) % 2 == 1 {
        assert t[p] == t[p..p + |sep|][0] == CR;
      }
    }
    CrlfMatcherIff(t, sep);
  }
}
