/** What `VString_Trim` keeps, and first-occurrence searches. */
module Trimming {
  import opened Basics
  import opened Splitting

  predicate Blank(t: Text) {
    forall i :: 0 <= i < |t| ==> IsSpace(t[i])
  }

  /** The first index from `i` on without whitespace, or the length. */
  function SkipSpaces(t: Text, i: nat): (n: nat)
    requires i <= |t|
    ensures i <= n <= |t| && (n < |t| ==> !IsSpace(t[n]))
    ensures forall k :: i <= k < n ==> IsSpace(t[k])
    decreases |t| - i
  {
    if i < |t| && IsSpace(t[i]) then SkipSpaces(t, i + 1) else i
  }

  /** The index just past the last byte before `j` that is not whitespace, or zero. */
  function DropSpaces(t: Text, j: nat): (n: nat)
    requires j <= |t|
    ensures n <= j && (0 < n ==> !IsSpace(t[n - 1]))
    ensures forall k :: n <= k < j ==> IsSpace(t[k])
  {
    if 0 < j && IsSpace(t[j - 1]) then DropSpaces(t, j - 1) else j
  }

  function Lead(t: Text): nat {
    SkipSpaces(t, 0)
  }

  function TrailStart(t: Text): nat {
    DropSpaces(t, |t|)
  }

  lemma LeadBeforeTrail(t: Text)
    requires !Blank(t)
    ensures Lead(t) < TrailStart(t)
  {
  }

  /** The text without its leading and trailing whitespace. */
  function Trimmed(t: Text): Text
    requires !Blank(t)
  {
    LeadBeforeTrail(t);
    t[Lead(t)..TrailStart(t)]
  }

  ghost predicate Solid(t: Text) {
    t != [] && !IsSpace(t[0]) && !IsSpace(t[|t| - 1])
  }

  /** Only tabs, line feeds, vertical tabs, form feeds, carriage returns and spaces. */
  predicate OnlySpaces(t: Text) {
    forall i :: 0 <= i < |t| ==> t[i] in {9, 10, 11, 12, 13, 32}
  }

  /** Neither the first nor the last byte is one of those. */
  predicate SolidEnds(t: Text) {
    t != [] && t[0] !in {9, 10, 11, 12, 13, 32} && t[|t| - 1] !in {9, 10, 11, 12, 13, 32}
  }

  predicate Surrounded(t: Text, a: Text, mid: Text, b: Text) {
    OnlySpaces(a) && OnlySpaces(b) && t == a + mid + b
  }

  lemma SpacesAre(t: Text)
    ensures (Blank(t) <==> OnlySpaces(t)) && (Solid(t) <==> SolidEnds(t))
  {
    forall b: Byte ensures IsSpace(b) <==> b in {9, 10, 11, 12, 13, 32} {
      IsSpaceIff(b);
    }
  }

  /** Trimming is the one way to write a text as whitespace, a solid middle and whitespace. */
  lemma TrimmedIff(t: Text, mid: Text)
    requires !OnlySpaces(t)
    ensures !Blank(t)
    ensures mid == Trimmed(t) <==> SolidEnds(mid) && exists a: Text, b: Text :: Surrounded(t, a, mid, b)
  {
    SpacesAre(t);
    SpacesAre(mid);
    if mid == Trimmed(t) {
      TrimmedIsPadded(t);
      var a, b := t[..Lead(t)], t[TrailStart(t)..];
      SpacesAre(a);
      SpacesAre(b);
      assert Surrounded(t, a, mid, b);
    } else if a: Text, b: Text :| SolidEnds(mid) && Surrounded(t, a, mid, b) {
      SpacesAre(a);
      SpacesAre(b);
      SolidMiddle(a, mid, b);
    }
  }

  lemma TrimmedIsPadded(t: Text)
    requires !Blank(t)
    ensures Solid(Trimmed(t)) && Padded(t, t[..Lead(t)], Trimmed(t), t[TrailStart(t)..])
  {
    LeadBeforeTrail(t);
    var i, j := Lead(t), TrailStart(t);
    assert Trimmed(t)[0] == t[i] && Trimmed(t)[j - i - 1] == t[j - 1];
  }

  predicate Padded(t: Text, a: Text, mid: Text, b: Text) {
    Blank(a) && Blank(b) && t == a + mid + b
  }

  lemma SolidMiddle(a: Text, mid: Text, b: Text)
    requires Blank(a) && Blank(b) && Solid(mid)
    ensures var t := a + mid + b; !Blank(t) && Lead(t) == |a| && TrailStart(t) == |a| + |mid| && Trimmed(t) == mid
  {
    var t, e := a + mid + b, |a| + |mid|;
    assert t[|a|] == mid[0] && t[e - 1] == mid[|mid| - 1];
    assert forall i :: 0 <= i < |a| ==> t[i] == a[i];
    assert forall i :: e <= i < |t| ==> t[i] == b[i - e];
    assert t[|a|..e] == mid;
  }

  /** `VString_FindFirstCharOccurence`: the first index of a byte, or -1. */
  function FirstIndex(t: Text, b: Byte): (i: int)
    ensures -1 <= i < |t|
    ensures 0 <= i ==> t[i] == b
    ensures forall j :: 0 <= j < (if i < 0 then |t| else i) ==> t[j] != b
  {
    if t == [] then -1
    else if t[0] == b then 0
    else
      var i := FirstIndex(t[1..], b);
      assert forall j :: 1 <= j < |t| ==> t[j] == t[1..][j - 1];
      if i < 0 then -1 else i + 1
  }

  lemma FirstIndexIs(t: Text, b: Byte, i: nat)
    requires i < |t| && t[i] == b && forall j :: 0 <= j < i ==> t[j] != b
    ensures FirstIndex(t, b) == i
  {
  }

  /** `VString_FindSubstring` on a buffer whose first `n` bytes are the string: the comparison at
      each index may read past `n`. */
  function FindIn(buffer: Text, n: nat, sub: Text, from: nat): nat
    requires sub != []
    decreases n - from
  {
    if from >= n then 0
    else if Occurs(buffer, sub, from) then from + |sub|
    else FindIn(buffer, n, sub, from + 1)
  }

  /** Every comparison that is made stays inside the buffer: all of them would, or one succeeds before. */
  predicate FindReadable(buffer: Text, n: nat, sub: Text)
    requires sub != []
  {
    n + |sub| <= |buffer| + 1 || FindIn(buffer, n, sub, 0) != 0
  }

  lemma {:induction false} FoundInside(buffer: Text, n: nat, sub: Text, from: nat)
    requires sub != [] && FindIn(buffer, n, sub, from) != 0
    ensures from + |sub| <= FindIn(buffer, n, sub, from) <= |buffer|
    decreases n - from
  {
    if !Occurs(buffer, sub, from) {
      FoundInside(buffer, n, sub, from + 1);
    }
  }

  /** The result is the end of the first occurrence inside the string; without one it is zero or
      an end past the string, taken from bytes that are not part of it. */
  lemma {:induction false} FindInExact(buffer: Text, n: nat, sub: Text, from: nat)
    requires sub != [] && n <= |buffer| && from <= n
    ensures var r, first := FindIn(buffer, n, sub, from), FirstAt(buffer[..n], sub, from);
      && (first.Some? ==> r == first.value + |sub|)
      && (first.None? ==> r == 0 || n < r)
    decreases n - from
  {
    if from < n {
      FindInExact(buffer, n, sub, from + 1);
      if from + |sub| <= n {
        assert buffer[..n][from..from + |sub|] == buffer[from..from + |sub|];
      }
    }
  }
}
