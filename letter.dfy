/** Simple case mapping of unicode/letter.cpp, which follows the case tables of
    Go's unicode package: a code point is looked up by binary search in a
    table of ranges, each carrying the delta to add for upper, lower and
    title case, with a special delta marking runs of alternating upper and
    lower case letters. The tables themselves (CASE_RANGES, CASE_ORBIT,
    ASCII_FOLD) are data and are taken as parameters. Code points are wchar_t
    values, modelled as int. */
module Letter {
  import opened Wrappers

  const MaxWchar: int := 0x10FFFF
  /** The delta that marks a run of alternating upper and lower case. */
  const UpperLower: int := MaxWchar + 1
  const MaxAscii: int := 0x7F
  const ReplacementChar: int := 0xFFFD

  // The values of the enumeration Case.
  const Upper: int := 0
  const Lower: int := 1
  const Title: int := 2
  const CaseMax: int := 3

  /** A range lo..hi of code points and the delta for each case. */
  datatype CaseRange = CaseRange(lo: int, hi: int, delta: seq<int>)

  /** The shape the binary search relies on: every range non-empty, with one
      delta per case, and the ranges in ascending order without overlap. */
  predicate SortedRanges(ranges: seq<CaseRange>) {
    (forall i :: 0 <= i < |ranges| ==> ranges[i].lo <= ranges[i].hi && |ranges[i].delta| == CaseMax) &&
    (forall i, j :: 0 <= i < j < |ranges| ==> ranges[i].hi < ranges[j].lo)
  }

  predicate InRange(cr: CaseRange, c: int) { cr.lo <= c <= cr.hi }

  /** The first range holding c, by linear search from index i. */
  function RangeOf(ranges: seq<CaseRange>, c: int, i: nat): (r: Option<nat>)
    requires i <= |ranges|
    ensures r.Some? ==> i <= r.value < |ranges| && InRange(ranges[r.value], c)
    ensures r.None? <==> forall j :: i <= j < |ranges| ==> !InRange(ranges[j], c)
    decreases |ranges| - i
  {
    if i == |ranges| then None
    else if InRange(ranges[i], c) then Some(i)
    else RangeOf(ranges, c, i + 1)
  }

  /** In sorted ranges, the range holding c is the only one. */
  lemma {:induction false} RangeOfUnique(ranges: seq<CaseRange>, c: int, i: nat, m: nat)
    requires SortedRanges(ranges) && i <= m < |ranges| && InRange(ranges[m], c)
    ensures RangeOf(ranges, c, i) == Some(m)
    decreases m - i
  {
    if i < m {
      assert ranges[i].hi < ranges[m].lo;
      RangeOfUnique(ranges, c, i + 1, m);
    }
  }

  /** The mapping of c inside the range cr, for a case in Upper..Title. */
  function Apply(cr: CaseRange, caseIndex: int, c: int): int
    requires |cr.delta| == CaseMax && 0 <= caseIndex < CaseMax && InRange(cr, c)
  {
    var delta := cr.delta[caseIndex];
    if delta > MaxWchar then
      // alternating run: keep the offset's pair, take the low bit from the case
      var offset := c - cr.lo;
      cr.lo + (offset - offset % 2 + caseIndex % 2)
    else c + delta
  }

  /** What _to computes, found by linear search: the replacement character for
      a case out of range, c itself when no range holds it, and the mapping of
      the range holding it otherwise. */
  function ToSpec(caseIndex: int, c: int, ranges: seq<CaseRange>): (int, bool)
    requires SortedRanges(ranges)
  {
    if caseIndex < 0 || CaseMax <= caseIndex then (ReplacementChar, false)
    else match RangeOf(ranges, c, 0)
      case None => (c, false)
      case Some(i) => (Apply(ranges[i], caseIndex, c), true)
  }

  /** _to: binary search for the range holding c. */
  method To(caseIndex: int, c: int, ranges: seq<CaseRange>) returns (r: int, found: bool)
    requires SortedRanges(ranges)
    ensures (r, found) == ToSpec(caseIndex, c, ranges)
  {
    if caseIndex < 0 || CaseMax <= caseIndex {
      return ReplacementChar, false;
    }
    var lo, hi := 0, |ranges|;
    while lo < hi
      invariant 0 <= lo <= hi <= |ranges|
      invariant forall i :: 0 <= i < lo ==> ranges[i].hi < c
      invariant forall i :: hi <= i < |ranges| ==> c < ranges[i].lo
    {
      var m := lo + (hi - lo) / 2;
      var cr := ranges[m];
      if cr.lo <= c && c <= cr.hi {
        RangeOfUnique(ranges, c, 0, m);
        var delta := cr.delta[caseIndex];
        if delta > MaxWchar {
          var offset := c - cr.lo;
          return cr.lo + (offset - offset % 2 + caseIndex % 2), true;
        }
        return c + delta, true;
      }
      if c < cr.lo {
        hi := m;
      } else {
        lo := m + 1;
      }
    }
    return c, false;
  }

  /** A case outside Upper..Title maps every code point to the replacement
      character, not found. */
  lemma ToBadCase(caseIndex: int, c: int, ranges: seq<CaseRange>)
    requires SortedRanges(ranges) && (caseIndex < 0 || CaseMax <= caseIndex)
    ensures ToSpec(caseIndex, c, ranges) == (ReplacementChar, false)
  {
  }

  /** For a valid case, c is reported not found exactly when no range holds
      it, and then it is returned unchanged. */
  lemma ToNotFound(caseIndex: int, c: int, ranges: seq<CaseRange>)
    requires SortedRanges(ranges) && 0 <= caseIndex < CaseMax
    ensures !ToSpec(caseIndex, c, ranges).1 <==> forall i :: 0 <= i < |ranges| ==> !InRange(ranges[i], c)
    ensures !ToSpec(caseIndex, c, ranges).1 ==> ToSpec(caseIndex, c, ranges).0 == c
  {
  }

  /** Inside a range with an ordinary delta, c is mapped to c + delta. */
  lemma ToOrdinaryDelta(caseIndex: int, c: int, ranges: seq<CaseRange>, i: nat)
    requires SortedRanges(ranges) && 0 <= caseIndex < CaseMax
    requires i < |ranges| && InRange(ranges[i], c) && ranges[i].delta[caseIndex] <= MaxWchar
    ensures ToSpec(caseIndex, c, ranges) == (c + ranges[i].delta[caseIndex], true)
  {
    RangeOfUnique(ranges, c, 0, i);
  }

  /** Inside an alternating run, upper and title case land on the even offset
      of c's pair and lower case on the odd one. */
  lemma ToAlternating(caseIndex: int, c: int, ranges: seq<CaseRange>, i: nat)
    requires SortedRanges(ranges) && 0 <= caseIndex < CaseMax
    requires i < |ranges| && InRange(ranges[i], c) && ranges[i].delta[caseIndex] > MaxWchar
    ensures var r := ToSpec(caseIndex, c, ranges).0;
      (r - ranges[i].lo) % 2 == (if caseIndex == Lower then 1 else 0) &&
      (r - ranges[i].lo) / 2 == (c - ranges[i].lo) / 2
  {
    RangeOfUnique(ranges, c, 0, i);
  }

  /** to(case, c) over the case table. */
  function ToCase(caseIndex: int, c: int, ranges: seq<CaseRange>): int
    requires SortedRanges(ranges)
  {
    ToSpec(caseIndex, c, ranges).0
  }

  predicate IsAsciiLower(c: int) { 'a' as int <= c <= 'z' as int }
  predicate IsAsciiUpper(c: int) { 'A' as int <= c <= 'Z' as int }

  /** to_upper: ASCII letters by arithmetic, everything above ASCII through the
      table. */
  function ToUpper(c: int, ranges: seq<CaseRange>): (r: int)
    requires SortedRanges(ranges)
    ensures c <= MaxAscii ==> (if IsAsciiLower(c) then r == c - 32 && IsAsciiUpper(r) else r == c)
    ensures c > MaxAscii ==> r == ToSpec(Upper, c, ranges).0
  {
    if c <= MaxAscii then
      if IsAsciiLower(c) then c - ('a' as int - 'A' as int) else c
    else ToCase(Upper, c, ranges)
  }

  /** to_lower: the mirror image of to_upper. */
  function ToLower(c: int, ranges: seq<CaseRange>): (r: int)
    requires SortedRanges(ranges)
    ensures c <= MaxAscii ==> (if IsAsciiUpper(c) then r == c + 32 && IsAsciiLower(r) else r == c)
    ensures c > MaxAscii ==> r == ToSpec(Lower, c, ranges).0
  {
    if c <= MaxAscii then
      if IsAsciiUpper(c) then c + ('a' as int - 'A' as int) else c
    else ToCase(Lower, c, ranges)
  }

  /** On ASCII, lowering after raising is lowering, raising after lowering
      is raising, and the two are inverse on letters. */
  lemma AsciiCaseRoundTrip(c: int, ranges: seq<CaseRange>)
    requires SortedRanges(ranges) && 0 <= c <= MaxAscii
    ensures ToLower(ToUpper(c, ranges), ranges) == ToLower(c, ranges)
    ensures ToUpper(ToLower(c, ranges), ranges) == ToUpper(c, ranges)
    ensures IsAsciiLower(c) ==> ToLower(ToUpper(c, ranges), ranges) == c
    ensures IsAsciiUpper(c) ==> ToUpper(ToLower(c, ranges), ranges) == c
  {
  }

  /** An entry of CASE_ORBIT: the next code point in a fold orbit. */
  datatype FoldPair = FoldPair(from: int, to: int)

  predicate SortedOrbit(orbit: seq<FoldPair>) {
    forall i, j :: 0 <= i < j < |orbit| ==> orbit[i].from < orbit[j].from
  }

  /** The entry of the orbit table for c, by linear search. */
  function OrbitOf(orbit: seq<FoldPair>, c: int): (r: Option<int>)
    ensures r.None? <==> forall i :: 0 <= i < |orbit| ==> orbit[i].from != c
  {
    if orbit == [] then None
    else if orbit[0].from == c then Some(orbit[0].to)
    else OrbitOf(orbit[1..], c)
  }

  /** What simple_fold computes: out-of-range values unchanged, then the ASCII
      fold table, then the orbit table, then the other case of c. */
  function SimpleFoldSpec(c: int, asciiFold: seq<int>, orbit: seq<FoldPair>, ranges: seq<CaseRange>): int
    requires SortedRanges(ranges)
  {
    if c < 0 || c > MaxWchar then c
    else if c < |asciiFold| then asciiFold[c]
    else match OrbitOf(orbit, c)
      case Some(t) => t
      case None =>
        var l := ToLower(c, ranges);
        if l != c then l else ToUpper(c, ranges)
  }

  /** In a sorted orbit table, the entry found is the one at its index. */
  lemma {:induction false} OrbitOfAt(orbit: seq<FoldPair>, c: int, k: nat)
    requires SortedOrbit(orbit) && k < |orbit| && orbit[k].from == c
    ensures OrbitOf(orbit, c) == Some(orbit[k].to)
  {
    if k > 0 {
      assert orbit[0].from < orbit[k].from;
      assert orbit[1..][k - 1] == orbit[k];
      OrbitOfAt(orbit[1..], c, k - 1);
    }
  }

  /** simple_fold: a lower-bound binary search over the orbit table. */
  method SimpleFold(c: int, asciiFold: seq<int>, orbit: seq<FoldPair>, ranges: seq<CaseRange>) returns (r: int)
    requires SortedRanges(ranges) && SortedOrbit(orbit)
    ensures r == SimpleFoldSpec(c, asciiFold, orbit, ranges)
    ensures c < 0 || c > MaxWchar ==> r == c
  {
    if c < 0 || c > MaxWchar {
      return c;
    }
    if c < |asciiFold| {
      return asciiFold[c];
    }
    var lo, hi := 0, |orbit|;
    while lo < hi
      invariant 0 <= lo <= hi <= |orbit|
      invariant forall i :: 0 <= i < lo ==> orbit[i].from < c
      invariant forall i :: hi <= i < |orbit| ==> c <= orbit[i].from
    {
      var m := lo + (hi - lo) / 2;
      if orbit[m].from < c {
        lo := m + 1;
      } else {
        hi := m;
      }
    }
    if lo < |orbit| && orbit[lo].from == c {
      OrbitOfAt(orbit, c, lo);
      return orbit[lo].to;
    }
    var l := ToLower(c, ranges);
    if l != c {
      return l;
    }
    return ToUpper(c, ranges);
  }

  /** A code point listed in the orbit table folds to its successor there. */
  lemma SimpleFoldOrbit(c: int, asciiFold: seq<int>, orbit: seq<FoldPair>, ranges: seq<CaseRange>, k: nat)
    requires SortedRanges(ranges) && SortedOrbit(orbit)
    requires 0 <= c <= MaxWchar && c >= |asciiFold| && k < |orbit| && orbit[k].from == c
    ensures SimpleFoldSpec(c, asciiFold, orbit, ranges) == orbit[k].to
  {
    OrbitOfAt(orbit, c, k);
  }

  /** An ASCII letter outside the fold tables folds to its other case. */
  lemma SimpleFoldAsciiLetter(c: int, orbit: seq<FoldPair>, ranges: seq<CaseRange>)
    requires SortedRanges(ranges) && (IsAsciiLower(c) || IsAsciiUpper(c))
    requires forall i :: 0 <= i < |orbit| ==> orbit[i].from != c
    ensures var f := SimpleFoldSpec(c, [], orbit, ranges);
      (IsAsciiLower(c) ==> f == c - 32) && (IsAsciiUpper(c) ==> f == c + 32)
  {
  }
}
