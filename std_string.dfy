/** The parts of std::string the core relies on, as functions on sequences:
    find (the first occurrence at or after a position, npos as None), rfind,
    starts_with / ends_with, and the left-to-right replacement of every
    non-overlapping occurrence that the replace helpers aim at. */
module StdString {
  import opened Wrappers

  /** pat occurs in s at position i. */
  predicate IsAt<T(==)>(s: seq<T>, pat: seq<T>, i: int) {
    0 <= i && i + |pat| <= |s| && forall k :: 0 <= k < |pat| ==> s[i + k] == pat[k]
  }

  predicate StartsWith<T(==)>(s: seq<T>, pat: seq<T>) {
    |pat| <= |s| && s[..|pat|] == pat
  }

  predicate EndsWith<T(==)>(s: seq<T>, pat: seq<T>) {
    |pat| <= |s| && s[|s| - |pat|..] == pat
  }

  /** std::string::find(pat, from): the first position at or after from
      where pat occurs; npos (None) when there is none, in particular when
      from is past the end. */
  function Find<T(==)>(s: seq<T>, pat: seq<T>, from: nat): (r: Option<nat>)
    ensures r.Some? ==> from <= r.value && IsAt(s, pat, r.value)
    ensures r.Some? ==> forall j :: from <= j < r.value ==> !IsAt(s, pat, j)
    ensures r.None? ==> forall j :: from <= j ==> !IsAt(s, pat, j)
    decreases |s| - from
  {
    if from + |pat| > |s| then None
    else if IsAt(s, pat, from) then Some(from)
    else Find(s, pat, from + 1)
  }

  /** Searching from a position is searching the suffix from 0. */
  lemma FindInSuffix<T>(s: seq<T>, pat: seq<T>, from: nat)
    requires from <= |s|
    ensures Find(s, pat, from) == Shift(Find(s[from..], pat, 0), from)
  {
    var t := s[from..];
    var r, q := Find(s, pat, from), Find(t, pat, 0);
    forall j | 0 <= j
      ensures IsAt(t, pat, j) <==> IsAt(s, pat, j + from)
    {
    }
    if r.Some? {
      assert IsAt(t, pat, r.value - from);
      assert q.Some? && q.value <= r.value - from;
      assert !IsAt(s, pat, q.value + from) || q.value + from >= r.value;
    }
  }

  /** std::string::rfind(c): the last position holding c, with npos taken
      as -1 (the way the callers store it in a signed index). */
  function RFind<T(==)>(s: seq<T>, c: T): (r: int)
    ensures -1 <= r < |s|
    ensures r >= 0 ==> s[r] == c
    ensures forall j :: r < j < |s| ==> s[j] != c
  {
    if s == [] then -1
    else if s[|s| - 1] == c then |s| - 1
    else RFind(s[..|s| - 1], c)
  }

  /** The last c of s is at i when s[i] is c and nothing after it is. */
  lemma RFindAt<T>(s: seq<T>, c: T, i: int)
    requires 0 <= i < |s| && s[i] == c
    requires forall j :: i < j < |s| ==> s[j] != c
    ensures RFind(s, c) == i
  {
  }

  function Shift(r: Option<nat>, offset: nat): Option<nat> {
    if r.Some? then Some(r.value + offset) else None
  }

  /** The text of s with every occurrence of target, found left to right and
      without overlaps, replaced by replacement. */
  function ReplaceAll<T(==)>(s: seq<T>, target: seq<T>, replacement: seq<T>): seq<T>
    requires |target| > 0
    decreases |s|
  {
    var f := Find(s, target, 0);
    if f.None? then s
    else Spliced(s, f.value, replacement, ReplaceAll(s[f.value + |target|..], target, replacement))
  }

  /** The text of s up to p, then replacement, then rest. */
  function Spliced<T>(s: seq<T>, p: nat, replacement: seq<T>, rest: seq<T>): seq<T>
    requires p <= |s|
  {
    s[..p] + replacement + rest
  }

  /** One step of ReplaceAll: the text before the first occurrence, the
      replacement, and the rest replaced in turn. */
  lemma ReplaceAllAt<T>(s: seq<T>, target: seq<T>, replacement: seq<T>, q: nat)
    requires |target| > 0 && Find(s, target, 0) == Some(q)
    ensures ReplaceAll(s, target, replacement) == Spliced(s, q, replacement, ReplaceAll(s[q + |target|..], target, replacement))
  {
  }

  /** The number of occurrences of target that ReplaceAll replaces. */
  function Occurrences<T(==)>(s: seq<T>, target: seq<T>): nat
    requires |target| > 0
    decreases |s|
  {
    match Find(s, target, 0)
    case None => 0
    case Some(p) => 1 + Occurrences(s[p + |target|..], target)
  }

  /** Each replacement changes the length by |replacement| - |target|. */
  lemma {:induction false} ReplaceAllLength<T>(s: seq<T>, target: seq<T>, replacement: seq<T>)
    requires |target| > 0
    ensures |ReplaceAll(s, target, replacement)| == |s| + Occurrences(s, target) * (|replacement| - |target|)
    decreases |s|
  {
    match Find(s, target, 0)
    case None =>
    case Some(p) =>
      var rest := s[p + |target|..];
      ReplaceAllLength(rest, target, replacement);
      var k, d := Occurrences(rest, target), |replacement| - |target|;
      assert |ReplaceAll(s, target, replacement)| == p + |replacement| + |ReplaceAll(rest, target, replacement)|;
      assert Occurrences(s, target) == 1 + k;
      assert |s| == p + |target| + |rest|;
      LengthStep(|s|, |rest| + k * d, p, |target|, |replacement|, k);
  }

  lemma LengthStep(whole: int, restReplaced: int, p: int, lt: int, lr: int, k: int)
    ensures whole == p + lt + (restReplaced - k * (lr - lt)) ==>
      p + lr + restReplaced == whole + (1 + k) * (lr - lt)
  {
  }

  /** Replacing a text by itself changes nothing. */
  lemma {:induction false} ReplaceAllBySelf<T>(s: seq<T>, target: seq<T>)
    requires |target| > 0
    ensures ReplaceAll(s, target, target) == s
    decreases |s|
  {
    match Find(s, target, 0)
    case None =>
    case Some(p) =>
      ReplaceAllBySelf(s[p + |target|..], target);
      assert s == s[..p] + target + s[p + |target|..];
  }

  /** A text without occurrences is left as it is. */
  lemma ReplaceAllWithoutOccurrence<T>(s: seq<T>, target: seq<T>, replacement: seq<T>)
    requires |target| > 0 && forall j :: !IsAt(s, target, j)
    ensures ReplaceAll(s, target, replacement) == s && Occurrences(s, target) == 0
  {
  }

  /** n copies of c: std::string(n, c). */
  function Repeat<T>(c: T, n: nat): (r: seq<T>)
    ensures |r| == n && forall i :: 0 <= i < n ==> r[i] == c
  {
    if n == 0 then [] else [c] + Repeat(c, n - 1)
  }
}
