/** _path/posix.cpp and _path/posix.h: the POSIX flavour of the path
    helpers, with '/' as the only separator. */
module PathPosix {
  import opened StdString
  import opened StringUtils

  const CurrentDir: char := '.'
  const ParentDir: string := ".."
  const ExtSep: char := '.'
  const PathSep: char := '/'
  const PathListSep: char := ':'
  const AltSep: char := '\0'

  /** _is_absolute: the path starts with the separator. */
  predicate IsAbsolute(p: string) {
    p != [] && p[0] == PathSep
  }

  /** Made of separators only (the empty string included). */
  predicate AllSeparators(s: string) {
    forall i :: 0 <= i < |s| ==> s[i] == PathSep
  }

  /** The position just after the last separator, 0 when there is none. */
  function TailStart(p: string): (i: nat)
    ensures i <= |p|
    ensures i > 0 ==> p[i - 1] == PathSep
    ensures PathSep !in p[i..]
  {
    var i := RFind(p, PathSep) + 1;
    assert forall k :: 0 <= k < |p[i..]| ==> p[i..][k] == p[i + k];
    i
  }

  /** _basename: the final component, everything after the last separator;
      the whole path when there is no separator. It is the longest suffix of
      p free of separators. */
  function Basename(p: string): (r: string)
    ensures PathSep !in r
    ensures |r| <= |p| && p[|p| - |r|..] == r
    ensures |r| < |p| ==> p[|p| - |r| - 1] == PathSep
  {
    p[TailStart(p)..]
  }

  /** _dirname: the prefix through the last separator, with its trailing
      separators removed unless it is made of separators only. */
  function Dirname(p: string): string {
    var head := p[..TailStart(p)];
    if head != [] && head != Repeat(PathSep, |head|) then RTrimmed(head, [PathSep]) else head
  }

  /** What _dirname keeps: p splits into the directory part, a run of
      separators, and the final component. The directory part is empty
      exactly when p holds no separator; it only ends with a separator when
      it is made of separators. */
  lemma DirnameShape(p: string)
    ensures exists k: nat :: p == Dirname(p) + Power([PathSep], k) + Basename(p)
    ensures Dirname(p) == [] <==> PathSep !in p
    ensures Dirname(p) != [] && !AllSeparators(Dirname(p)) ==> Dirname(p)[|Dirname(p)| - 1] != PathSep
    ensures AllSeparators(Dirname(p)) ==> Dirname(p) == p[..TailStart(p)]
  {
    var i := TailStart(p);
    var head := p[..i];
    assert p == head + Basename(p);
    if head != [] && head != Repeat(PathSep, |head|) {
      TrimmedHead(head);
      var d := RTrimmed(head, [PathSep]);
      var k: nat :| head == d + Power([PathSep], k);
      assert p == d + Power([PathSep], k) + Basename(p);
      assert p[i - 1] == PathSep;
    } else {
      assert p == head + Power([PathSep], 0) + Basename(p);
      if head != [] {
        assert p[i - 1] == PathSep;
      }
    }
  }

  /** Trimming a directory part that is not made of separators leaves a
      non-empty text that does not end with one. */
  lemma TrimmedHead(head: string)
    requires head != [] && head != Repeat(PathSep, |head|)
    ensures var d := RTrimmed(head, [PathSep]);
      d != [] && d[|d| - 1] != PathSep && exists k: nat :: head == d + Power([PathSep], k)
  {
    RTrimmedShape(head, [PathSep]);
    var d := RTrimmed(head, [PathSep]);
    var k: nat :| head == d + Power([PathSep], k);
    PowerSeparators(k);
    assert !EndsWith(d, [PathSep]);
    assert d[|d| - 1..] == [d[|d| - 1]];
  }

  lemma {:induction false} PowerSeparators(k: nat)
    ensures AllSeparators(Power([PathSep], k)) && |Power([PathSep], k)| == k
  {
    if k > 0 {
      PowerSeparators(k - 1);
    }
  }

  /** The examples of the path tests: a bare name has no directory, a name
      under the root has the root, and a trailing separator is dropped. */
  lemma DirnameExamples()
    ensures Dirname("bar") == "" && Dirname("/bar") == "/"
    ensures Dirname("/foo/bar") == "/foo" && Basename("/foo/bar.txt") == "bar.txt"
  {
    assert RFind("bar", PathSep) == -1;
    RFindAt("/bar", PathSep, 0);
    assert "/bar"[..1] == Repeat(PathSep, 1);
    RFindAt("/foo/bar", PathSep, 4);
    assert "/foo/bar"[..5] == "/foo/";
    assert EndsWith("/foo/", [PathSep]) && "/foo/"[..4] == "/foo";
    assert !EndsWith("/foo", [PathSep]);
    assert "/foo/"[4] != "/foo/"[3];
    RFindAt("/foo/bar.txt", PathSep, 4);
  }

  // ---------------------------------------------------------------------
  // join

  /** One step of _join: an absolute component replaces the path built so
      far; otherwise it is appended, after a separator unless the path is
      empty or already ends with one. */
  function JoinStep(out: string, b: string): string {
    if StartsWith(b, [PathSep]) then b
    else if out == [] || EndsWith(out, [PathSep]) then out + b
    else out + [PathSep] + b
  }

  /** join(a, p...): the components folded into a from left to right. */
  function Joined(a: string, parts: seq<string>): string
    decreases |parts|
  {
    if parts == [] then a else Joined(JoinStep(a, parts[0]), parts[1..])
  }

  /** join and _join: the result path starts as a and each further component
      is joined into it in place. */
  method Join(a: string, parts: seq<string>) returns (resultPath: string)
    ensures resultPath == Joined(a, parts)
    ensures parts == [] ==> resultPath == a
  {
    resultPath := a;
    var i := 0;
    while i < |parts|
      invariant 0 <= i <= |parts|
      invariant Joined(resultPath, parts[i..]) == Joined(a, parts)
    {
      assert parts[i..][1..] == parts[i + 1..];
      var b := parts[i];
      if StartsWith(b, [PathSep]) {
        resultPath := b;
      } else if resultPath == [] || EndsWith(resultPath, [PathSep]) {
        resultPath := resultPath + b;
      } else {
        resultPath := resultPath + [PathSep] + b;
      }
      i := i + 1;
    }
  }

  /** Joining one more component is one more step. */
  lemma {:induction false} JoinedAppend(a: string, parts: seq<string>, b: string)
    ensures Joined(a, parts + [b]) == JoinStep(Joined(a, parts), b)
    decreases |parts|
  {
    if parts != [] {
      assert (parts + [b])[1..] == parts[1..] + [b];
      JoinedAppend(JoinStep(a, parts[0]), parts[1..], b);
    } else {
      assert [b][1..] == [];
    }
  }

  /** An absolute component discards everything joined before it. */
  lemma {:induction false} JoinAbsoluteDiscards(a: string, parts: seq<string>, k: nat)
    requires k < |parts| && IsAbsolute(parts[k])
    ensures Joined(a, parts) == Joined(parts[k], parts[k + 1..])
    decreases k
  {
    assert StartsWith(parts[k], [PathSep]);
    if k > 0 {
      assert parts[1..][k - 1] == parts[k] && parts[1..][k..] == parts[k + 1..];
      JoinAbsoluteDiscards(JoinStep(a, parts[0]), parts[1..], k - 1);
    }
  }

  /** The joined path is absolute exactly when the first part or some later
      component is. */
  lemma {:induction false} JoinedIsAbsolute(a: string, parts: seq<string>)
    ensures IsAbsolute(Joined(a, parts)) <==>
      IsAbsolute(a) || exists k :: 0 <= k < |parts| && IsAbsolute(parts[k])
    decreases |parts|
  {
    if parts != [] {
      var b := parts[0];
      var out := JoinStep(a, b);
      assert IsAbsolute(out) <==> IsAbsolute(a) || IsAbsolute(b) by {
        assert StartsWith(b, [PathSep]) <==> IsAbsolute(b);
        if !StartsWith(b, [PathSep]) && a != [] {
          assert out[0] == a[0];
        }
      }
      JoinedIsAbsolute(out, parts[1..]);
      if exists k :: 0 <= k < |parts[1..]| && IsAbsolute(parts[1..][k]) {
        var k :| 0 <= k < |parts[1..]| && IsAbsolute(parts[1..][k]);
        assert IsAbsolute(parts[k + 1]);
      }
      if exists k :: 0 <= k < |parts| && IsAbsolute(parts[k]) {
        var k :| 0 <= k < |parts| && IsAbsolute(parts[k]);
        if k > 0 {
          assert IsAbsolute(parts[1..][k - 1]);
        }
      }
    }
  }

  /** With no absolute component the result extends the first part. */
  lemma {:induction false} JoinedExtends(a: string, parts: seq<string>)
    requires forall k :: 0 <= k < |parts| ==> !IsAbsolute(parts[k])
    ensures StartsWith(Joined(a, parts), a)
    decreases |parts|
  {
    if parts != [] {
      var out := JoinStep(a, parts[0]);
      assert !StartsWith(parts[0], [PathSep]);
      assert out[..|a|] == a;
      JoinedExtends(out, parts[1..]);
      var r := Joined(out, parts[1..]);
      assert r[..|a|] == r[..|out|][..|a|];
    }
  }

  /** No doubled separator: s never holds two separators in a row. */
  predicate SingleSeparators(s: string) {
    forall i :: 0 <= i < |s| - 1 ==> !(s[i] == PathSep && s[i + 1] == PathSep)
  }

  /** A separator is inserted only where needed: joining components without
      doubled separators, none of them absolute, never creates one. */
  lemma {:induction false} JoinedSingleSeparators(a: string, parts: seq<string>)
    requires SingleSeparators(a)
    requires forall k :: 0 <= k < |parts| ==> SingleSeparators(parts[k]) && !IsAbsolute(parts[k])
    ensures SingleSeparators(Joined(a, parts))
    decreases |parts|
  {
    if parts != [] {
      JoinStepSingleSeparators(a, parts[0]);
      JoinedSingleSeparators(JoinStep(a, parts[0]), parts[1..]);
    }
  }

  lemma JoinStepSingleSeparators(out: string, b: string)
    requires SingleSeparators(out) && SingleSeparators(b) && !IsAbsolute(b)
    ensures SingleSeparators(JoinStep(out, b))
  {
    assert !StartsWith(b, [PathSep]);
    if out == [] {
      assert JoinStep(out, b) == b;
    } else if EndsWith(out, [PathSep]) {
      var r := out + b;
      forall i | 0 <= i < |r| - 1 ensures !(r[i] == PathSep && r[i + 1] == PathSep) {
        if i + 1 < |out| {
          assert r[i] == out[i] && r[i + 1] == out[i + 1];
        } else if i + 1 == |out| {
          assert r[i + 1] == b[0];
        } else {
          assert r[i] == b[i - |out|] && r[i + 1] == b[i + 1 - |out|];
        }
      }
    } else {
      var r := out + [PathSep] + b;
      assert out[|out| - 1..] != [PathSep];
      assert out[|out| - 1..] == [out[|out| - 1]];
      forall i | 0 <= i < |r| - 1 ensures !(r[i] == PathSep && r[i + 1] == PathSep) {
        if i + 1 < |out| {
          assert r[i] == out[i] && r[i + 1] == out[i + 1];
        } else if i + 1 == |out| {
          assert r[i] == out[|out| - 1];
        } else if i == |out| {
          assert r[i + 1] == b[0];
        } else {
          assert r[i] == b[i - |out| - 1] && r[i + 1] == b[i - |out|];
        }
      }
    }
  }

  /** An empty last component leaves the path ending with a separator (or
      empty, when everything before it was empty). */
  lemma JoinedEmptyLast(a: string, parts: seq<string>)
    ensures var before := Joined(a, parts);
      var r := Joined(a, parts + [""]);
      (before == [] ==> r == []) && (before != [] ==> EndsWith(r, [PathSep]) && StartsWith(r, before))
  {
    JoinedAppend(a, parts, "");
    var before := Joined(a, parts);
    if before != [] && !EndsWith(before, [PathSep]) {
      assert JoinStep(before, "") == before + [PathSep];
    } else {
      assert before + "" == before;
    }
  }
}
