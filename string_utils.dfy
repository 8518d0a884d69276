/** The string helpers of the library: url_split_type, split, rsplit,
    lsplit_one, ltrim / rtrim / trim, count, cut_edges and replace. Each
    loop of the source is a method here, proved against a function on
    sequences that states what it computes. */
module StringUtils {
  import opened Wrappers
  import opened StdString

  /** The number of occurrences of ch in s. */
  function CountOf(s: string, ch: char): nat {
    if s == [] then 0 else CountOf(s[..|s| - 1], ch) + (if s[|s| - 1] == ch then 1 else 0)
  }

  /** count(src, ch): counts the matching characters one by one. */
  method Count(src: string, ch: char) returns (n: nat)
    ensures n == CountOf(src, ch)
  {
    n := 0;
    var i := 0;
    while i < |src|
      invariant 0 <= i <= |src|
      invariant n == CountOf(src[..i], ch)
    {
      assert src[..i + 1][..i] == src[..i];
      if src[i] == ch {
        n := n + 1;
      }
      i := i + 1;
    }
    assert src[..|src|] == src;
  }

  // ---------------------------------------------------------------------
  // url_split_type

  /** The first position at or after i that holds '/' or ':'. */
  function SchemeEnd(url: string, i: nat): (k: nat)
    requires i <= |url|
    ensures i <= k <= |url|
    ensures forall j :: i <= j < k ==> url[j] != '/' && url[j] != ':'
    ensures k < |url| ==> url[k] == '/' || url[k] == ':'
    decreases |url| - i
  {
    if i == |url| || url[i] == '/' || url[i] == ':' then i else SchemeEnd(url, i + 1)
  }

  /** What url_split_type computes: the text before the first ':' as the
      scheme and the rest as the data, when that text is not empty and
      holds no '/'; otherwise no scheme and the whole url as data. */
  function UrlSplitType(url: string): (r: (string, string))
    ensures r.0 != [] ==> r.0 + [':'] + r.1 == url
    ensures r.0 != [] ==> forall j :: 0 <= j < |r.0| ==> r.0[j] != '/' && r.0[j] != ':'
    ensures r.0 == [] ==> r.1 == url
  {
    var k := SchemeEnd(url, 0);
    if k < |url| && url[k] == ':' && k > 0 then (url[..k], url[k + 1..]) else ([], url)
  }

  /** Every url with a non-empty scheme before its first ':' and no '/'
      before it is split there. */
  lemma UrlSplitTypeAtColon(url: string, k: nat)
    requires 0 < k < |url| && url[k] == ':'
    requires forall j :: 0 <= j < k ==> url[j] != '/' && url[j] != ':'
    ensures UrlSplitType(url) == (url[..k], url[k + 1..])
  {
  }

  /** url_split_type: the character loop stops at the first '/' or ':'. */
  method UrlSplitTypeLoop(url: string) returns (scheme: string, data: string)
    ensures (scheme, data) == UrlSplitType(url)
  {
    scheme := [];
    data := [];
    var stop, colonFound := false, false;
    var i := 0;
    while i < |url| && !stop
      invariant 0 <= i <= |url|
      invariant !stop ==> !colonFound && scheme == url[..i] && i <= SchemeEnd(url, 0)
      invariant stop ==> 0 < i && SchemeEnd(url, 0) == i - 1 && scheme == url[..i - 1]
      invariant stop ==> colonFound == (url[i - 1] == ':')
    {
      var c := url[i];
      if c == '/' {
        stop := true;
      } else if c == ':' {
        colonFound := true;
        stop := true;
      } else {
        scheme := scheme + [c];
      }
      i := i + 1;
    }
    if scheme != [] && colonFound {
      data := url[i..];
    } else {
      scheme := [];
      data := url;
    }
  }

  // ---------------------------------------------------------------------
  // split

  /** The pieces of s between the occurrences of d, read left to right:
      always one more than the number of delimiters. */
  function Pieces(s: string, d: char): (r: seq<string>)
    ensures |r| >= 1
  {
    if s == [] then [[]] else Extend(Pieces(s[..|s| - 1], d), s[|s| - 1], d)
  }

  /** The pieces after reading one more character c: a delimiter opens a
      new piece, any other character extends the last one. */
  function Extend(p: seq<string>, c: char, d: char): (r: seq<string>)
    requires |p| >= 1
    ensures |r| >= 1
  {
    if c == d then p + [[]] else p[..|p| - 1] + [p[|p| - 1] + [c]]
  }

  /** Extend only touches the last pieces. */
  lemma ExtendAppend(a: seq<string>, b: seq<string>, c: char, d: char)
    requires |b| >= 1
    ensures Extend(a + b, c, d) == a + Extend(b, c, d)
  {
    if c != d {
      assert (a + b)[..|a + b| - 1] == a + b[..|b| - 1];
    }
  }

  /** The pieces joined back with d between them. */
  function Join(pieces: seq<string>, d: char): string
    requires |pieces| >= 1
  {
    if |pieces| == 1 then pieces[0] else Join(pieces[..|pieces| - 1], d) + [d] + pieces[|pieces| - 1]
  }

  /** What split computes: no piece at all for the empty string, else
      every piece between delimiters, empty ones included. */
  function SplitAsWritten(s: string, d: char): seq<string> {
    if s == [] then [] else Pieces(s, d)
  }

  /** split of the empty string gives no piece where one empty piece keeps
      the join round trip. */
  lemma SplitOfEmpty(d: char)
    ensures SplitAsWritten([], d) == []
    ensures Pieces([], d) == [[]] && Join(Pieces([], d), d) == []
  {
  }

  /** split(str, delimiter). */
  method Split(str: string, delimiter: char) returns (result: seq<string>)
    ensures result == SplitAsWritten(str, delimiter)
  {
    result := [];
    if str == [] {
      return;
    }
    var current: string := [];
    var i := 0;
    while i < |str|
      invariant 0 <= i <= |str|
      invariant result + [current] == Pieces(str[..i], delimiter)
    {
      assert str[..i + 1][..i] == str[..i];
      if str[i] == delimiter {
        result := result + [current];
        current := [];
      } else {
        current := current + [str[i]];
      }
      i := i + 1;
    }
    assert str[..|str|] == str;
    result := result + [current];
  }

  /** A non-empty string splits into one more piece than it has
      delimiters. */
  lemma {:induction false} PiecesCount(s: string, d: char)
    ensures |Pieces(s, d)| == CountOf(s, d) + 1
  {
    if s != [] {
      PiecesCount(s[..|s| - 1], d);
    }
  }

  /** Joining the pieces with the delimiter gives back the string. */
  lemma {:induction false} JoinPieces(s: string, d: char)
    ensures Join(Pieces(s, d), d) == s
  {
    if s != [] {
      var s' := s[..|s| - 1];
      var p := Pieces(s', d);
      JoinPieces(s', d);
      if s[|s| - 1] != d && |p| > 1 {
        var q := p[..|p| - 1] + [p[|p| - 1] + [s[|s| - 1]]];
        assert q[..|q| - 1] == p[..|p| - 1];
      }
      assert s == s' + [s[|s| - 1]];
    }
  }

  /** No piece contains the delimiter. */
  lemma {:induction false} PiecesHaveNoDelimiter(s: string, d: char)
    ensures forall i, j :: 0 <= i < |Pieces(s, d)| && 0 <= j < |Pieces(s, d)[i]| ==> Pieces(s, d)[i][j] != d
  {
    if s != [] {
      PiecesHaveNoDelimiter(s[..|s| - 1], d);
    }
  }

  /** A text without the delimiter is a single piece. */
  lemma {:induction false} PiecesWithoutDelimiter(s: string, d: char)
    requires d !in s
    ensures Pieces(s, d) == [s]
  {
    if s != [] {
      PiecesWithoutDelimiter(s[..|s| - 1], d);
      assert s[..|s| - 1] + [s[|s| - 1]] == s;
    }
  }

  /** Cutting at a delimiter splits the pieces there. */
  lemma {:induction false} PiecesAround(x: string, d: char, y: string)
    ensures Pieces(x + [d] + y, d) == Pieces(x, d) + Pieces(y, d)
    decreases |y|
  {
    var s := x + [d] + y;
    if y == [] {
      assert s[..|s| - 1] == x;
    } else {
      var y' := y[..|y| - 1];
      DropLast(x, d, y);
      assert Pieces(s, d) == Extend(Pieces(x + [d] + y', d), y[|y| - 1], d);
      PiecesAround(x, d, y');
      ExtendAppend(Pieces(x, d), Pieces(y', d), y[|y| - 1], d);
    }
  }

  /** x + [d] + y without its last character, and that character. */
  lemma DropLast(x: string, d: char, y: string)
    requires y != []
    ensures var s := x + [d] + y; s != [] && s[..|s| - 1] == x + [d] + y[..|y| - 1] && s[|s| - 1] == y[|y| - 1]
  {
  }

  /** Joining two runs of pieces puts a delimiter between their joins. */
  lemma {:induction false} JoinAppend(a: seq<string>, b: seq<string>, d: char)
    requires |a| >= 1 && |b| >= 1
    ensures Join(a + b, d) == Join(a, d) + [d] + Join(b, d)
    decreases |b|
  {
    if |b| > 1 {
      assert (a + b)[..|a + b| - 1] == a + b[..|b| - 1];
      JoinAppend(a, b[..|b| - 1], d);
    } else {
      assert (a + b)[..|a + b| - 1] == a;
    }
  }

  /** Reading one more character on the left: a delimiter opens a new
      first piece, any other character extends the first piece. */
  lemma PiecesCons(c: char, t: string, d: char)
    ensures Pieces([c] + t, d) ==
      if c == d then [[]] + Pieces(t, d)
      else [[c] + Pieces(t, d)[0]] + Pieces(t, d)[1..]
  {
    if c == d {
      PiecesAround([], d, t);
      assert [c] + t == [] + [d] + t;
    } else {
      PiecesConsOther(c, t, d);
    }
  }

  lemma {:induction false} PiecesConsOther(c: char, t: string, d: char)
    requires c != d
    ensures Pieces([c] + t, d) == [[c] + Pieces(t, d)[0]] + Pieces(t, d)[1..]
    decreases |t|
  {
    if t == [] {
      assert [c][..0] == [] && [c] + t == [c];
      assert Pieces([c], d) == Extend(Pieces([], d), c, d);
      assert [] + [c] == [c];
    } else {
      var t' := t[..|t| - 1];
      var s := [c] + t;
      assert s[..|s| - 1] == [c] + t';
      PiecesConsOther(c, t', d);
      ExtendHead(Pieces(t', d), [c], t[|t| - 1], d);
    }
  }

  /** Extend commutes with adding text in front of the first piece. */
  lemma ExtendHead(p: seq<string>, x: string, e: char, d: char)
    requires |p| >= 1
    ensures Extend([x + p[0]] + p[1..], e, d) == [x + Extend(p, e, d)[0]] + Extend(p, e, d)[1..]
  {
    if e == d {
      assert ([x + p[0]] + p[1..]) + [[]] == [x + p[0]] + (p[1..] + [[]]);
    } else if |p| > 1 {
      var q := [x + p[0]] + p[1..];
      assert q[..|q| - 1] == [x + p[0]] + p[1..|p| - 1] && q[|q| - 1] == p[|p| - 1];
      var r := Extend(p, e, d);
      assert r == p[..|p| - 1] + [p[|p| - 1] + [e]];
      assert r[0] == p[0] && r[1..] == p[1..|p| - 1] + [p[|p| - 1] + [e]];
      assert Extend(q, e, d) == [x + p[0]] + p[1..|p| - 1] + [p[|p| - 1] + [e]];
      assert [x + r[0]] + r[1..] == [x + p[0]] + (p[1..|p| - 1] + [p[|p| - 1] + [e]]);
    } else {
      var q := [x + p[0]] + p[1..];
      assert q == [x + p[0]] && q[..0] == [] && p[..0] == [];
      assert x + p[0] + [e] == x + (p[0] + [e]);
    }
  }

  // ---------------------------------------------------------------------
  // rsplit

  function Reverse(s: string): (r: string)
    ensures |r| == |s|
    ensures forall i :: 0 <= i < |s| ==> r[i] == s[|s| - 1 - i]
  {
    if s == [] then [] else Reverse(s[1..]) + [s[0]]
  }

  function Min(a: nat, b: nat): nat { if a < b then a else b }

  /** rsplit as intended: at most n splits, made from the right, with the
      text left of the last split kept whole. */
  function RSplitIntended(s: string, d: char, n: nat): seq<string> {
    var p := Pieces(s, d);
    var keep := |p| - Min(n, |p| - 1);
    [Join(p[..keep], d)] + p[keep..]
  }

  /** rsplit as written: once it has made every split before reaching n,
      it takes the text left of its scan position, which is then empty,
      instead of the first piece; n == 0 gives one empty piece. */
  function RSplitAsWritten(s: string, d: char, n: nat): seq<string> {
    if s == [] then []
    else if n == 0 then [[]]
    else
      var p := Pieces(s, d);
      if 0 < |p| - 1 < n then [[]] + p[1..] else RSplitIntended(s, d, n)
  }

  /** rsplit(str, delimiter, n): scans from the right, collecting reversed
      characters until a delimiter, at most n times. The source's test
      n < 0 of an unsigned n never holds and is left out. */
  method RSplit(str: string, delimiter: char, n: nat) returns (result: seq<string>)
    ensures result == RSplitAsWritten(str, delimiter, n)
  {
    if str == [] {
      return [];
    }
    result := [];
    var current: string := [];
    var splitCount := 0;
    var j := |str|;
    while j > 0 && splitCount < n
      invariant 0 <= j <= |str| && splitCount <= n
      invariant splitCount == CountOf(str[j..], delimiter)
      invariant Reverse(current) == Pieces(str[j..], delimiter)[0]
      invariant result == Pieces(str[j..], delimiter)[1..]
      invariant splitCount == n && n > 0 ==> j < |str| && str[j] == delimiter
      invariant n == 0 ==> j == |str|
      decreases j
    {
      var c := str[j - 1];
      RSplitStep(str, delimiter, j);
      if c == delimiter {
        result := [Reverse(current)] + result;
        current := [];
        splitCount := splitCount + 1;
      } else {
        ReverseAppend(current, c);
        current := current + [c];
      }
      j := j - 1;
    }
    RSplitEnd(str, delimiter, n, j, splitCount);
    if result == [] {
      result := [Reverse(current)];
    } else {
      result := [str[..j]] + result;
    }
  }

  lemma ReverseAppend(s: string, c: char)
    ensures Reverse(s + [c]) == [c] + Reverse(s)
    decreases |s|
  {
    if s != [] {
      assert (s + [c])[1..] == s[1..] + [c];
      ReverseAppend(s[1..], c);
    } else {
      assert Reverse([c]) == Reverse([]) + [c];
    }
  }

  /** One step of the scan: the text from j - 1 is one character longer. */
  lemma RSplitStep(s: string, d: char, j: nat)
    requires 0 < j <= |s|
    ensures s[j - 1..] == [s[j - 1]] + s[j..]
    ensures CountOf(s[j - 1..], d) == CountOf(s[j..], d) + (if s[j - 1] == d then 1 else 0)
    ensures Pieces(s[j - 1..], d) ==
      if s[j - 1] == d then [[]] + Pieces(s[j..], d)
      else [[s[j - 1]] + Pieces(s[j..], d)[0]] + Pieces(s[j..], d)[1..]
  {
    assert s[j - 1..] == [s[j - 1]] + s[j..];
    PiecesCons(s[j - 1], s[j..], d);
    PiecesCount(s[j - 1..], d);
    PiecesCount(s[j..], d);
  }

  /** Where the scan stops, the collected pieces are those of the
      specification. */
  lemma RSplitEnd(s: string, d: char, n: nat, j: nat, count: nat)
    requires s != [] && 0 <= j <= |s| && count <= n
    requires j == 0 || count == n
    requires count == CountOf(s[j..], d)
    requires count == n && n > 0 ==> j < |s| && s[j] == d
    requires n == 0 ==> j == |s|
    ensures var t := Pieces(s[j..], d);
      RSplitAsWritten(s, d, n) == if |t| == 1 then [t[0]] else [s[..j]] + t[1..]
  {
    if n == 0 {
      assert s[j..] == [];
    } else if j == 0 {
      assert s[j..] == s;
      RSplitEndWhole(s, d, n);
    } else {
      RSplitEndAt(s, d, n, j);
    }
  }

  /** The scan went through the whole string. */
  lemma RSplitEndWhole(s: string, d: char, n: nat)
    requires s != [] && n > 0 && CountOf(s, d) <= n
    requires CountOf(s, d) == n ==> s[0] == d
    ensures var p := Pieces(s, d);
      RSplitAsWritten(s, d, n) == if |p| == 1 then [p[0]] else [s[..0]] + p[1..]
  {
    var p := Pieces(s, d);
    PiecesCount(s, d);
    assert s[..0] == [];
    if |p| == 1 {
      RSplitWithoutDelimiter(s, d, n);
    } else if |p| - 1 >= n {
      RSplitAtFirst(s, d, n);
    }
  }

  lemma RSplitWithoutDelimiter(s: string, d: char, n: nat)
    requires s != [] && n > 0 && |Pieces(s, d)| == 1
    ensures RSplitAsWritten(s, d, n) == [Pieces(s, d)[0]]
  {
    var p := Pieces(s, d);
    JoinPieces(s, d);
    assert p[..1] == p && p[1..] == [];
    assert RSplitIntended(s, d, n) == [Join(p, d)];
  }

  lemma RSplitAtFirst(s: string, d: char, n: nat)
    requires s != [] && n > 0 && s[0] == d && |Pieces(s, d)| - 1 == n
    ensures RSplitAsWritten(s, d, n) == [[]] + Pieces(s, d)[1..]
  {
    var p := Pieces(s, d);
    assert s == [d] + s[1..];
    PiecesCons(d, s[1..], d);
    assert p[0] == [] && p[..1] == [[]];
    assert RSplitIntended(s, d, n) == [Join(p[..1], d)] + p[1..];
  }

  /** The scan stopped after its n-th split, at the delimiter s[j]. */
  lemma RSplitEndAt(s: string, d: char, n: nat, j: nat)
    requires 0 < j < |s| && s[j] == d && n > 0 && CountOf(s[j..], d) == n
    ensures var t := Pieces(s[j..], d);
      RSplitAsWritten(s, d, n) == if |t| == 1 then [t[0]] else [s[..j]] + t[1..]
  {
    var p := Pieces(s, d);
    var x, y := s[..j], s[j + 1..];
    assert s == x + [d] + y && s[j..] == [d] + y;
    PiecesAround(x, d, y);
    PiecesCons(d, y, d);
    PiecesCount(s[j..], d);
    PiecesCount(s, d);
    PiecesCount(x, d);
    PiecesCount(y, d);
    var keep := |p| - n;
    assert |Pieces(y, d)| == n;
    assert p[..keep] == Pieces(x, d) && p[keep..] == Pieces(y, d);
    JoinPieces(x, d);
  }

  /** The intended rsplit joins back to the string and makes
      min(n, delimiters) splits. */
  lemma RSplitIntendedJoins(s: string, d: char, n: nat)
    ensures |RSplitIntended(s, d, n)| == Min(n, CountOf(s, d)) + 1
    ensures Join(RSplitIntended(s, d, n), d) == s
  {
    var p := Pieces(s, d);
    PiecesCount(s, d);
    JoinPieces(s, d);
    var keep := |p| - Min(n, |p| - 1);
    assert RSplitIntended(s, d, n) == [Join(p[..keep], d)] + p[keep..];
    JoinKept(p, keep, d);
  }

  /** Joining the first keep pieces and leaving the others apart joins back
      to the same text. */
  lemma JoinKept(p: seq<string>, keep: nat, d: char)
    requires 1 <= keep <= |p|
    ensures |[Join(p[..keep], d)] + p[keep..]| == |p| - keep + 1
    ensures Join([Join(p[..keep], d)] + p[keep..], d) == Join(p, d)
  {
    if keep < |p| {
      JoinFirst(p[..keep], p[keep..], d);
      assert p[..keep] + p[keep..] == p;
    } else {
      assert p[..keep] == p;
      assert [Join(p, d)] + p[keep..] == [Join(p, d)];
    }
  }

  /** Joining a run whose first piece is itself a join. */
  lemma JoinFirst(a: seq<string>, b: seq<string>, d: char)
    requires |a| >= 1 && |b| >= 1
    ensures Join([Join(a, d)] + b, d) == Join(a + b, d)
  {
    JoinAppend([Join(a, d)], b, d);
    JoinAppend(a, b, d);
  }

  /** With at least n delimiters, the source's rsplit makes its n splits
      as intended. */
  lemma RSplitAgrees(s: string, d: char, n: nat)
    requires n > 0 && CountOf(s, d) >= n
    ensures RSplitAsWritten(s, d, n) == RSplitIntended(s, d, n)
  {
    PiecesCount(s, d);
  }

  /** The empty string and n == 0, where the source returns no piece and
      one empty piece, and the intended rsplit the string itself. */
  lemma RSplitEdgeCases(s: string, d: char, n: nat)
    ensures RSplitAsWritten([], d, n) == [] && RSplitIntended([], d, n) == [[]]
    ensures s != [] ==> RSplitAsWritten(s, d, 0) == [[]] && RSplitIntended(s, d, 0) == [s]
  {
    assert Pieces([], d) == [[]];
    var p := Pieces(s, d);
    assert p[..|p|] == p;
    JoinPieces(s, d);
  }

  /** rsplit("a:b", ':', 5) gives ["", "b"]: the "a" is lost. */
  lemma RSplitLosesFirstPiece()
    ensures RSplitAsWritten("a:b", ':', 5) == ["", "b"]
    ensures RSplitIntended("a:b", ':', 5) == ["a", "b"]
  {
    var s := "a:b";
    assert s[..2] == "a:" && s[..2][..1] == "a" && s[..1][..0] == [];
    assert Pieces([], ':') == [[]];
    assert "a"[..0] == [] && [] + "a" == "a" && [] + "b" == "b";
    assert Pieces("a", ':') == ["a"];
    assert Pieces("a:", ':') == ["a", ""];
    var p := Pieces(s, ':');
    assert p == ["a", "b"];
    assert p[..1] == ["a"] && p[1..] == ["b"];
  }

  // ---------------------------------------------------------------------
  // lsplit_one

  /** lsplit_one(s, delimiter): the text before the first delimiter and
      the text after it; (s, "") when there is none. */
  method LSplitOne(s: string, delimiter: char) returns (first: string, second: string)
    ensures delimiter !in first
    ensures delimiter in s ==> first + [delimiter] + second == s
    ensures delimiter !in s ==> first == s && second == []
  {
    first, second := [], [];
    var i := 0;
    while i < |s|
      invariant 0 <= i <= |s| && first == s[..i] && second == [] && delimiter !in first
    {
      if s[i] == delimiter {
        if i + 1 < |s| {
          second := s[i + 1..];
        }
        assert s == first + [delimiter] + second;
        return;
      }
      first := first + [s[i]];
      i := i + 1;
    }
    assert first == s;
  }

  // ---------------------------------------------------------------------
  // ltrim, rtrim, trim

  /** k copies of t. */
  function Power(t: string, k: nat): string {
    if k == 0 then [] else t + Power(t, k - 1)
  }

  /** s without its leading copies of t. */
  function LTrimmed(s: string, t: string): string
    requires |t| > 0
    decreases |s|
  {
    if StartsWith(s, t) then LTrimmed(s[|t|..], t) else s
  }

  /** s without its trailing copies of t. */
  function RTrimmed(s: string, t: string): string
    requires |t| > 0
    decreases |s|
  {
    if EndsWith(s, t) then RTrimmed(s[..|s| - |t|], t) else s
  }

  /** trim: ltrim, then rtrim. */
  function Trimmed(s: string, t: string): string
    requires |t| > 0
  {
    RTrimmed(LTrimmed(s, t), t)
  }

  /** ltrim(s, to_trim): erases leading copies while s starts with one. The
      source never stops for an empty to_trim, which is excluded here. */
  method LTrim(s: string, toTrim: string) returns (r: string)
    requires |toTrim| > 0
    ensures r == LTrimmed(s, toTrim)
  {
    r := s;
    while StartsWith(r, toTrim)
      invariant LTrimmed(r, toTrim) == LTrimmed(s, toTrim)
      decreases |r|
    {
      r := r[|toTrim|..];
    }
  }

  /** rtrim(s, to_trim): erases trailing copies while s ends with one. */
  method RTrim(s: string, toTrim: string) returns (r: string)
    requires |toTrim| > 0
    ensures r == RTrimmed(s, toTrim)
  {
    r := s;
    while EndsWith(r, toTrim)
      invariant RTrimmed(r, toTrim) == RTrimmed(s, toTrim)
      decreases |r|
    {
      r := r[..|r| - |toTrim|];
    }
  }

  /** trim(s, to_trim). */
  method Trim(s: string, toTrim: string) returns (r: string)
    requires |toTrim| > 0
    ensures r == Trimmed(s, toTrim)
  {
    r := LTrim(s, toTrim);
    r := RTrim(r, toTrim);
  }

  /** ltrim removes whole leading copies of to_trim and nothing else, and
      stops at the first place that does not start with one. */
  lemma {:induction false} LTrimmedShape(s: string, t: string)
    requires |t| > 0
    ensures !StartsWith(LTrimmed(s, t), t)
    ensures exists k: nat :: s == Power(t, k) + LTrimmed(s, t)
    decreases |s|
  {
    if StartsWith(s, t) {
      var rest := s[|t|..];
      LTrimmedShape(rest, t);
      var k: nat :| rest == Power(t, k) + LTrimmed(rest, t);
      assert s == Power(t, k + 1) + LTrimmed(s, t);
    } else {
      assert s == Power(t, 0) + s;
    }
  }

  /** rtrim removes whole trailing copies of to_trim and nothing else. */
  lemma {:induction false} RTrimmedShape(s: string, t: string)
    requires |t| > 0
    ensures !EndsWith(RTrimmed(s, t), t)
    ensures exists k: nat :: s == RTrimmed(s, t) + Power(t, k)
    decreases |s|
  {
    if EndsWith(s, t) {
      var rest := s[..|s| - |t|];
      RTrimmedShape(rest, t);
      var k: nat :| rest == RTrimmed(rest, t) + Power(t, k);
      assert RTrimmed(s, t) == RTrimmed(rest, t);
      TrailingCopies(s, rest, t, RTrimmed(rest, t), k);
    } else {
      assert s == s + Power(t, 0);
    }
  }

  /** One more trailing copy of t. */
  lemma TrailingCopies(s: string, rest: string, t: string, trimmed: string, k: nat)
    requires EndsWith(s, t) && rest == s[..|s| - |t|] && rest == trimmed + Power(t, k)
    ensures s == trimmed + Power(t, k + 1)
  {
    PowerAppend(t, k);
    assert s == rest + t;
  }

  lemma {:induction false} PowerAppend(t: string, k: nat)
    ensures Power(t, k) + t == Power(t, k + 1)
  {
    if k > 0 {
      PowerAppend(t, k - 1);
    }
  }

  /** rtrim keeps a prefix of its input. */
  lemma {:induction false} RTrimmedIsPrefix(s: string, t: string)
    requires |t| > 0
    ensures |RTrimmed(s, t)| <= |s| && s[..|RTrimmed(s, t)|] == RTrimmed(s, t)
    decreases |s|
  {
    if EndsWith(s, t) {
      var rest := s[..|s| - |t|];
      RTrimmedIsPrefix(rest, t);
      assert s[..|RTrimmed(s, t)|] == rest[..|RTrimmed(s, t)|];
    }
  }

  /** Trimming twice is trimming once. */
  lemma TrimIdempotent(s: string, t: string)
    requires |t| > 0
    ensures Trimmed(Trimmed(s, t), t) == Trimmed(s, t)
  {
    var left := LTrimmed(s, t);
    var both := RTrimmed(left, t);
    LTrimmedShape(s, t);
    RTrimmedShape(left, t);
    RTrimmedIsPrefix(left, t);
    assert LTrimmed(both, t) == both;
    assert RTrimmed(both, t) == both;
  }

  // ---------------------------------------------------------------------
  // Character-set trimming, what the tests of ltrim, rtrim and trim expect

  /** s without its leading characters that occur in chars. */
  function CharsLTrimmed(s: string, chars: string): string
    decreases |s|
  {
    if s != [] && s[0] in chars then CharsLTrimmed(s[1..], chars) else s
  }

  /** s without its trailing characters that occur in chars. */
  function CharsRTrimmed(s: string, chars: string): string
    decreases |s|
  {
    if s != [] && s[|s| - 1] in chars then CharsRTrimmed(s[..|s| - 1], chars) else s
  }

  function CharsTrimmed(s: string, chars: string): string {
    CharsRTrimmed(CharsLTrimmed(s, chars), chars)
  }

  /** The left character-set trim removes a prefix made only of members of
      chars and stops at the first character that is not one. */
  lemma {:induction false} CharsLTrimmedShape(s: string, chars: string)
    ensures var r := CharsLTrimmed(s, chars);
      |r| <= |s| && s[|s| - |r|..] == r &&
      (forall i :: 0 <= i < |s| - |r| ==> s[i] in chars) &&
      (r == [] || r[0] !in chars)
    decreases |s|
  {
    if s != [] && s[0] in chars {
      CharsLTrimmedShape(s[1..], chars);
    }
  }

  /** The right character-set trim removes a suffix made only of members of
      chars and stops at the last character that is not one. */
  lemma {:induction false} CharsRTrimmedShape(s: string, chars: string)
    ensures var r := CharsRTrimmed(s, chars);
      |r| <= |s| && s[..|r|] == r &&
      (forall i :: |r| <= i < |s| ==> s[i] in chars) &&
      (r == [] || r[|r| - 1] !in chars)
    decreases |s|
  {
    if s != [] && s[|s| - 1] in chars {
      CharsRTrimmedShape(s[..|s| - 1], chars);
    }
  }

  /** Neither end of the trimmed text is in chars. */
  lemma CharsTrimmedEdges(s: string, chars: string)
    ensures var r := CharsTrimmed(s, chars);
      r == [] || (r[0] !in chars && r[|r| - 1] !in chars)
  {
    var left := CharsLTrimmed(s, chars);
    CharsLTrimmedShape(s, chars);
    CharsRTrimmedShape(left, chars);
  }

  /** For a one-character to_trim, the default " " among them, removing
      whole copies is removing that character: the two readings agree. */
  lemma {:induction false} OneCharTrimsAgree(s: string, c: char)
    ensures LTrimmed(s, [c]) == CharsLTrimmed(s, [c])
    ensures RTrimmed(s, [c]) == CharsRTrimmed(s, [c])
    decreases |s|
  {
    if s != [] {
      OneCharTrimsAgree(s[1..], c);
      OneCharTrimsAgree(s[..|s| - 1], c);
      assert StartsWith(s, [c]) <==> s[0] in [c];
      assert EndsWith(s, [c]) <==> s[|s| - 1] in [c];
    }
  }

  /** A prefix made of members of chars is removed by the left trim. */
  lemma {:induction false} CharsLTrimmedPrefix(a: string, b: string, chars: string)
    requires forall i :: 0 <= i < |a| ==> a[i] in chars
    ensures CharsLTrimmed(a + b, chars) == CharsLTrimmed(b, chars)
    decreases |a|
  {
    if a != [] {
      assert (a + b)[1..] == a[1..] + b;
      CharsLTrimmedPrefix(a[1..], b, chars);
    } else {
      assert a + b == b;
    }
  }

  /** A suffix made of members of chars is removed by the right trim. */
  lemma {:induction false} CharsRTrimmedSuffix(a: string, b: string, chars: string)
    requires forall i :: 0 <= i < |b| ==> b[i] in chars
    ensures CharsRTrimmed(a + b, chars) == CharsRTrimmed(a, chars)
    decreases |b|
  {
    if b != [] {
      assert (a + b)[..|a + b| - 1] == a + b[..|b| - 1];
      CharsRTrimmedSuffix(a, b[..|b| - 1], chars);
    } else {
      assert a + b == a;
    }
  }

  /** ltrim("%%%Hello, World", "%eH") is unchanged, as "%%%" is not a copy
      of "%eH", where the test expects "llo, World". */
  lemma LTrimCustomChars()
    ensures LTrimmed("%%%Hello, World", "%eH") == "%%%Hello, World"
    ensures CharsLTrimmed("%%%Hello, World", "%eH") == "llo, World"
  {
    var s, t := "%%%Hello, World", "%eH";
    assert s[..3][1] == '%' != t[1];
    var a, b := "%%%He", "llo, World";
    assert s == a + b;
    CharsLTrimmedPrefix(a, b, t);
    assert b[0] == 'l' && 'l' !in t;
  }

  /** rtrim(" -- Hello, World -- ", " World-") is unchanged, where the test
      expects " -- Hello,". */
  lemma RTrimCustomChars()
    ensures RTrimmed(" -- Hello, World -- ", " World-") == " -- Hello, World -- "
    ensures CharsRTrimmed(" -- Hello, World -- ", " World-") == " -- Hello,"
  {
    var s, w := " -- Hello, World -- ", " World-";
    assert s[|s| - 7..][0] == 'r' && w[0] == ' ';
    var a, b := " -- Hello,", " World -- ";
    assert s == a + b;
    CharsRTrimmedSuffix(a, b, w);
    assert a[|a| - 1] == ',' && ',' !in w;
  }

  // ---------------------------------------------------------------------
  // cut_edges

  /** 2^64: the modulus of size_t arithmetic. */
  const SizeModulus: int := 0x1_0000_0000_0000_0000

  /** A C++ size_t. */
  newtype uint64 = x: int | 0 <= x < 0x1_0000_0000_0000_0000

  /** The two erasures of cut_edges. The length test compares with the
      size_t sum left_n + right_n, which wraps modulo 2^64; erase(0, left_n)
      removes at most what there is, and erase(copy.size() - right_n) takes
      a size_t difference that wraps, and throws out_of_range when the
      position it gives lies past the end. */
  function CutCopy(s: string, leftN: uint64, rightN: uint64): Result<string> {
    if |s| >= (leftN as int + rightN as int) % SizeModulus then
      var afterLeft := if leftN > 0 then s[if leftN as int <= |s| then leftN as int else |s|..] else s;
      if rightN > 0 then
        var pos := (|afterLeft| - rightN as int) % SizeModulus;
        if pos > |afterLeft| then Err(OutOfRange) else Ok(afterLeft[..pos])
      else Ok(afterLeft)
    else Ok(s)
  }

  /** cut_edges(s, left_n, right_n, trim_whitespace): drops left_n
      characters on the left and right_n on the right when the string is
      long enough, then trims spaces if asked. A string of 2^64 characters
      or more cannot exist. When left_n + right_n overflows size_t and its
      wrapped value is at most the length, the left erasure leaves fewer
      than right_n characters and the right erasure throws. */
  function CutEdges(s: string, leftN: uint64, rightN: uint64, trimWhitespace: bool): (r: Result<string>)
    requires |s| < SizeModulus
    ensures leftN as int + rightN as int <= |s| ==>
      r.Ok? && var middle := s[leftN..|s| - rightN as int];
      r.value == (if trimWhitespace then Trimmed(middle, " ") else middle)
    ensures |s| < (leftN as int + rightN as int) % SizeModulus ==>
      r == Ok(if trimWhitespace then Trimmed(s, " ") else s)
    ensures SizeModulus <= leftN as int + rightN as int <= SizeModulus + |s| ==> r == Err(OutOfRange)
  {
    CutCopyWithin(s, leftN, rightN);
    var copy :- CutCopy(s, leftN, rightN);
    Ok(if trimWhitespace then Trimmed(copy, " ") else copy)
  }

  lemma CutCopyWithin(s: string, leftN: uint64, rightN: uint64)
    requires |s| < SizeModulus
    ensures leftN as int + rightN as int <= |s| ==> CutCopy(s, leftN, rightN) == Ok(s[leftN..|s| - rightN as int])
  {
    if leftN as int + rightN as int > |s| {
      return;
    }
    var afterLeft := s[leftN..];
    assert (leftN as int + rightN as int) % SizeModulus == leftN as int + rightN as int;
    if rightN > 0 {
      assert (|afterLeft| - rightN as int) % SizeModulus == |afterLeft| - rightN as int;
      assert afterLeft[..|afterLeft| - rightN as int] == s[leftN..|s| - rightN as int];
    } else {
      assert afterLeft == s[leftN..|s| - rightN as int];
    }
  }

  /** The cut keeps the middle of s: s is the left_n dropped characters,
      the result and the right_n dropped characters. */
  lemma CutEdgesMiddle(s: string, leftN: uint64, rightN: uint64)
    requires leftN as int + rightN as int <= |s| < SizeModulus
    ensures CutEdges(s, leftN, rightN, false).Ok?
    ensures s[..leftN] + CutEdges(s, leftN, rightN, false).value + s[|s| - rightN as int..] == s
  {
    assert s[..leftN] + s[leftN..|s| - rightN as int] + s[|s| - rightN as int..] == s;
  }

  /** left_n = 2^64 - 1 with right_n = 2 wraps to 1 and passes the length
      test of a one-character string, and the right erasure throws. */
  lemma CutEdgesWrapThrows()
    ensures CutEdges("a", 0xFFFF_FFFF_FFFF_FFFF, 2, false) == Err(OutOfRange)
  {
  }

  // ---------------------------------------------------------------------
  // replace

  /** std::string::replace(pos, len, str) on copy: out_of_range past the
      end, else at most the characters up to the end are replaced. */
  function ReplaceAt(copy: string, pos: nat, len: nat, str: string): Result<string> {
    if pos > |copy| then Err(OutOfRange)
    else
      var end := if pos + len <= |copy| then pos + len else |copy|;
      Ok(copy[..pos] + str + copy[end..])
  }

  /** A replacement that ends inside copy succeeds. */
  lemma ReplaceAtWithin(copy: string, pos: nat, len: nat, str: string)
    requires pos + len <= |copy|
    ensures ReplaceAt(copy, pos, len, str) == Ok(copy[..pos] + str + copy[pos + len..])
  {
  }

  /** replace as written, from position index on: the occurrences are
      searched in src while the replacements are made in copy, and the
      search resumes new_sub's length after the match. */
  function ReplaceDrift(src: string, target: string, replacement: string, copy: string, index: nat): Result<string>
    requires |replacement| > 0
    decreases |src| + 1 - index
  {
    if index > |src| then Ok(copy)
    else
      match Find(src, target, index)
      case None => Ok(copy)
      case Some(p) =>
        var copy' :- ReplaceAt(copy, p, |target|, replacement);
        ReplaceDrift(src, target, replacement, copy', p + |replacement|)
  }

  /** replace(src, old_sub, new_sub). The source loops for ever when new_sub
      is empty and old_sub occurs; the model requires a non-empty new_sub. */
  method Replace(src: string, target: string, replacement: string) returns (r: Result<string>)
    requires |replacement| > 0
    ensures r == ReplaceDrift(src, target, replacement, src, 0)
  {
    var copy := src;
    var index := 0;
    while true
      invariant ReplaceDrift(src, target, replacement, copy, index) == ReplaceDrift(src, target, replacement, src, 0)
      decreases |src| + 1 - index
    {
      if index > |src| {
        return Ok(copy);
      }
      var found := Find(src, target, index);
      if found.None? {
        return Ok(copy);
      }
      var step := ReplaceAt(copy, found.value, |target|, replacement);
      if step.Err? {
        return Err(step.error);
      }
      copy := step.value;
      index := found.value + |replacement|;
    }
  }

  /** When old_sub and new_sub have the same length the copy keeps the
      positions of src: from any point where the copy still agrees with
      src, the rest of src has every occurrence replaced. */
  lemma {:induction false} ReplaceSameLengthFrom(src: string, target: string, replacement: string, copy: string, index: nat)
    requires |target| == |replacement| > 0 && index <= |src|
    requires |copy| == |src| && copy[index..] == src[index..]
    ensures ReplaceDrift(src, target, replacement, copy, index) == Ok(copy[..index] + ReplaceAll(src[index..], target, replacement))
    decreases |src| - index
  {
    var f := Find(src, target, index);
    if f.None? {
      ReplaceAllFromNone(src, target, replacement, index);
      DriftNone(src, target, replacement, copy, index);
      assert copy == copy[..index] + copy[index..];
    } else {
      var p := f.value;
      var q := p + |target|;
      var copy' := copy[..p] + replacement + copy[q..];
      ReplaceAtWithin(copy, p, |target|, replacement);
      DriftStep(src, target, replacement, copy, index, p, copy', q);
      assert copy'[q..] == copy[q..] == src[q..];
      ReplaceSameLengthFrom(src, target, replacement, copy', q);
      ReplaceAllFrom(src, target, replacement, index, p, q);
      Regather(src, copy, replacement, index, p, q, copy',
        ReplaceAll(src[q..], target, replacement), ReplaceAll(src[index..], target, replacement));
    }
  }

  /** replace as written stops when nothing is found from index on. */
  lemma DriftNone(src: string, target: string, replacement: string, copy: string, index: nat)
    requires |replacement| > 0 && index <= |src| && Find(src, target, index).None?
    ensures ReplaceDrift(src, target, replacement, copy, index) == Ok(copy)
  {
  }

  /** One step of replace as written, at the occurrence p found from index. */
  lemma DriftStep(src: string, target: string, replacement: string, copy: string, index: nat, p: nat, copy': string, q: nat)
    requires |replacement| > 0 && index <= |src| && Find(src, target, index) == Some(p)
    requires ReplaceAt(copy, p, |target|, replacement) == Ok(copy') && q == p + |replacement|
    ensures ReplaceDrift(src, target, replacement, copy, index) == ReplaceDrift(src, target, replacement, copy', q)
  {
  }

  /** Replacing every occurrence from index on, seen from src. */
  lemma ReplaceAllFrom(src: string, target: string, replacement: string, index: nat, p: nat, q: nat)
    requires |target| > 0 && index <= |src| && Find(src, target, index) == Some(p) && q == p + |target|
    ensures ReplaceAll(src[index..], target, replacement)
      == src[index..p] + replacement + ReplaceAll(src[q..], target, replacement)
  {
    var t := src[index..];
    FindInSuffix(src, target, index);
    assert Find(t, target, 0) == Some(p - index);
    var k := p - index;
    assert t[k + |target|..] == src[q..];
    assert t[..k] == src[index..p];
    ReplaceAllAt(t, target, replacement, k);
  }

  /** Nothing to replace from index on. */
  lemma ReplaceAllFromNone(src: string, target: string, replacement: string, index: nat)
    requires |target| > 0 && index <= |src| && Find(src, target, index).None?
    ensures ReplaceAll(src[index..], target, replacement) == src[index..]
  {
    FindInSuffix(src, target, index);
  }

  /** The copy after one more replacement, read up to the end of it, and the
      rest of src replaced. */
  lemma Regather(src: string, copy: string, replacement: string, index: nat, p: nat, q: nat, copy': string, rest: string, whole: string)
    requires index <= p <= q <= |copy| == |src| && q - p == |replacement| && copy[index..] == src[index..]
    requires copy' == copy[..p] + replacement + copy[q..] && whole == src[index..p] + replacement + rest
    ensures copy'[..q] + rest == copy[..index] + whole
  {
    assert copy'[..q] == copy[..p] + replacement;
    assert copy[..index] + src[index..p] == copy[..p];
  }

  /** replace with an old_sub and a new_sub of the same length replaces
      every occurrence. */
  lemma ReplaceSameLength(src: string, target: string, replacement: string)
    requires |target| == |replacement| > 0
    ensures ReplaceDrift(src, target, replacement, src, 0) == Ok(ReplaceAll(src, target, replacement))
  {
    ReplaceSameLengthFrom(src, target, replacement, src, 0);
    assert src[0..] == src;
    assert src[..0] + ReplaceAll(src, target, replacement) == ReplaceAll(src, target, replacement);
  }

  /** replace("aaaaaa", "aaa", "b") gives "bbbb" where replacing every
      occurrence gives "bb": the search goes on in src at positions that
      the shorter copy no longer has. */
  lemma ReplaceDrifts()
    ensures ReplaceDrift("aaaaaa", "aaa", "b", "aaaaaa", 0) == Ok("bbbb")
    ensures ReplaceAll("aaaaaa", "aaa", "b") == "bb"
  {
    var s, t, b := "aaaaaa", "aaa", "b";
    assert IsAt(s, t, 0) && IsAt(s, t, 1) && IsAt(s, t, 2) && IsAt(s, t, 3);
    assert Find(s, t, 4) == None;
    assert ReplaceDrift(s, t, b, "bbbb", 4) == Ok("bbbb");
    assert "bbb"[..3] + b + "bbb"[3..] == "bbbb";
    assert ReplaceDrift(s, t, b, "bbb", 3) == Ok("bbbb");
    assert "bb"[..2] + b + "bb"[2..] == "bbb";
    assert ReplaceDrift(s, t, b, "bb", 2) == Ok("bbbb");
    assert "baaa"[..1] + b + "baaa"[4..] == "bb";
    assert ReplaceDrift(s, t, b, "baaa", 1) == Ok("bbbb");
    assert s[..0] + b + s[3..] == "baaa";
    assert s[3..] == t && t[3..] == [];
    assert Find(t, t, 0) == Some(0);
    assert ReplaceAll(t, t, b) == b;
  }

  /** replace with an empty old_sub: find("", index) succeeds at every
      position up to the end of src and each round inserts new_sub there in
      copy, so a one-character new_sub ends up |src| + 1 times in front of
      src, where the test expects src unchanged. */
  lemma ReplaceEmptyOldSub(src: string, c: char)
    ensures ReplaceDrift(src, [], [c], src, 0) == Ok(Repeat(c, |src| + 1) + src)
  {
    ReplaceEmptyOldFrom(src, c, 0);
  }

  lemma {:induction false} ReplaceEmptyOldFrom(src: string, c: char, k: nat)
    requires k <= |src| + 1
    ensures ReplaceDrift(src, [], [c], Repeat(c, k) + src, k) == Ok(Repeat(c, |src| + 1) + src)
    decreases |src| + 1 - k
  {
    if k <= |src| {
      assert IsAt(src, [], k);
      var copy := Repeat(c, k) + src;
      assert copy[..k] + [c] + copy[k..] == Repeat(c, k + 1) + src;
      ReplaceEmptyOldFrom(src, c, k + 1);
    }
  }

  /** replace with an empty new_sub at an occurrence p of old_sub: the round
      erases old_sub at p in copy and the index stays at p, where the search
      in the unchanged src finds p again. The copy never gets shorter than
      p, so the erasure never throws and the loop never ends; this is why
      Replace requires a non-empty new_sub. */
  lemma ReplaceEmptyNewSubNeverEnds(src: string, target: string, copy: string, p: nat)
    requires IsAt(src, target, p) && p <= |copy|
    ensures Find(src, target, p) == Some(p)
    ensures ReplaceAt(copy, p, |target|, []).Ok?
    ensures p <= |ReplaceAt(copy, p, |target|, []).value| <= |copy|
  {
  }

  /** replace as its tests expect it: every occurrence of old_sub, found
      left to right without overlaps, replaced by new_sub, which may be
      empty, and src returned as it is for an empty old_sub. */
  function ReplaceIntended(src: string, target: string, replacement: string): (r: string)
    ensures target == [] ==> r == src
    ensures target != [] ==> |r| == |src| + Occurrences(src, target) * (|replacement| - |target|)
    ensures target != [] && (forall j :: !IsAt(src, target, j)) ==> r == src
  {
    if target == [] then src
    else
      ReplaceAllLength(src, target, replacement);
      ReplaceAll(src, target, replacement)
  }
}
