/** re/regex.cpp: escaping a text so that it matches itself, and the groups
    a search collects and group reads back by position. The engine's matches
    are given to search as a parameter. */
module Re {
  import opened Wrappers

  /** The characters escape prefixes with a backslash: [ \ ^ $ . | ? * + ( ) { } */
  const Special: string := "[\\^$.|?*+(){}"

  predicate IsSpecial(c: char) { c in Special }

  /** The text of s with a backslash before every special character. */
  function Escaped(s: string): string {
    if s == [] then [] else (if IsSpecial(s[0]) then ['\\', s[0]] else [s[0]]) + Escaped(s[1..])
  }

  /** escape: the loop over the characters of s. */
  method Escape(s: string) returns (escaped: string)
    ensures escaped == Escaped(s)
  {
    escaped := [];
    var i := 0;
    while i < |s|
      invariant 0 <= i <= |s|
      invariant escaped + Escaped(s[i..]) == Escaped(s)
    {
      var chr := s[i];
      assert s[i..][1..] == s[i + 1..];
      if chr in Special {
        escaped := escaped + ['\\'];
      }
      escaped := escaped + [chr];
      i := i + 1;
    }
  }

  /** The number of special characters in s. */
  function SpecialCount(s: string): nat {
    if s == [] then 0 else (if IsSpecial(s[0]) then 1 else 0) + SpecialCount(s[1..])
  }

  /** escape adds exactly one character per special character. */
  lemma {:induction false} EscapedLength(s: string)
    ensures |Escaped(s)| == |s| + SpecialCount(s)
  {
    if s != [] {
      EscapedLength(s[1..]);
    }
  }

  /** Dropping each backslash and keeping the character after it. */
  function Unescape(t: string): string {
    if t == [] then []
    else if t[0] == '\\' && |t| >= 2 then [t[1]] + Unescape(t[2..])
    else [t[0]] + Unescape(t[1..])
  }

  /** Removing the inserted backslashes gives back the input. */
  lemma {:induction false} UnescapeEscaped(s: string)
    ensures Unescape(Escaped(s)) == s
  {
    if s != [] {
      var head := if IsSpecial(s[0]) then ['\\', s[0]] else [s[0]];
      var rest := Escaped(s[1..]);
      assert Escaped(s) == head + rest;
      UnescapeEscaped(s[1..]);
      if IsSpecial(s[0]) {
        assert (head + rest)[2..] == rest;
      } else {
        assert s[0] != '\\';
        assert (head + rest)[1..] == rest;
      }
      assert s == [s[0]] + s[1..];
    }
  }

  /** Braces are escaped, '%' and '#' are not. */
  lemma EscapeExamples()
    ensures Escaped("{%") == "\\{%" && Escaped("%}") == "%\\}"
    ensures Escaped("{{") == "\\{\\{" && Escaped("#}") == "#\\}"
  {
    assert IsSpecial('{') && IsSpecial('}') && !IsSpecial('%') && !IsSpecial('#');
    EscapedTwo('{', '%');
    EscapedTwo('%', '}');
    EscapedTwo('{', '{');
    EscapedTwo('#', '}');
  }

  lemma EscapedTwo(c: char, d: char)
    ensures Escaped([c, d]) == (if IsSpecial(c) then ['\\', c] else [c]) + (if IsSpecial(d) then ['\\', d] else [d])
  {
    var hc := if IsSpecial(c) then ['\\', c] else [c];
    var hd := if IsSpecial(d) then ['\\', d] else [d];
    assert [c, d][1..] == [d];
    assert [d][1..] == [];
    assert Escaped([d]) == hd + Escaped([]) == hd + [] == hd;
    assert Escaped([c, d]) == hc + Escaped([d]);
  }

  /** The entries of one match result that took part (match.matched), the
      whole match first, in order. */
  function Kept(m: seq<Option<string>>): seq<string> {
    if m == [] then [] else Kept(m[..|m| - 1]) + (if m[|m| - 1].Some? then [m[|m| - 1].value] else [])
  }

  /** The groups a search collects over the engine's successive matches. */
  function Collected(rounds: seq<seq<Option<string>>>): seq<string> {
    if rounds == [] then [] else Collected(rounds[..|rounds| - 1]) + Kept(rounds[|rounds| - 1])
  }

  /** Regex: only the captured groups are modelled; the compiled expression
      and the engine are not. */
  class Regex {
    var groups: seq<string>

    /** Regex(expr): no search has run yet. */
    constructor ()
      ensures groups == []
    {
      groups := [];
    }

    /** search: the groups are cleared, then every entry that took part in
        each successive match is appended; rounds[k] is the k-th match
        std::regex_search finds, its whole match first and None for a group
        that did not take part. The result is whether any match was found.
        rounds is finite, so it stands only for searches that end: as
        written, search never returns once a match is empty (see
        StarSearchRepeats), and a pattern such as a* always reaches one. */
    method Search(rounds: seq<seq<Option<string>>>) returns (found: bool)
      modifies this
      ensures found <==> rounds != []
      ensures groups == Collected(rounds)
    {
      groups := [];
      found := false;
      var k := 0;
      while k < |rounds|
        invariant 0 <= k <= |rounds|
        invariant groups == Collected(rounds[..k])
        invariant found <==> k > 0
      {
        var m := rounds[k];
        var j := 0;
        while j < |m|
          invariant 0 <= j <= |m|
          invariant groups == Collected(rounds[..k]) + Kept(m[..j])
        {
          assert m[..j + 1][..j] == m[..j];
          if m[j].Some? {
            groups := groups + [m[j].value];
          }
          j := j + 1;
        }
        assert m[..|m|] == m;
        assert rounds[..k + 1][..k] == rounds[..k];
        found := true;
        k := k + 1;
      }
      assert rounds[..|rounds|] == rounds;
    }

    /** group: the group at pos, or "" past the last group. */
    function Group(pos: nat): (r: string)
      reads this
      ensures pos >= |groups| ==> r == ""
      ensures pos < |groups| ==> r == groups[pos]
    {
      if pos < |groups| then groups[pos] else ""
    }
  }

  /** The entries kept from a prefix of a match result begin the entries
      kept from the whole. */
  lemma {:induction false} KeptPrefix(m: seq<Option<string>>, j: nat)
    requires j <= |m|
    ensures Kept(m[..j]) <= Kept(m)
    decreases |m| - j
  {
    if j < |m| {
      KeptPrefix(m, j + 1);
      assert m[..j + 1][..j] == m[..j];
    } else {
      assert m[..j] == m;
    }
  }

  /** The groups collected over the first k matches begin the groups
      collected over all of them. */
  lemma {:induction false} CollectedPrefix(rounds: seq<seq<Option<string>>>, k: nat)
    requires k <= |rounds|
    ensures Collected(rounds[..k]) <= Collected(rounds)
    decreases |rounds| - k
  {
    if k < |rounds| {
      CollectedPrefix(rounds, k + 1);
      assert rounds[..k + 1][..k] == rounds[..k];
    } else {
      assert rounds[..k] == rounds;
    }
  }

  /** After a search, group reads back every entry that took part: the j-th
      entry of the k-th match sits after the groups of the earlier matches
      and the entries of this one before it. */
  lemma GroupAfterSearch(re: Regex, rounds: seq<seq<Option<string>>>, k: nat, j: nat)
    requires re.groups == Collected(rounds)
    requires k < |rounds| && j < |rounds[k]| && rounds[k][j].Some?
    ensures re.Group(|Collected(rounds[..k])| + |Kept(rounds[k][..j])|) == rounds[k][j].value
  {
    var m := rounds[k];
    assert m[..j + 1][..j] == m[..j];
    KeptPrefix(m, j + 1);
    assert rounds[..k + 1][..k] == rounds[..k];
    CollectedPrefix(rounds, k + 1);
    var front := Collected(rounds[..k]) + Kept(m[..j]) + [m[j].value];
    assert front <= Collected(rounds);
    assert front[|front| - 1] == m[j].value;
  }

  // ---------------------------------------------------------------------
  // Where search resumes

  /** A match as the engine reports it: where it begins and ends in the
      searched text. */
  datatype Span = Span(begin: nat, end: nat)

  /** Where search resumes after a match: _matches.suffix().first, the end
      of the match. */
  function NextStart(m: Span): nat {
    m.end
  }

  /** The length of the run of c in s from position i. */
  function RunOf(s: string, c: char, i: nat): (n: nat)
    requires i <= |s|
    ensures i + n <= |s|
    ensures forall j :: i <= j < i + n ==> s[j] == c
    ensures i + n == |s| || s[i + n] != c
    decreases |s| - i
  {
    if i == |s| || s[i] != c then 0 else 1 + RunOf(s, c, i + 1)
  }

  /** The match std::regex_search finds for the pattern c* from start: c*
      matches at start already, so the leftmost match begins there and, the
      star being greedy, takes the whole run of c. */
  function StarMatch(s: string, c: char, start: nat): Span
    requires start <= |s|
  {
    Span(start, start + RunOf(s, c, start))
  }

  /** As written, search with the pattern c* never returns, whatever the
      text: the match from start ends where the run of c ends, the match
      found from there is empty, and the search after it resumes at the same
      place and finds the same empty match again. */
  lemma StarSearchRepeats(s: string, c: char, start: nat)
    requires start <= |s|
    ensures NextStart(StarMatch(s, c, start)) <= |s|
    ensures var e := NextStart(StarMatch(s, c, start));
      StarMatch(s, c, e) == Span(e, e) && NextStart(StarMatch(s, c, e)) == e
  {
    var e := NextStart(StarMatch(s, c, start));
    assert RunOf(s, c, e) == 0;
  }

  /** Regex("a*").search("b"): the first match is the empty one at 0, where
      the search resumes for ever. */
  lemma AStarOnB()
    ensures StarMatch("b", 'a', 0) == Span(0, 0)
    ensures NextStart(StarMatch("b", 'a', 0)) == 0
  {
    assert RunOf("b", 'a', 0) == 0;
  }

  /** The corrected resumption: after an empty match the search moves on by
      one character, as an iterator over the matches does. */
  function NextStartIntended(m: Span): nat {
    if m.begin == m.end then m.end + 1 else m.end
  }

  /** The successive matches of c* that the corrected search finds from
      start: they lie inside s, in order and without overlap, so the search
      ends. */
  function StarRoundsIntended(s: string, c: char, start: nat): (r: seq<Span>)
    requires start <= |s| + 1
    ensures start <= |s| ==> |r| >= 1
    ensures forall i :: 0 <= i < |r| ==> start <= r[i].begin <= r[i].end <= |s|
    ensures forall i :: 0 < i < |r| ==> r[i - 1].end <= r[i].begin
    decreases |s| + 1 - start
  {
    if start > |s| then []
    else
      var m := StarMatch(s, c, start);
      [m] + StarRoundsIntended(s, c, NextStartIntended(m))
  }

  /** The corrected search of a* in "b" ends after the empty matches at 0
      and 1. */
  lemma AStarOnBIntended()
    ensures StarRoundsIntended("b", 'a', 0) == [Span(0, 0), Span(1, 1)]
  {
    assert RunOf("b", 'a', 0) == 0;
    assert RunOf("b", 'a', 1) == 0;
    assert StarRoundsIntended("b", 'a', 2) == [];
  }
}
