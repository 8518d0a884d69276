/** ArgRegex of re/arg_regex.cpp: a route pattern in which `<name>` marks a
    captured argument. _parse rewrites the pattern for the regular-expression
    engine, records the argument names in order and the literal text between
    them; search maps the captured groups to those names. The engine itself
    (std::regex_search) is not modelled: search receives its outcome, whether
    it found a match and the sub-matches, as parameters. */
module ReArg {
  import opened Wrappers

  /** The states of _parse. */
  datatype ParseState = Str | CheckIfArg | ArgName | InRegex

  /** Everything _parse updates: its state and local buffers, and the fields
      _pattern_parts and _keys it appends to. */
  datatype Parser = Parser(state: ParseState, newPattern: string, part: string, argName: string,
                           parts: seq<string>, keys: seq<string>)

  function Start(parts: seq<string>, keys: seq<string>): Parser {
    Parser(Str, [], [], [], parts, keys)
  }

  /** One character of _parse. */
  function Step(p: Parser, ch: char): Parser {
    match p.state
    case Str =>
      if ch == '<' then p.(state := CheckIfArg)
      else if ch == '(' then p.(state := InRegex, newPattern := p.newPattern + [ch])
      else if ch == '/' then p.(newPattern := p.newPattern + "\\" + [ch], part := p.part + [ch])
      else p.(newPattern := p.newPattern + [ch], part := p.part + [ch])
    case CheckIfArg =>
      if ch == '<' then p.(part := p.part + "<<", newPattern := p.newPattern + "<<", state := Str)
      else p.(state := ArgName, parts := p.parts + [p.part], part := [], argName := p.argName + [ch])
    case ArgName =>
      if ch == '>' then p.(state := Str, keys := p.keys + [p.argName], argName := [])
      else p.(argName := p.argName + [ch])
    case InRegex =>
      if ch == ')' then p.(state := Str, newPattern := p.newPattern + [ch])
      else p.(newPattern := p.newPattern + [ch])
  }

  /** The characters of s fed one by one. */
  function Feed(p: Parser, s: string): Parser
    decreases |s|
  {
    if s == [] then p else Feed(Step(p, s[0]), s[1..])
  }

  /** After the loop: a non-empty trailing literal becomes the last part. */
  function Finish(p: Parser): Parser {
    if p.part != [] then p.(parts := p.parts + [p.part]) else p
  }

  /** The text of a literal as it goes into the rewritten pattern: each '/'
      preceded by a backslash. */
  function SlashEscaped(a: string): string {
    if a == [] then [] else (if a[0] == '/' then "\\/" else [a[0]]) + SlashEscaped(a[1..])
  }

  predicate Lacks(s: string, c: char) { forall i :: 0 <= i < |s| ==> s[i] != c }

  class ArgRegex {
    /** The pattern as given. */
    var orig: string
    /** The rewritten pattern compiled into the regular expression. */
    var regex: string
    var patternParts: seq<string>
    var keys: seq<string>
    var groups: map<string, string>
    var listGroups: seq<string>

    /** ArgRegex(pattern): keep the pattern and parse it. */
    constructor(pattern: string)
      ensures orig == pattern && groups == map[] && listGroups == []
      ensures var p := Finish(Feed(Start([], []), pattern));
        regex == p.newPattern && patternParts == p.parts && keys == p.keys
    {
      orig := pattern;
      regex := [];
      patternParts := [];
      keys := [];
      groups := map[];
      listGroups := [];
      new;
      regex := Parse(pattern);
    }

    /** _parse: the state machine over the characters of pattern; it appends
        to _pattern_parts and _keys and returns the rewritten pattern. */
    method Parse(pattern: string) returns (newPattern: string)
      modifies this
      ensures var p := Finish(Feed(Start(old(patternParts), old(keys)), pattern));
        newPattern == p.newPattern && patternParts == p.parts && keys == p.keys
      ensures orig == old(orig) && regex == old(regex) && groups == old(groups) && listGroups == old(listGroups)
    {
      var part: string := [];
      var argName: string := [];
      var state := Str;
      newPattern := [];
      ghost var whole := Feed(Start(patternParts, keys), pattern);
      var i := 0;
      while i < |pattern|
        invariant 0 <= i <= |pattern|
        invariant Feed(Parser(state, newPattern, part, argName, patternParts, keys), pattern[i..]) == whole
        invariant orig == old(orig) && regex == old(regex) && groups == old(groups) && listGroups == old(listGroups)
      {
        var ch := pattern[i];
        assert pattern[i..][1..] == pattern[i + 1..];
        match state {
        case Str =>
          if ch == '<' {
            state := CheckIfArg;
            i := i + 1;
            continue;
          } else if ch == '(' {
            state := InRegex;
          } else if ch == '/' {
            newPattern := newPattern + "\\";
            part := part + [ch];
          } else {
            part := part + [ch];
          }
          newPattern := newPattern + [ch];
        case CheckIfArg =>
          if ch == '<' {
            part := part + "<<";
            newPattern := newPattern + "<<";
            state := Str;
          } else {
            state := ArgName;
            patternParts := patternParts + [part];
            part := [];
            argName := argName + [ch];
          }
        case ArgName =>
          if ch == '>' {
            state := Str;
            keys := keys + [argName];
            argName := [];
          } else {
            argName := argName + [ch];
          }
        case InRegex =>
          if ch == ')' {
            state := Str;
          }
          newPattern := newPattern + [ch];
        }
        i := i + 1;
      }
      if part != [] {
        patternParts := patternParts + [part];
      }
    }

    /** search: refill the groups from the outcome of the engine. matches[0]
        is the whole match and matches[i] the i-th sub-match, None when that
        group did not take part; sub-match i is stored under the (i-1)-th key.
        A route may hold more groups than arguments (an unnamed group such as
        (\d+), or a group nested in another), and a matched sub-match past
        the last key makes search read _keys out of its bounds, which is
        undefined behaviour: the model reports it as UndefinedBehaviour and
        promises nothing about the groups it leaves. */
    method Search(found: bool, matches: seq<Option<string>>) returns (r: Result<bool>)
      modifies this
      ensures orig == old(orig) && regex == old(regex) && keys == old(keys) && patternParts == old(patternParts)
      ensures r.Err? <==> found && KeylessMatch(keys, matches)
      ensures r.Err? ==> r.error == UndefinedBehaviour
      ensures r.Ok? ==> r.value == found
      ensures r.Ok? && found ==> groups == Captured(keys, matches, |matches|) && listGroups == Matched(matches, |matches|)
      ensures !found ==> groups == map[] && listGroups == []
    {
      groups := map[];
      listGroups := [];
      if found {
        var i := 1;
        while i < |matches|
          invariant 1 <= i <= |matches| || (|matches| == 0 && i == 1)
          invariant orig == old(orig) && regex == old(regex) && keys == old(keys) && patternParts == old(patternParts)
          invariant groups == Captured(keys, matches, i) && listGroups == Matched(matches, i)
          invariant forall j :: 1 <= j < i && j > |keys| ==> matches[j].None?
        {
          if matches[i].Some? {
            if i - 1 >= |keys| {
              return Err(UndefinedBehaviour);
            }
            var strMatch := matches[i].value;
            groups := groups[keys[i - 1] := strMatch];
            listGroups := listGroups + [strMatch];
          }
          i := i + 1;
        }
        if |matches| == 0 {
          assert groups == Captured(keys, matches, 0);
        }
      }
      return Ok(found);
    }

    /** arg: the captured value for key, or default_val. */
    function Arg(key: string, defaultVal: string): (r: string)
      reads this
      ensures key !in groups ==> r == defaultVal
      ensures key in groups ==> r == groups[key]
    {
      if key in groups then groups[key] else defaultVal
    }
  }

  /** Some matched sub-match has no key: its index i is past |keys|. */
  predicate KeylessMatch(keys: seq<string>, matches: seq<Option<string>>) {
    exists i :: 1 <= i < |matches| && i > |keys| && matches[i].Some?
  }

  /** The groups after sub-matches 1..n-1 are stored: each matched one that
      has a key under that key, a later one overwriting an earlier one with
      the same key. Sub-match i goes to key i-1 by position; a sub-match
      past the last key is ignored, where search as written reads _keys out
      of its bounds (KeylessMatch). So this is also the bounds-checked
      search. */
  function Captured(keys: seq<string>, matches: seq<Option<string>>, n: nat): map<string, string>
    requires n <= 1 || n <= |matches|
  {
    if n <= 1 then map[]
    else
      var before := Captured(keys, matches, n - 1);
      if matches[n - 1].Some? && n - 2 < |keys| then before[keys[n - 2] := matches[n - 1].value] else before
  }

  /** The matched sub-matches among 1..n-1, in order. */
  function Matched(matches: seq<Option<string>>, n: nat): seq<string>
    requires n <= 1 || n <= |matches|
  {
    if n <= 1 then []
    else Matched(matches, n - 1) + (if matches[n - 1].Some? then [matches[n - 1].value] else [])
  }

  /** With distinct keys, each matched sub-match i that has a key is found
      under key i-1, and the groups hold exactly the keys whose sub-match
      took part: sub-matches past the last key add nothing. */
  lemma {:induction false} CapturedGroups(keys: seq<string>, matches: seq<Option<string>>, n: nat)
    requires n <= |matches|
    requires forall i, j :: 0 <= i < j < |keys| ==> keys[i] != keys[j]
    ensures forall i :: 1 <= i < n && i <= |keys| && matches[i].Some? ==>
      keys[i - 1] in Captured(keys, matches, n) && Captured(keys, matches, n)[keys[i - 1]] == matches[i].value
    ensures forall k :: k in Captured(keys, matches, n) <==>
      exists i :: 1 <= i < n && i <= |keys| && matches[i].Some? && keys[i - 1] == k
  {
    if n > 1 {
      CapturedGroups(keys, matches, n - 1);
    }
  }

  /** arg after a search that found a match: with distinct keys, the
      argument of each route key is its sub-match when that group took part,
      and default_val when it did not. */
  lemma ArgAfterSearch(a: ArgRegex, matches: seq<Option<string>>, i: nat, d: string)
    requires a.groups == Captured(a.keys, matches, |matches|)
    requires forall x, y :: 0 <= x < y < |a.keys| ==> a.keys[x] != a.keys[y]
    requires 1 <= i < |matches| && i <= |a.keys|
    ensures matches[i].Some? ==> a.Arg(a.keys[i - 1], d) == matches[i].value
    ensures matches[i].None? ==> a.Arg(a.keys[i - 1], d) == d
  {
    CapturedGroups(a.keys, matches, |matches|);
    if matches[i].None? && a.keys[i - 1] in a.groups {
      assert false;
    }
  }

  /** A route made of one group and no argument, such as (\d+), has no key,
      so a match in which the group takes part reaches the undefined access
      of search. */
  lemma GroupWithoutArgument(body: string, whole: string, sub: string)
    requires Lacks(body, ')')
    ensures Finish(Feed(Start([], []), "(" + body + ")")).keys == []
    ensures KeylessMatch([], [Some(whole), Some(sub)])
  {
    FeedGroup(Start([], []), body);
    assert [Some(whole), Some(sub)][1].Some?;
  }

  /** Feeding text in two pieces is feeding it at once. */
  lemma {:induction false} FeedAppend(p: Parser, a: string, b: string)
    ensures Feed(p, a + b) == Feed(Feed(p, a), b)
    decreases |a|
  {
    if a != [] {
      assert (a + b)[1..] == a[1..] + b;
      FeedAppend(Step(p, a[0]), a[1..], b);
    } else {
      assert a + b == b;
    }
  }

  /** Plain text with no '<' and no '(' goes into the current part as it is
      and into the pattern with '/' escaped. */
  lemma {:induction false} FeedLiteral(p: Parser, a: string)
    requires p.state == Str && Lacks(a, '<') && Lacks(a, '(')
    ensures Feed(p, a) == p.(newPattern := p.newPattern + SlashEscaped(a), part := p.part + a)
    decreases |a|
  {
    if a != [] {
      var q := Step(p, a[0]);
      FeedLiteral(q, a[1..]);
      assert a == [a[0]] + a[1..];
    }
  }

  /** "<<" is a literal, copied into both the pattern and the current part. */
  lemma FeedDoubleAngle(p: Parser)
    requires p.state == Str
    ensures Feed(p, "<<") == p.(newPattern := p.newPattern + "<<", part := p.part + "<<")
  {
    assert "<<"[1..] == "<" && "<"[1..] == [];
  }

  /** A name read in the ArgName state accumulates until the closing '>'. */
  lemma {:induction false} FeedName(p: Parser, a: string)
    requires p.state == ArgName && Lacks(a, '>')
    ensures Feed(p, a) == p.(argName := p.argName + a)
    decreases |a|
  {
    if a != [] {
      FeedName(Step(p, a[0]), a[1..]);
      assert a == [a[0]] + a[1..];
    }
  }

  /** Feeding a first character is one step. */
  lemma FeedCons(p: Parser, c: char, rest: string)
    ensures Feed(p, [c] + rest) == Feed(Step(p, c), rest)
  {
    assert ([c] + rest)[1..] == rest;
  }

  /** "<name>" closes the current part, records name as the next key and
      leaves nothing in the pattern. */
  lemma FeedArgument(p: Parser, name: string)
    requires p.state == Str && p.argName == []
    requires name != [] && name[0] != '<' && Lacks(name, '>')
    ensures Feed(p, "<" + name + ">") ==
      p.(parts := p.parts + [p.part], part := [], keys := p.keys + [name])
  {
    var p1 := Step(p, '<');
    var p2 := Step(p1, name[0]);
    assert p2 == p.(state := ArgName, parts := p.parts + [p.part], part := [], argName := [name[0]]);
    var p3 := p2.(argName := [name[0]] + name[1..]);
    assert [name[0]] + name[1..] == name;
    calc {
      Feed(p, "<" + name + ">");
      { assert "<" + name + ">" == ['<'] + ([name[0]] + (name[1..] + ">")); }
      Feed(p, ['<'] + ([name[0]] + (name[1..] + ">")));
      { FeedCons(p, '<', [name[0]] + (name[1..] + ">")); }
      Feed(p1, [name[0]] + (name[1..] + ">"));
      { FeedCons(p1, name[0], name[1..] + ">"); }
      Feed(p2, name[1..] + ">");
      { FeedAppend(p2, name[1..], ">"); FeedName(p2, name[1..]); }
      Feed(p3, ">");
      { FeedCons(p3, '>', []); assert ">" == ['>'] + []; }
      Step(p3, '>');
    }
  }

  /** "(" body ")" with no ')' inside is copied into the pattern as it is and
      does not touch the current part. */
  lemma FeedGroup(p: Parser, body: string)
    requires p.state == Str && Lacks(body, ')')
    ensures Feed(p, "(" + body + ")") == p.(newPattern := p.newPattern + "(" + body + ")")
  {
    var q := Step(p, '(');
    assert "(" + body + ")" == ['('] + (body + ")");
    assert (['('] + (body + ")"))[1..] == body + ")";
    FeedAppend(q, body, ")");
    FeedRegexBody(q, body);
  }

  lemma {:induction false} FeedRegexBody(p: Parser, a: string)
    requires p.state == InRegex && Lacks(a, ')')
    ensures Feed(p, a) == p.(newPattern := p.newPattern + a)
    decreases |a|
  {
    if a != [] {
      FeedRegexBody(Step(p, a[0]), a[1..]);
      assert a == [a[0]] + a[1..];
    }
  }

  lemma {:induction false} SlashEscapedWithoutSlash(a: string)
    requires Lacks(a, '/')
    ensures SlashEscaped(a) == a
  {
    if a != [] {
      SlashEscapedWithoutSlash(a[1..]);
      assert a == [a[0]] + a[1..];
    }
  }

  /** A pattern made of a literal, one argument and one group, as in the
      route \w{2}\s{5}<hello>([\w\s]+): the literal is the only part, the
      name the only key, and the pattern keeps the literal and the group. */
  lemma ParseLiteralArgumentGroup(lit: string, name: string, body: string)
    requires Lacks(lit, '<') && Lacks(lit, '(') && Lacks(lit, '/')
    requires name != [] && name[0] != '<' && Lacks(name, '>') && Lacks(body, ')')
    ensures Finish(Feed(Start([], []), lit + "<" + name + ">" + "(" + body + ")")) ==
      Parser(Str, lit + "(" + body + ")", [], [], [lit], [name])
  {
    var p0 := Start([], []);
    SlashEscapedWithoutSlash(lit);
    var p1 := p0.(newPattern := lit, part := lit);
    var p2 := p1.(parts := [lit], part := [], keys := [name]);
    calc {
      Feed(p0, lit + "<" + name + ">" + "(" + body + ")");
      { LiteralArgumentGroupShape(lit, name, body); }
      Feed(p0, lit + ("<" + name + ">" + ("(" + body + ")")));
      { FeedAppend(p0, lit, "<" + name + ">" + ("(" + body + ")")); FeedLiteral(p0, lit);
        assert [] + lit == lit; }
      Feed(p1, "<" + name + ">" + ("(" + body + ")"));
      { FeedAppend(p1, "<" + name + ">", "(" + body + ")"); FeedArgument(p1, name);
        assert [] + [lit] == [lit] && [] + [name] == [name]; }
      Feed(p2, "(" + body + ")");
      { FeedGroup(p2, body); assert [] + "(" + body + ")" == "(" + body + ")"; }
      p2.(newPattern := lit + "(" + body + ")");
    }
  }

  lemma LiteralArgumentGroupShape(lit: string, name: string, body: string)
    ensures lit + "<" + name + ">" + "(" + body + ")" == lit + ("<" + name + ">" + ("(" + body + ")"))
  {
  }

  /** A pattern made of "<<", a literal and one group, as in the route
      <<hello>>([\w\s]+): no key, the whole literal "<<hello>>" as the one
      part, and the pattern unchanged. */
  lemma ParseDoubleAngleLiteralGroup(lit: string, body: string)
    requires Lacks(lit, '<') && Lacks(lit, '(') && Lacks(lit, '/') && Lacks(body, ')')
    ensures Finish(Feed(Start([], []), "<<" + lit + "(" + body + ")")) ==
      Parser(Str, "<<" + lit + "(" + body + ")", "<<" + lit, [], ["<<" + lit], [])
  {
    var p0 := Start([], []);
    SlashEscapedWithoutSlash(lit);
    var p1 := p0.(newPattern := "<<", part := "<<");
    var p2 := p1.(newPattern := "<<" + lit, part := "<<" + lit);
    calc {
      Feed(p0, "<<" + lit + "(" + body + ")");
      { assert "<<" + lit + "(" + body + ")" == "<<" + (lit + ("(" + body + ")")); }
      Feed(p0, "<<" + (lit + ("(" + body + ")")));
      { FeedAppend(p0, "<<", lit + ("(" + body + ")")); FeedDoubleAngle(p0); assert [] + "<<" == "<<"; }
      Feed(p1, lit + ("(" + body + ")"));
      { FeedAppend(p1, lit, "(" + body + ")"); FeedLiteral(p1, lit); }
      Feed(p2, "(" + body + ")");
      { FeedGroup(p2, body); }
      p2.(newPattern := "<<" + lit + "(" + body + ")");
    }
    assert [] + ["<<" + lit] == ["<<" + lit];
  }
}
