/** Percent-encoding and the byte codecs of encoding.cpp. A std::string is a
    sequence of bytes; a char of the model stands for one byte, and the cast
    (unsigned char) c is Byte(c). Percent-encoding follows sections 2.1 and
    2.3 of RFC 3986: unreserved characters are written as they are, every
    other byte as '%' and two upper-case hexadecimal digits. */
module Encoding {
  import opened Wrappers
  import opened StdString

  /** (unsigned char) c. */
  function Byte(c: char): int { c as int % 256 }

  /** std::isalnum in the C locale. */
  predicate IsAlnum(b: int) {
    '0' as int <= b <= '9' as int || 'A' as int <= b <= 'Z' as int || 'a' as int <= b <= 'z' as int
  }

  /** The characters internal::escape writes as they are. */
  predicate Kept(c: char, safe: string) {
    IsAlnum(Byte(c)) || c == '-' || c == '_' || c == '.' || c == '~' || c in safe
  }

  /** An upper-case hexadecimal digit. */
  function HexDigit(d: int): (c: char)
    requires 0 <= d < 16
  {
    "0123456789ABCDEF"[d]
  }

  predicate IsHexDigit(c: char) { '0' <= c <= '9' || 'A' <= c <= 'F' }

  function HexValue(c: char): int
    requires IsHexDigit(c)
  {
    if c <= '9' then c as int - '0' as int else c as int - 'A' as int + 10
  }

  lemma HexDigitValue(d: int)
    requires 0 <= d < 16
    ensures IsHexDigit(HexDigit(d)) && HexValue(HexDigit(d)) == d
  {
  }

  /** internal::escape: a kept character as it is, any other byte as '%'
      followed by its two upper-case hexadecimal digits. */
  function Escape(c: char, safe: string): (r: string)
    ensures Kept(c, safe) ==> r == [c]
    ensures !Kept(c, safe) ==>
      (|r| == 3 && r[0] == '%' && IsHexDigit(r[1]) && IsHexDigit(r[2]) &&
       HexValue(r[1]) * 16 + HexValue(r[2]) == Byte(c))
  {
    if Kept(c, safe) then [c]
    else
      HexDigitValue(Byte(c) / 16);
      HexDigitValue(Byte(c) % 16);
      ['%', HexDigit(Byte(c) / 16), HexDigit(Byte(c) % 16)]
  }

  /** The escapes of the characters of s, one after the other. */
  function Quoted(s: string, safe: string): string {
    if s == [] then [] else Escape(s[0], safe) + Quoted(s[1..], safe)
  }

  /** quote: escape every character in turn. */
  method Quote(s: string, safe: string) returns (r: string)
    ensures r == Quoted(s, safe)
  {
    r := [];
    var i := 0;
    while i < |s|
      invariant 0 <= i <= |s|
      invariant r + Quoted(s[i..], safe) == Quoted(s, safe)
    {
      assert s[i..][1..] == s[i + 1..];
      r := r + Escape(s[i], safe);
      i := i + 1;
    }
  }

  /** The number of characters that quote escapes. */
  function EscapedCount(s: string, safe: string): nat {
    if s == [] then 0 else (if Kept(s[0], safe) then 0 else 1) + EscapedCount(s[1..], safe)
  }

  /** quote writes one character for each kept character and three for each
      escaped one. */
  lemma {:induction false} QuotedLength(s: string, safe: string)
    ensures |Quoted(s, safe)| == |s| + 2 * EscapedCount(s, safe)
  {
    if s != [] {
      QuotedLength(s[1..], safe);
    }
  }

  /** Percent-decoding: "%XY" with two hexadecimal digits becomes the byte XY,
      every other character stands for itself. */
  function Unquote(t: string): string {
    if t == [] then []
    else if |t| >= 3 && t[0] == '%' && IsHexDigit(t[1]) && IsHexDigit(t[2]) then
      [(HexValue(t[1]) * 16 + HexValue(t[2])) as char] + Unquote(t[3..])
    else [t[0]] + Unquote(t[1..])
  }

  predicate IsBytes(s: string) { forall i :: 0 <= i < |s| ==> s[i] as int < 256 }

  /** Percent-decoding undoes quote, for any byte string and any safe set
      that does not contain '%'. */
  lemma {:induction false} UnquoteQuoted(s: string, safe: string)
    requires IsBytes(s) && '%' !in safe
    ensures Unquote(Quoted(s, safe)) == s
  {
    if s != [] {
      var e, rest := Escape(s[0], safe), Quoted(s[1..], safe);
      assert Quoted(s, safe) == e + rest;
      assert s[0] as int < 256;
      assert IsBytes(s[1..]);
      UnquoteQuoted(s[1..], safe);
      UnquoteEscape(s[0], safe, rest);
      assert Unquote(e + rest) == [s[0]] + s[1..] == s;
    }
  }

  /** Percent-decoding reads the escape of one byte back as that byte. */
  lemma UnquoteEscape(c: char, safe: string, rest: string)
    requires c as int < 256 && '%' !in safe
    ensures Unquote(Escape(c, safe) + rest) == [c] + Unquote(rest)
  {
    var e := Escape(c, safe);
    if Kept(c, safe) {
      assert (e + rest)[1..] == rest;
    } else {
      assert (e + rest)[3..] == rest;
      assert (e + rest)[..3] == e;
    }
  }

  /** The states of encode_url. */
  datatype UrlState = Scheme | SlashAfterScheme | Host | Path | Query | Fragment

  /** The states before the host is complete copy characters as they are. */
  predicate Verbatim(st: UrlState) { st == Scheme || st == SlashAfterScheme || st == Host }

  /** The characters each escaping state keeps besides the unreserved ones. */
  function Safe(st: UrlState): string {
    if st == Path then "/" else if st == Query then "&=" else ""
  }

  /** The character that ends a state, if any, and the state that follows. */
  predicate Ends(st: UrlState, c: char) {
    if Verbatim(st) then c == '/' else if st == Path then c == '?' else if st == Query then c == '#' else false
  }

  function Next(st: UrlState): UrlState
    requires st != Fragment
  {
    match st
    case Scheme => SlashAfterScheme
    case SlashAfterScheme => Host
    case Host => Path
    case Path => Query
    case Query => Fragment
  }

  /** What encode_url does with one character: a character that ends the
      state is written as it is and moves to the next state; otherwise it is
      copied or escaped and the state stays. */
  function Step(st: UrlState, c: char): (UrlState, string) {
    if Ends(st, c) then (Next(st), [c])
    else if Verbatim(st) then (st, [c])
    else (st, Escape(c, Safe(st)))
  }

  /** The output of encode_url for the text s read from state st. */
  function Run(st: UrlState, s: string): string
    decreases |s|
  {
    if s == [] then [] else Step(st, s[0]).1 + Run(Step(st, s[0]).0, s[1..])
  }

  /** encode_url: a state machine over the characters of url. */
  method EncodeUrl(url: string) returns (r: string)
    ensures r == Run(Scheme, url)
  {
    var state := Scheme;
    r := [];
    var i := 0;
    while i < |url|
      invariant 0 <= i <= |url|
      invariant r + Run(state, url[i..]) == Run(Scheme, url)
    {
      var c := url[i];
      ghost var r0, st0 := r, state;
      match state {
      case Scheme =>
        if c == '/' {
          state := SlashAfterScheme;
        }
        r := r + [c];
      case SlashAfterScheme =>
        if c == '/' {
          state := Host;
        }
        r := r + [c];
      case Host =>
        if c == '/' {
          state := Path;
        }
        r := r + [c];
      case Path =>
        if c == '?' {
          r := r + [c];
          state := Query;
        } else {
          r := r + Escape(c, "/");
        }
      case Query =>
        if c == '#' {
          r := r + [c];
          state := Fragment;
        } else {
          r := r + Escape(c, "&=");
        }
      case Fragment =>
        r := r + Escape(c, "");
      }
      RunInvariantStep(url, i, r0, st0, r, state, Run(Scheme, url));
      i := i + 1;
    }
  }

  /** Run takes the characters one at a time. */
  lemma RunAt(st: UrlState, s: string, i: nat)
    requires i < |s|
    ensures Run(st, s[i..]) == Step(st, s[i]).1 + Run(Step(st, s[i]).0, s[i + 1..])
  {
    assert s[i..][1..] == s[i + 1..];
  }

  /** One character of encode_url keeps "written so far, then the run of the
      rest" equal to the whole output. */
  lemma RunInvariantStep(url: string, i: nat, r0: string, st0: UrlState, r: string, st: UrlState, whole: string)
    requires i < |url| && r0 + Run(st0, url[i..]) == whole
    requires r == r0 + Step(st0, url[i]).1 && st == Step(st0, url[i]).0
    ensures r + Run(st, url[i + 1..]) == whole
  {
    RunAt(st0, url, i);
  }

  /** What a state writes for one character that does not end it. */
  function Emit(st: UrlState, c: char): string {
    if Verbatim(st) then [c] else Escape(c, Safe(st))
  }

  /** What a state writes for text that does not end it. */
  function StageText(st: UrlState, a: string): string {
    if Verbatim(st) then a else Quoted(a, Safe(st))
  }

  /** Text that does not end the state is written by the state alone. */
  lemma {:induction false} RunStage(st: UrlState, a: string, rest: string)
    requires forall i :: 0 <= i < |a| ==> !Ends(st, a[i])
    ensures Run(st, a + rest) == StageText(st, a) + Run(st, rest)
  {
    if a != [] {
      var tail := a[1..] + rest;
      assert a + rest == [a[0]] + tail;
      assert Run(st, a + rest) == Emit(st, a[0]) + Run(st, tail) by {
        assert (a + rest)[1..] == tail;
      }
      RunStage(st, a[1..], rest);
      assert StageText(st, a) == Emit(st, a[0]) + StageText(st, a[1..]) by {
        assert a == [a[0]] + a[1..];
      }
      calc {
        Run(st, a + rest);
        Emit(st, a[0]) + (StageText(st, a[1..]) + Run(st, rest));
        (Emit(st, a[0]) + StageText(st, a[1..])) + Run(st, rest);
      }
    } else {
      assert a + rest == rest;
    }
  }

  /** The character that ends a state is written as it is. */
  lemma RunEnd(st: UrlState, c: char, rest: string)
    requires st != Fragment && Ends(st, c)
    ensures Run(st, [c] + rest) == [c] + Run(Next(st), rest)
  {
    assert ([c] + rest)[1..] == rest;
  }

  /** One state's stretch of a URL: its text, then the character ending it. */
  lemma RunStretch(st: UrlState, a: string, c: char, rest: string)
    requires st != Fragment && Ends(st, c) && forall i :: 0 <= i < |a| ==> !Ends(st, a[i])
    ensures Run(st, a + [c] + rest) == StageText(st, a) + [c] + Run(Next(st), rest)
  {
    assert a + [c] + rest == a + ([c] + rest);
    RunStage(st, a, [c] + rest);
    RunEnd(st, c, rest);
  }

  predicate Lacks(s: string, c: char) { forall i :: 0 <= i < |s| ==> s[i] != c }

  /** encode_url on a URL with every part present: scheme, the empty text
      between the two slashes and the host are copied as they are up to the
      third '/', the path is escaped keeping '/', the query keeping '&' and
      '=', and the fragment keeping only unreserved characters. */
  lemma EncodeUrlParts(scheme: string, gap: string, host: string, path: string, query: string, fragment: string)
    requires Lacks(scheme, '/') && Lacks(gap, '/') && Lacks(host, '/')
    requires Lacks(path, '?') && Lacks(query, '#')
    ensures Run(Scheme, scheme + "/" + gap + "/" + host + "/" + path + "?" + query + "#" + fragment) ==
      scheme + "/" + gap + "/" + host + "/" + Quoted(path, "/") + "?" + Quoted(query, "&=") + "#" + Quoted(fragment, "")
  {
    var a, b, c := Quoted(path, "/"), Quoted(query, "&="), Quoted(fragment, "");
    UrlShape(scheme, gap, host, path, query, fragment);
    UrlShape(scheme, gap, host, a, b, c);
    EncodeUrlHead(scheme, gap, host, path + "?" + query + "#" + fragment);
    EncodeUrlTail(path, query, fragment);
  }

  /** A URL is its head up to the third '/' and its tail. */
  lemma UrlShape(scheme: string, gap: string, host: string, path: string, query: string, fragment: string)
    ensures scheme + "/" + gap + "/" + host + "/" + path + "?" + query + "#" + fragment ==
      (scheme + "/" + gap + "/" + host + "/") + (path + "?" + query + "#" + fragment)
  {
  }

  /** The head of a URL, one stretch at a time. */
  lemma HeadShape(scheme: string, gap: string, host: string, tail: string)
    ensures scheme + "/" + gap + "/" + host + "/" + tail == scheme + ['/'] + (gap + ['/'] + (host + ['/'] + tail))
  {
  }

  /** The tail of a URL, one stretch at a time. */
  lemma TailShape(path: string, query: string, fragment: string)
    ensures path + "?" + query + "#" + fragment == path + ['?'] + (query + ['#'] + fragment)
  {
  }

  /** Up to the third '/', encode_url copies. */
  lemma EncodeUrlHead(scheme: string, gap: string, host: string, tail: string)
    requires Lacks(scheme, '/') && Lacks(gap, '/') && Lacks(host, '/')
    ensures Run(Scheme, scheme + "/" + gap + "/" + host + "/" + tail) ==
      scheme + "/" + gap + "/" + host + "/" + Run(Path, tail)
  {
    var h := host + ['/'] + tail;
    var g := gap + ['/'] + h;
    HeadShape(scheme, gap, host, tail);
    RunStretch(Scheme, scheme, '/', g);
    RunStretch(SlashAfterScheme, gap, '/', h);
    RunStretch(Host, host, '/', tail);
    HeadShape(scheme, gap, host, Run(Path, tail));
  }

  /** After the third '/', encode_url escapes path, query and fragment. */
  lemma EncodeUrlTail(path: string, query: string, fragment: string)
    requires Lacks(path, '?') && Lacks(query, '#')
    ensures Run(Path, path + "?" + query + "#" + fragment) ==
      Quoted(path, "/") + "?" + Quoted(query, "&=") + "#" + Quoted(fragment, "")
  {
    var q := query + ['#'] + fragment;
    TailShape(path, query, fragment);
    RunStretch(Path, path, '?', q);
    RunStretch(Query, query, '#', fragment);
    RunStage(Fragment, fragment, []);
    assert fragment + [] == fragment;
    var a, b, c := Quoted(path, "/"), Quoted(query, "&="), Quoted(fragment, "");
    assert Run(Fragment, fragment) == c;
    TailShape(a, b, c);
  }

  /** A URL with fewer than three slashes is copied unchanged. */
  lemma EncodeUrlShort(scheme: string, gap: string)
    requires Lacks(scheme, '/') && Lacks(gap, '/')
    ensures Run(Scheme, scheme) == scheme
    ensures Run(Scheme, scheme + "/" + gap) == scheme + "/" + gap
  {
    RunStage(Scheme, scheme, []);
    assert scheme + [] == scheme;
    RunStretch(Scheme, scheme, '/', gap);
    RunStage(SlashAfterScheme, gap, []);
    assert gap + [] == gap;
  }

  /** The modes of the byte codecs. */
  datatype Mode = Strict | Ignore | Replace

  /** A byte outside ASCII. */
  predicate NonAscii(c: char) { Byte(c) > 127 }

  /** encode_ascii as written: STRICT fails on the first byte above 127 and
      otherwise copies the bytes; IGNORE and REPLACE skip the check and the
      copy for every byte, not only for the offending ones. */
  method EncodeAscii(s: string, mode: Mode) returns (r: Result<string>)
    ensures mode == Strict ==> (r.Err? <==> exists i :: 0 <= i < |s| && NonAscii(s[i]))
    ensures mode == Strict && r.Err? ==> r.error == EncodingError
    ensures mode == Strict && r.Ok? ==> r.value == Bytes(s)
    ensures mode == Ignore ==> r == Ok([])
    ensures mode == Replace ==> r == Ok(Repeat('?', |s|))
    ensures r == EncodeAsciiSpec(s, mode)
  {
    var res: string := [];
    var i := 0;
    while i < |s|
      invariant 0 <= i <= |s|
      invariant mode == Strict ==> res == Bytes(s[..i]) && forall j :: 0 <= j < i ==> !NonAscii(s[j])
      invariant mode == Ignore ==> res == []
      invariant mode == Replace ==> res == Repeat('?', i)
    {
      var ch := Byte(s[i]) as char;
      match mode {
      case Strict =>
        if Byte(s[i]) > 127 {
          return Err(EncodingError);
        }
      case Ignore =>
        i := i + 1;
        continue;
      case Replace =>
        res := res + ['?'];
        i := i + 1;
        continue;
      }
      assert s[..i + 1] == s[..i] + [s[i]];
      res := res + [ch];
      i := i + 1;
    }
    assert s[..i] == s;
    return Ok(res);
  }

  /** The bytes of s, each char cast through unsigned char. */
  function Bytes(s: string): (r: string)
    ensures |r| == |s|
  {
    if s == [] then [] else Bytes(s[..|s| - 1]) + [Byte(s[|s| - 1]) as char]
  }

  lemma {:induction false} BytesOfBytes(s: string)
    requires IsBytes(s)
    ensures Bytes(s) == s
  {
    if s != [] {
      BytesOfBytes(s[..|s| - 1]);
      assert s == s[..|s| - 1] + [s[|s| - 1]];
    }
  }

  /** encode_ascii as documented: IGNORE removes only the bytes above 127 and
      REPLACE puts '?' in place of only those. */
  function EncodeAsciiIntended(s: string, mode: Mode): Result<string> {
    if mode == Strict then
      if exists i :: 0 <= i < |s| && NonAscii(s[i]) then Err(EncodingError) else Ok(Bytes(s))
    else Ok(AsciiFiltered(s, mode == Replace))
  }

  /** The ASCII bytes of s, with '?' in place of every other byte when
      replace holds. */
  function AsciiFiltered(s: string, replace: bool): string {
    if s == [] then []
    else
      var last := s[|s| - 1];
      AsciiFiltered(s[..|s| - 1], replace) +
        (if !NonAscii(last) then [Byte(last) as char] else if replace then ['?'] else [])
  }

  /** The documented IGNORE and REPLACE keep every ASCII byte in place:
      REPLACE preserves the length and the ASCII positions, IGNORE yields
      the ASCII bytes only, and both give back an ASCII text unchanged. */
  lemma {:induction false} AsciiFilteredKeeps(s: string)
    ensures var r := AsciiFiltered(s, true);
      |r| == |s| && forall i :: 0 <= i < |s| ==> r[i] == (if NonAscii(s[i]) then '?' else Byte(s[i]) as char)
    ensures forall c :: c in AsciiFiltered(s, false) ==> !NonAscii(c)
    ensures (forall i :: 0 <= i < |s| ==> !NonAscii(s[i])) ==>
      AsciiFiltered(s, true) == Bytes(s) && AsciiFiltered(s, false) == Bytes(s)
  {
    ReplaceKeepsPositions(s);
    IgnoreKeepsAscii(s);
    AsciiTextUnchanged(s);
  }

  lemma {:induction false} ReplaceKeepsPositions(s: string)
    ensures var r := AsciiFiltered(s, true);
      |r| == |s| && forall i :: 0 <= i < |s| ==> r[i] == (if NonAscii(s[i]) then '?' else Byte(s[i]) as char)
  {
    if s != [] {
      var init := s[..|s| - 1];
      ReplaceKeepsPositions(init);
      assert forall i :: 0 <= i < |init| ==> init[i] == s[i];
    }
  }

  lemma {:induction false} IgnoreKeepsAscii(s: string)
    ensures forall c :: c in AsciiFiltered(s, false) ==> !NonAscii(c)
  {
    if s != [] {
      IgnoreKeepsAscii(s[..|s| - 1]);
    }
  }

  lemma {:induction false} AsciiTextUnchanged(s: string)
    ensures (forall i :: 0 <= i < |s| ==> !NonAscii(s[i])) ==>
      AsciiFiltered(s, true) == Bytes(s) && AsciiFiltered(s, false) == Bytes(s)
  {
    if s != [] {
      var init := s[..|s| - 1];
      AsciiTextUnchanged(init);
      assert forall i :: 0 <= i < |init| ==> init[i] == s[i];
    }
  }

  /** As written, IGNORE and REPLACE discard ASCII text too: "a" gives ""
      and "?" where the documented modes give "a". */
  lemma EncodeAsciiDropsAscii()
    ensures EncodeAsciiIntended("a", Ignore) == Ok("a") && EncodeAsciiIntended("a", Replace) == Ok("a")
  {
    assert "a"[..0] == [];
    assert !NonAscii("a"[0]);
    assert Byte('a') as char == 'a';
    assert Bytes("a") == "a";
    assert AsciiFiltered("a", false) == "a";
    assert AsciiFiltered("a", true) == "a";
  }

  /** The sign extension of a char to wchar_t: bytes above 127 are negative. */
  function SignExtend(b: int): int { if b >= 128 then b - 256 else b }

  /** encode_iso_8859_1 as written: each char, sign-extended to wchar_t, is
      checked against 255 under STRICT, turned into 's' under IGNORE and into
      '?' under REPLACE. */
  function EncodeIso88591(s: string, mode: Mode): (r: Result<string>)
    ensures r.Ok? ==> |r.value| == |s|
  {
    if s == [] then Ok([])
    else
      var head := s[..|s| - 1];
      var c := SignExtend(Byte(s[|s| - 1]));
      var rest :- EncodeIso88591(head, mode);
      match mode
      case Strict => if c > 255 then Err(EncodingError) else Ok(rest + [Byte(s[|s| - 1]) as char])
      case Ignore => Ok(rest + ['s'])
      case Replace => Ok(rest + ['?'])
  }

  /** No byte of a std::string is above 255, so STRICT never fails and
      copies the bytes, while IGNORE and REPLACE overwrite every byte. */
  lemma {:induction false} EncodeIso88591Shape(s: string)
    ensures EncodeIso88591(s, Strict) == Ok(Bytes(s))
    ensures EncodeIso88591(s, Ignore) == Ok(Repeat('s', |s|))
    ensures EncodeIso88591(s, Replace) == Ok(Repeat('?', |s|))
  {
    if s != [] {
      EncodeIso88591Shape(s[..|s| - 1]);
      RepeatAppend('s', |s| - 1);
      RepeatAppend('?', |s| - 1);
    }
  }

  lemma RepeatAppend(c: char, n: nat)
    ensures Repeat(c, n) + [c] == Repeat(c, n + 1)
  {
  }

  /** encode_iso_8859_1 as documented: every byte is in Latin-1, so no mode
      has anything to remove or replace and the bytes are returned. */
  function EncodeIso88591Intended(s: string, mode: Mode): (r: Result<string>)
    ensures r.Ok?
  {
    Ok(Bytes(s))
  }

  /** The documented codec agrees with STRICT as written in every mode and
      gives back a byte string unchanged; IGNORE as written turns "a" into
      "s". */
  lemma EncodeIso88591IntendedAgrees(s: string, mode: Mode)
    ensures EncodeIso88591Intended(s, mode) == EncodeIso88591(s, Strict)
    ensures IsBytes(s) ==> EncodeIso88591Intended(s, mode) == Ok(s)
    ensures EncodeIso88591("a", Ignore) == Ok("s")
  {
    EncodeIso88591Shape(s);
    if IsBytes(s) {
      BytesOfBytes(s);
    }
    EncodeIso88591Shape("a");
    assert Repeat('s', 1) == "s";
  }

  // The values of the enumeration encoding.
  const Ascii: int := 0
  const Latin1: int := 1
  const Iso88591: int := 2
  const Utf8: int := 3

  /** encode: dispatch on the encoding; an unknown one is an EncodingError.
      The UTF-8 codec returns its input. */
  function Encode(s: string, enc: int, mode: Mode): (r: Result<string>)
    ensures !(Ascii <= enc <= Utf8) ==> r == Err(EncodingError)
    ensures enc == Utf8 ==> r == Ok(s)
    ensures enc == Latin1 || enc == Iso88591 ==> r == EncodeIso88591(s, mode)
    ensures enc == Ascii && mode == Strict && IsBytes(s) ==>
      (r.Ok? <==> forall i :: 0 <= i < |s| ==> !NonAscii(s[i]))
  {
    if enc == Ascii then EncodeAsciiSpec(s, mode)
    else if enc == Latin1 || enc == Iso88591 then EncodeIso88591(s, mode)
    else if enc == Utf8 then Ok(s)
    else Err(EncodingError)
  }

  /** The result of encode_ascii as written, for use in functions. */
  function EncodeAsciiSpec(s: string, mode: Mode): Result<string> {
    match mode
    case Strict => if exists i :: 0 <= i < |s| && NonAscii(s[i]) then Err(EncodingError) else Ok(Bytes(s))
    case Ignore => Ok([])
    case Replace => Ok(Repeat('?', |s|))
  }
}
