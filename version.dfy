/** _def_.cpp: the Version record (major.minor.patch, each an unsigned int),
    its three-way comparison, the comparison operators, and the conversions
    to and from text. */
module Versions {
  import opened Wrappers
  import opened Numerals
  import opened StringUtils

  const UintModulus: int := 0x1_0000_0000

  /** A C++ unsigned int. */
  newtype uint32 = x: int | 0 <= x < 0x1_0000_0000

  /** The conversion of an int to unsigned int: reduction modulo 2^32, so
      -1 becomes 4294967295. */
  function ToUint(x: int): (u: uint32)
    ensures 0 <= x < UintModulus ==> u as int == x
    ensures -UintModulus <= x < 0 ==> u as int == x + UintModulus
  {
    (x % UintModulus) as uint32
  }

  datatype Version = Version(major: uint32, minor: uint32, patch: uint32)

  /** compare_numbers: -1, 0 or 1 as l is below, equal to or above r. */
  function CompareNumbers(l: uint32, r: uint32): (c: int)
    ensures c == -1 || c == 0 || c == 1
    ensures c == 0 <==> l == r
    ensures c == 1 <==> l > r
    ensures c == -1 <==> l < r
  {
    if l == r then 0
    else if l > r then 1
    else -1
  }

  /** The place of a version on a single scale: the three fields read as the
      digits of a number in base 2^32, major first. */
  function Key(v: Version): int {
    (v.major as int * UintModulus + v.minor as int) * UintModulus + v.patch as int
  }

  /** compare_versions: the fields are compared in the order major, minor,
      patch, and the first difference decides. The result is the sign of
      the difference of the keys. */
  function CompareVersions(l: Version, r: Version): (c: int)
    ensures c == -1 || c == 0 || c == 1
    ensures c == 0 <==> l == r
    ensures c == -1 <==> Key(l) < Key(r)
    ensures c == 1 <==> Key(l) > Key(r)
  {
    KeyOrder(l, r);
    var ret := CompareNumbers(l.major, r.major);
    if ret != 0 then ret
    else
      var ret := CompareNumbers(l.minor, r.minor);
      if ret != 0 then ret
      else CompareNumbers(l.patch, r.patch)
  }

  /** The key order is the lexicographic order of the fields. */
  lemma KeyOrder(l: Version, r: Version)
    ensures Key(l) == Key(r) <==> l == r
    ensures Key(l) < Key(r) <==>
      l.major < r.major ||
      (l.major == r.major && l.minor < r.minor) ||
      (l.major == r.major && l.minor == r.minor && l.patch < r.patch)
  {
    var hl, hr := l.major as int * UintModulus + l.minor as int, r.major as int * UintModulus + r.minor as int;
    DigitOrder(l.major as int, l.minor as int, r.major as int, r.minor as int);
    DigitOrder(hl, l.patch as int, hr, r.patch as int);
  }

  /** Two-digit numbers in base 2^32 compare by their high digit first. */
  lemma DigitOrder(hi1: int, lo1: int, hi2: int, lo2: int)
    requires 0 <= lo1 < UintModulus && 0 <= lo2 < UintModulus
    ensures hi1 < hi2 ==> hi1 * UintModulus + lo1 < hi2 * UintModulus + lo2
    ensures hi1 == hi2 ==> (hi1 * UintModulus + lo1 < hi2 * UintModulus + lo2 <==> lo1 < lo2)
    ensures hi1 * UintModulus + lo1 == hi2 * UintModulus + lo2 ==> hi1 == hi2 && lo1 == lo2
  {
  }

  /** The six comparison operators. */
  datatype Relation = Less | LessOrEqual | Greater | GreaterOrEqual | Equal | NotEqual

  /** Each operator reads the result of compare_versions: < is -1, <= is 0 or
      -1, > is 1, >= is 0 or 1, == is 0 and != is not 0. They agree with the
      order of the keys. */
  function Apply(op: Relation, l: Version, r: Version): (b: bool)
    ensures op == Less ==> (b <==> Key(l) < Key(r))
    ensures op == LessOrEqual ==> (b <==> Key(l) <= Key(r))
    ensures op == Greater ==> (b <==> Key(l) > Key(r))
    ensures op == GreaterOrEqual ==> (b <==> Key(l) >= Key(r))
    ensures op == Equal ==> (b <==> l == r)
    ensures op == NotEqual ==> (b <==> l != r)
  {
    var ret := CompareVersions(l, r);
    match op
    case Less => ret == -1
    case LessOrEqual => ret == 0 || ret == -1
    case Greater => ret == 1
    case GreaterOrEqual => ret == 0 || ret == 1
    case Equal => ret == 0
    case NotEqual => ret != 0
  }

  /** Exactly one of <, == and > holds, and each operator has its converse. */
  lemma Trichotomy(l: Version, r: Version)
    ensures (Apply(Less, l, r) && !Apply(Equal, l, r) && !Apply(Greater, l, r)) ||
            (!Apply(Less, l, r) && Apply(Equal, l, r) && !Apply(Greater, l, r)) ||
            (!Apply(Less, l, r) && !Apply(Equal, l, r) && Apply(Greater, l, r))
    ensures Apply(Less, l, r) <==> Apply(Greater, r, l)
    ensures Apply(LessOrEqual, l, r) <==> Apply(GreaterOrEqual, r, l)
    ensures Apply(LessOrEqual, l, r) <==> !Apply(Greater, l, r)
  {
    KeyOrder(l, r);
  }

  /** The order is transitive. */
  lemma LessTransitive(a: Version, b: Version, c: Version)
    requires Apply(Less, a, b) && Apply(Less, b, c)
    ensures Apply(Less, a, c)
  {
  }

  /** to_string: the three fields in decimal, separated by dots. */
  function ToString(v: Version): string {
    NatToString(v.major as nat) + "." + NatToString(v.minor as nat) + "." + NatToString(v.patch as nat)
  }

  /** Whether a text splits into the three fields the constructor reads. */
  predicate HasThreeParts(v: string) {
    |SplitAsWritten(v, '.')| >= 3
  }

  /** Version(const std::string&): split at '.', and each of the first three
      pieces read with std::stoi (which throws for a piece without digits or
      beyond the int range) and stored as unsigned int. */
  function FromString(v: string): Result<Version>
    requires HasThreeParts(v)
  {
    var parts := SplitAsWritten(v, '.');
    var major :- Stoi(parts[0]);
    var minor :- Stoi(parts[1]);
    var patch :- Stoi(parts[2]);
    Ok(Version(ToUint(major), ToUint(minor), ToUint(patch)))
  }

  /** The operators taking a C string parse it first. */
  function ApplyText(op: Relation, l: Version, v: string): Result<bool>
    requires HasThreeParts(v)
  {
    var r :- FromString(v);
    Ok(Apply(op, l, r))
  }

  /** to_string splits into the three decimal fields. */
  lemma SplitToString(v: Version)
    ensures SplitAsWritten(ToString(v), '.') ==
      [NatToString(v.major as nat), NatToString(v.minor as nat), NatToString(v.patch as nat)]
  {
    var a, b, c := NatToString(v.major as nat), NatToString(v.minor as nat), NatToString(v.patch as nat);
    NoDotInDigits(a);
    NoDotInDigits(b);
    NoDotInDigits(c);
    SplitThree(a, b, c);
  }

  lemma NoDotInDigits(s: string)
    requires AllDigits(s)
    ensures '.' !in s
  {
    assert !IsDigit('.');
  }

  /** Three pieces without dots, joined by dots, split back into themselves. */
  lemma SplitThree(a: string, b: string, c: string)
    requires '.' !in a && '.' !in b && '.' !in c
    ensures SplitAsWritten(a + "." + b + "." + c, '.') == [a, b, c]
  {
    PiecesWithoutDelimiter(a, '.');
    PiecesWithoutDelimiter(b, '.');
    PiecesWithoutDelimiter(c, '.');
    PiecesAround(a, '.', b);
    PiecesAround(a + "." + b, '.', c);
    assert |a + "." + b + "." + c| > 0;
  }

  /** Reading back what to_string wrote gives the version, as long as every
      field fits an int. */
  lemma ParseToString(v: Version)
    requires v.major as int <= IntMax && v.minor as int <= IntMax && v.patch as int <= IntMax
    ensures HasThreeParts(ToString(v)) && FromString(ToString(v)) == Ok(v)
  {
    SplitToString(v);
    NatToStringParses(v.major as nat, [], IntMin, IntMax);
    NatToStringParses(v.minor as nat, [], IntMin, IntMax);
    NatToStringParses(v.patch as nat, [], IntMin, IntMax);
    assert NatToString(v.major as nat) + [] == NatToString(v.major as nat);
    assert NatToString(v.minor as nat) + [] == NatToString(v.minor as nat);
    assert NatToString(v.patch as nat) + [] == NatToString(v.patch as nat);
  }

  /** The round trip fails for a field above INT_MAX: std::stoi throws
      out_of_range on the text to_string wrote (Version(2147483648, 0, 0)). */
  lemma ParseToStringAboveIntMax(v: Version)
    requires v.major as int > IntMax
    ensures HasThreeParts(ToString(v)) && FromString(ToString(v)) == Err(OutOfRange)
  {
    SplitToString(v);
    NatToStringParses(v.major as nat, [], IntMin, IntMax);
    assert NatToString(v.major as nat) + [] == NatToString(v.major as nat);
  }

  /** The constructor as evidently intended: each field read with a
      conversion wide enough for every unsigned int (std::stol here, whose
      long range holds it). */
  function FromStringIntended(v: string): Result<Version>
    requires HasThreeParts(v)
  {
    var parts := SplitAsWritten(v, '.');
    var major :- Stol(parts[0]);
    var minor :- Stol(parts[1]);
    var patch :- Stol(parts[2]);
    Ok(Version(ToUint(major), ToUint(minor), ToUint(patch)))
  }

  /** With the wider conversion the round trip holds for every version. */
  lemma ParseToStringIntended(v: Version)
    ensures HasThreeParts(ToString(v)) && FromStringIntended(ToString(v)) == Ok(v)
  {
    SplitToString(v);
    NatToStringParses(v.major as nat, [], LongMin, LongMax);
    NatToStringParses(v.minor as nat, [], LongMin, LongMax);
    NatToStringParses(v.patch as nat, [], LongMin, LongMax);
    assert NatToString(v.major as nat) + [] == NatToString(v.major as nat);
    assert NatToString(v.minor as nat) + [] == NatToString(v.minor as nat);
    assert NatToString(v.patch as nat) + [] == NatToString(v.patch as nat);
  }

  /** Comparing with the text of a version is comparing with the version. */
  lemma ApplyToText(op: Relation, l: Version, r: Version)
    requires r.major as int <= IntMax && r.minor as int <= IntMax && r.patch as int <= IntMax
    ensures HasThreeParts(ToString(r)) && ApplyText(op, l, ToString(r)) == Ok(Apply(op, l, r))
  {
    ParseToString(r);
  }
}
