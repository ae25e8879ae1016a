/**
  Lenient semantic-version comparison used when a plugin is installed over
  an existing copy (`compare_versions`, src/main.rs).
 */
module Versions {
  import opened Wrappers
  import opened Text

  const U32Limit: nat := 0x1_0000_0000

  datatype Ordering = Less | Equal | Greater {
    function Reverse(): Ordering
    {
      match this
      case Less => Greater
      case Equal => Equal
      case Greater => Less
    }
  }

  datatype Triple = Triple(major: nat, minor: nat, patch: nat)

  predicate IsDigit(c: char)
  {
    '0' <= c <= '9'
  }

  predicate AllDigits(s: string)
  {
    forall k :: 0 <= k < |s| ==> IsDigit(s[k])
  }

  /** The decimal value of a string of digits, most significant first. */
  function DigitsValue(s: string): nat
    requires AllDigits(s)
  {
    if s == [] then 0 else DigitsValue(s[..|s| - 1]) * 10 + (s[|s| - 1] as int - '0' as int)
  }

  /**
    `str::parse::<u32>`: one optional leading '+', then at least one digit,
    and a value that fits in 32 bits. Anything else is an error.
   */
  function ParseU32(s: string): (r: Option<nat>)
    ensures r.Some? <==>
      var digits := if s != [] && s[0] == '+' then s[1..] else s;
      digits != [] && AllDigits(digits) && DigitsValue(digits) < U32Limit
    ensures r.Some? ==>
      var digits := if s != [] && s[0] == '+' then s[1..] else s;
      AllDigits(digits) && r.value == DigitsValue(digits) && r.value < U32Limit
  {
    var digits := if s != [] && s[0] == '+' then s[1..] else s;
    if digits != [] && AllDigits(digits) && DigitsValue(digits) < U32Limit
    then Some(DigitsValue(digits))
    else None
  }

  /** `str::trim_start_matches('v')`: every leading 'v' is removed. */
  function TrimLeadingV(s: string): (r: string)
    ensures r == [] || r[0] != 'v'
    ensures |r| <= |s| && r == s[|s| - |r|..]
    ensures forall k :: 0 <= k < |s| - |r| ==> s[k] == 'v'
  {
    if s != [] && s[0] == 'v' then TrimLeadingV(s[1..]) else s
  }

  /**
    The `parse` closure of `compare_versions`: up to three dot-separated
    numbers, a `-suffix` on the third ignored, missing parts read as 0.
   */
  function ParseVersion(v: string): (r: Option<Triple>)
    ensures r.Some? ==> r.value.major < U32Limit && r.value.minor < U32Limit && r.value.patch < U32Limit
  {
    ParseParts(Split(TrimLeadingV(v), '.'))
  }

  /**
    The length cases of the `parse` closure, over the dot-separated parts:
    the major is the first part, the minor the second and the patch the
    third up to its first '-'; absent parts read as 0; a part that does not
    parse fails the whole.
   */
  function ParseParts(parts: seq<string>): (r: Option<Triple>)
    requires |parts| >= 1
    ensures r.Some? ==> r.value.major < U32Limit && r.value.minor < U32Limit && r.value.patch < U32Limit
    ensures r.Some? ==> ParseU32(parts[0]) == Some(r.value.major)
    ensures r.Some? ==> (if |parts| >= 2 then ParseU32(parts[1]) == Some(r.value.minor) else r.value.minor == 0)
    ensures r.Some? ==> (if |parts| >= 3 then ParseU32(Split(parts[2], '-')[0]) == Some(r.value.patch) else r.value.patch == 0)
    ensures r.None? <==>
      || ParseU32(parts[0]).None?
      || (|parts| >= 2 && ParseU32(parts[1]).None?)
      || (|parts| >= 3 && ParseU32(Split(parts[2], '-')[0]).None?)
  {
    if |parts| >= 3 then
      var patchText := Split(parts[2], '-')[0];
      match (ParseU32(parts[0]), ParseU32(parts[1]), ParseU32(patchText))
      case (Some(a), Some(b), Some(c)) => Some(Triple(a, b, c))
      case _ => None
    else if |parts| == 2 then
      match (ParseU32(parts[0]), ParseU32(parts[1]))
      case (Some(a), Some(b)) => Some(Triple(a, b, 0))
      case _ => None
    else
      match ParseU32(parts[0])
      case Some(a) => Some(Triple(a, 0, 0))
      case None => None
  }

  function CompareNat(a: nat, b: nat): Ordering
  {
    if a < b then Less else if a == b then Equal else Greater
  }

  /** Tuple ordering: major first, then minor, then patch. */
  function CompareTriples(x: Triple, y: Triple): Ordering
  {
    if x.major != y.major then CompareNat(x.major, y.major)
    else if x.minor != y.minor then CompareNat(x.minor, y.minor)
    else CompareNat(x.patch, y.patch)
  }

  function CompareVersions(v1: string, v2: string): (r: Option<Ordering>)
    ensures r.None? <==> ParseVersion(v1).None? || ParseVersion(v2).None?
    ensures r.Some? ==>
      var a, b := ParseVersion(v1).value, ParseVersion(v2).value;
      && (r.value == Less <==> TripleLess(a, b))
      && (r.value == Equal <==> a == b)
      && (r.value == Greater <==> TripleLess(b, a))
  {
    match (ParseVersion(v1), ParseVersion(v2))
    case (Some(a), Some(b)) =>
      CompareTriplesMeaning(a, b);
      Some(CompareTriples(a, b))
    case _ => None
  }

  /** Strict lexicographic order on triples, stated independently of `CompareTriples`. */
  predicate TripleLess(x: Triple, y: Triple)
  {
    x.major < y.major
    || (x.major == y.major && x.minor < y.minor)
    || (x.major == y.major && x.minor == y.minor && x.patch < y.patch)
  }

  lemma CompareTriplesMeaning(x: Triple, y: Triple)
    ensures CompareTriples(x, y) == Less <==> TripleLess(x, y)
    ensures CompareTriples(x, y) == Equal <==> x == y
    ensures CompareTriples(x, y) == Greater <==> TripleLess(y, x)
  {
  }

  /** Swapping the arguments reverses the answer, and both fail together. */
  lemma CompareVersionsAntisymmetric(v1: string, v2: string)
    ensures CompareVersions(v1, v2).None? <==> CompareVersions(v2, v1).None?
    ensures CompareVersions(v1, v2).Some? ==>
      CompareVersions(v1, v2).value == CompareVersions(v2, v1).value.Reverse()
  {
    if ParseVersion(v1).Some? && ParseVersion(v2).Some? {
      CompareTriplesMeaning(ParseVersion(v1).value, ParseVersion(v2).value);
      CompareTriplesMeaning(ParseVersion(v2).value, ParseVersion(v1).value);
    }
  }

  /** Older-than is transitive. */
  lemma CompareVersionsTransitive(v1: string, v2: string, v3: string)
    ensures CompareVersions(v1, v2) == Some(Less) && CompareVersions(v2, v3) == Some(Less) ==>
              CompareVersions(v1, v3) == Some(Less)
  {
    var p1, p2, p3 := ParseVersion(v1), ParseVersion(v2), ParseVersion(v3);
    if p1.Some? && p2.Some? && p3.Some? {
      if CompareTriples(p1.value, p2.value) == Less && CompareTriples(p2.value, p3.value) == Less {
        CompareTriplesTransitive(p1.value, p2.value, p3.value);
      }
    }
  }

  lemma CompareTriplesTransitive(a: Triple, b: Triple, c: Triple)
    requires CompareTriples(a, b) == Less && CompareTriples(b, c) == Less
    ensures CompareTriples(a, c) == Less
  {
    CompareTriplesMeaning(a, b);
    CompareTriplesMeaning(b, c);
    CompareTriplesMeaning(a, c);
  }

  // ---------------------------------------------------------------------------
  // Rendering, the partner of parsing

  function DigitChar(d: nat): char
    requires d < 10
  {
    ('0' as int + d) as char
  }

  /** Decimal text of `n`, without leading zeros. */
  function NatToString(n: nat): (r: string)
    ensures r != [] && AllDigits(r)
    ensures '.' !in r && '-' !in r && r[0] != 'v' && r[0] != '+'
    decreases n
  {
    if n < 10 then [DigitChar(n)] else NatToString(n / 10) + [DigitChar(n % 10)]
  }

  lemma {:induction false} NatToStringValue(n: nat)
    ensures DigitsValue(NatToString(n)) == n
    decreases n
  {
    if n >= 10 {
      NatToStringValue(n / 10);
      var s := NatToString(n);
      assert s[..|s| - 1] == NatToString(n / 10);
    }
  }

  /** `major.minor.patch`, as the version strings the tool reads. */
  function RenderVersion(t: Triple): string
  {
    NatToString(t.major) + "." + NatToString(t.minor) + "." + NatToString(t.patch)
  }

  lemma ParseU32Rendered(n: nat)
    requires n < U32Limit
    ensures ParseU32(NatToString(n)) == Some(n)
  {
    NatToStringValue(n);
  }

  lemma {:induction false} SplitAfterPiece(x: string, c: char, y: string)
    requires c !in x
    ensures Split(x + [c] + y, c) == [x] + Split(y, c)
  {
    var s := x + [c] + y;
    var fi := FirstIndex(s, c);
    assert s[|x|] == c;
    assert s[..|x|] == x;
    assert fi == Some(|x|);
    assert s[|x| + 1..] == y;
  }

  lemma SplitNoSeparator(x: string, c: char)
    requires c !in x
    ensures Split(x, c) == [x]
  {
  }

  lemma ParsePartsRendered(t: Triple)
    requires t.major < U32Limit && t.minor < U32Limit && t.patch < U32Limit
    ensures ParseParts([NatToString(t.major), NatToString(t.minor), NatToString(t.patch)]) == Some(t)
  {
    SplitNoSeparator(NatToString(t.patch), '-');
    ParseU32Rendered(t.major);
    ParseU32Rendered(t.minor);
    ParseU32Rendered(t.patch);
  }

  lemma SplitRendered(t: Triple)
    ensures TrimLeadingV(RenderVersion(t)) == RenderVersion(t)
    ensures Split(RenderVersion(t), '.') == [NatToString(t.major), NatToString(t.minor), NatToString(t.patch)]
  {
    SplitThree(NatToString(t.major), NatToString(t.minor), NatToString(t.patch));
  }

  /** Three dot-free pieces joined by dots split back into those pieces. */
  lemma SplitThree(a: string, b: string, c: string)
    requires '.' !in a && '.' !in b && '.' !in c
    ensures Split(a + "." + b + "." + c, '.') == [a, b, c]
  {
    assert a + "." + b + "." + c == a + ['.'] + (b + "." + c);
    SplitAfterPiece(a, '.', b + "." + c);
    SplitAfterPiece(b, '.', c);
    SplitNoSeparator(c, '.');
  }

  /** A rendered version parses back to the triple it came from. */
  lemma ParseRenderVersion(t: Triple)
    requires t.major < U32Limit && t.minor < U32Limit && t.patch < U32Limit
    ensures ParseVersion(RenderVersion(t)) == Some(t)
  {
    SplitRendered(t);
    ParsePartsRendered(t);
  }

  /** A missing patch reads as 0: "a.b" and "a.b.0" compare equal. */
  lemma MissingPatchIsZero(major: nat, minor: nat)
    requires major < U32Limit && minor < U32Limit
    ensures CompareVersions(NatToString(major) + "." + NatToString(minor),
                            RenderVersion(Triple(major, minor, 0))) == Some(Equal)
  {
    var a, b := NatToString(major), NatToString(minor);
    var s := a + "." + b;
    assert s == a + ['.'] + b;
    assert TrimLeadingV(s) == s;
    SplitAfterPiece(a, '.', b);
    SplitNoSeparator(b, '.');
    ParseU32Rendered(major);
    ParseU32Rendered(minor);
    ParseRenderVersion(Triple(major, minor, 0));
    CompareTriplesMeaning(Triple(major, minor, 0), Triple(major, minor, 0));
  }

  /**
    A pre-release suffix on the patch is ignored, dots and all: the part
    after the third dot is never read.
   */
  lemma SuffixIgnored(t: Triple, suffix: string)
    requires t.major < U32Limit && t.minor < U32Limit && t.patch < U32Limit
    ensures ParseVersion(RenderVersion(t) + "-" + suffix) == Some(t)
  {
    var a, b, c := NatToString(t.major), NatToString(t.minor), NatToString(t.patch);
    var s := RenderVersion(t) + "-" + suffix;
    var x, more := SplitOnce(suffix, '.');
    var last := c + "-" + x;
    assert s == a + "." + b + "." + last + more by {
      assert suffix == x + more;
    }
    assert TrimLeadingV(s) == s by {
      assert s[0] == a[0];
    }
    SplitThreeThen(a, b, last, more);
    PartsWithSuffix(t, Split(s, '.'), x);
  }

  /** The first three parts are the rendered triple, the patch followed by '-' and dot-free text. */
  lemma PartsWithSuffix(t: Triple, parts: seq<string>, x: string)
    requires t.major < U32Limit && t.minor < U32Limit && t.patch < U32Limit
    requires '.' !in x && |parts| >= 3
    requires parts[..3] == [NatToString(t.major), NatToString(t.minor), NatToString(t.patch) + "-" + x]
    ensures ParseParts(parts) == Some(t)
  {
    var c := NatToString(t.patch);
    assert parts[2] == c + ['-'] + x by {
      assert parts[2] == parts[..3][2];
    }
    assert Split(parts[2], '-')[0] == c by {
      SplitAfterPiece(c, '-', x);
    }
    assert parts[0] == parts[..3][0] && parts[1] == parts[..3][1];
    ParseU32Rendered(t.major);
    ParseU32Rendered(t.minor);
    ParseU32Rendered(t.patch);
    ThreeParts(parts, t);
  }

  /** `s` as the text before its first `c`, then the rest from that `c` on (empty without one). */
  lemma SplitOnce(s: string, c: char) returns (x: string, more: string)
    ensures c !in x && s == x + more && (more == [] || more[0] == c)
  {
    match FirstIndex(s, c)
    case None =>
      x, more := s, [];
      assert s + [] == s;
    case Some(i) =>
      x, more := s[..i], s[i..];
      assert s == s[..i] + s[i..];
  }

  /**
    Three dot-free pieces, then nothing or a dot and anything: the split
    starts with those three pieces.
   */
  lemma SplitThreeThen(a: string, b: string, c: string, more: string)
    requires '.' !in a && '.' !in b && '.' !in c && (more == [] || more[0] == '.')
    ensures |Split(a + "." + b + "." + c + more, '.')| >= 3
    ensures Split(a + "." + b + "." + c + more, '.')[..3] == [a, b, c]
  {
    var tail := c + more;
    var mid := b + ['.'] + tail;
    assert a + "." + b + "." + c + more == a + ['.'] + mid;
    SplitAfterPiece(b, '.', tail);
    SplitAfterPiece(a, '.', mid);
    SplitHead(c, more);
    FirstThree(a, b, c, Split(tail, '.'));
  }

  lemma FirstThree(a: string, b: string, c: string, rest: seq<string>)
    requires |rest| >= 1 && rest[0] == c
    ensures |[a] + ([b] + rest)| >= 3 && ([a] + ([b] + rest))[..3] == [a, b, c]
  {
    assert ([a] + ([b] + rest))[..3] == [a, b, rest[0]];
  }

  /** Dot-free text, then nothing or a dot and anything: the split starts with that text. */
  lemma SplitHead(c: string, more: string)
    requires '.' !in c && (more == [] || more[0] == '.')
    ensures Split(c + more, '.')[0] == c
  {
    if more == [] {
      assert c + more == c;
      SplitNoSeparator(c, '.');
    } else {
      assert c + more == c + ['.'] + more[1..];
      SplitAfterPiece(c, '.', more[1..]);
    }
  }

  lemma ThreeParts(parts: seq<string>, t: Triple)
    requires |parts| >= 3
    requires ParseU32(parts[0]) == Some(t.major) && ParseU32(parts[1]) == Some(t.minor)
    requires ParseU32(Split(parts[2], '-')[0]) == Some(t.patch)
    ensures ParseParts(parts) == Some(t)
  {
  }

  /** Any number of leading 'v's is ignored. */
  lemma {:induction false} LeadingVIgnored(v: string)
    ensures ParseVersion("v" + v) == ParseVersion(v)
  {
    assert ("v" + v)[1..] == v;
    assert TrimLeadingV("v" + v) == TrimLeadingV(v);
  }
}
