/**
  Character and string helpers shared by the other modules. Strings are
  sequences of Unicode scalar values; case mapping is ASCII-only.
 */
module Text {
  import opened Wrappers

  /** Does `sub` occur in `s` starting at index `i`? */
  predicate OccursAt(s: string, sub: string, i: nat)
  {
    i + |sub| <= |s| && s[i..i + |sub|] == sub
  }

  /** Substring test (`str::contains`). */
  predicate Contains(s: string, sub: string)
  {
    exists i: nat | i <= |s| :: OccursAt(s, sub, i)
  }

  predicate StartsWith(s: string, prefix: string)
  {
    |prefix| <= |s| && s[..|prefix|] == prefix
  }

  predicate EndsWith(s: string, suffix: string)
  {
    |suffix| <= |s| && s[|s| - |suffix|..] == suffix
  }

  lemma ContainsSelf(s: string)
    ensures Contains(s, s)
  {
    assert OccursAt(s, s, 0);
  }

  lemma ContainsPrefix(s: string, t: string)
    ensures Contains(s + t, s)
  {
    assert (s + t)[0..|s|] == s;
    assert OccursAt(s + t, s, 0);
  }

  lemma SliceOfSlice<T>(s: seq<T>, i: nat, n: nat, j: nat, m: nat)
    requires i + n <= |s| && j + m <= n
    ensures s[i..i + n][j..j + m] == s[i + j..i + j + m]
  {
    var a := s[i..i + n][j..j + m];
    var b := s[i + j..i + j + m];
    forall k | 0 <= k < m ensures a[k] == b[k] {
      assert a[k] == s[i..i + n][j + k] == s[i + j + k];
    }
  }

  /** An occurrence inside a slice of `s` is an occurrence in `s`. */
  lemma OccursInSlice(s: string, p: nat, n: nat, w: string, i: nat)
    requires p + n <= |s| && OccursAt(s[p..p + n], w, i)
    ensures OccursAt(s, w, p + i)
  {
    SliceOfSlice(s, p, n, i, |w|);
  }

  /** An occurrence in `s` that lies inside a slice is an occurrence in the slice. */
  lemma OccursInsideSlice(s: string, p: nat, n: nat, w: string, i: nat)
    requires p + n <= |s| && OccursAt(s, w, i) && p <= i && i + |w| <= p + n
    ensures OccursAt(s[p..p + n], w, i - p)
  {
    SliceOfSlice(s, p, n, i - p, |w|);
  }

  lemma ContainsTransitive(s: string, mid: string, sub: string)
    requires Contains(s, mid) && Contains(mid, sub)
    ensures Contains(s, sub)
  {
    var i: nat :| i <= |s| && OccursAt(s, mid, i);
    var j: nat :| j <= |mid| && OccursAt(mid, sub, j);
    OccursInSlice(s, i, |mid|, sub, j);
  }

  /** ASCII whitespace as `char::is_whitespace` sees it for ASCII input. */
  predicate IsSpace(c: char)
  {
    c == ' ' || c == '\t' || c == '\n' || c == '\r' || c == '\U{B}' || c == '\U{C}'
  }

  function TrimStart(s: string): (r: string)
    ensures |r| <= |s| && r == s[|s| - |r|..]
    ensures r == [] || !IsSpace(r[0])
    ensures forall k :: 0 <= k < |s| - |r| ==> IsSpace(s[k])
  {
    if s != [] && IsSpace(s[0]) then TrimStart(s[1..]) else s
  }

  function TrimEnd(s: string): (r: string)
    ensures |r| <= |s| && r == s[..|r|]
    ensures r == [] || !IsSpace(r[|r| - 1])
    ensures forall k :: |r| <= k < |s| ==> IsSpace(s[k])
  {
    if s != [] && IsSpace(s[|s| - 1]) then TrimEnd(s[..|s| - 1]) else s
  }

  /** `str::trim` restricted to ASCII whitespace. */
  function Trim(s: string): string
  {
    TrimEnd(TrimStart(s))
  }

  /** `Trim(s)` is the slice of `s` between its leading and trailing spaces. */
  lemma TrimIsSlice(s: string) returns (a: nat)
    ensures a + |Trim(s)| <= |s| && Trim(s) == s[a..a + |Trim(s)|]
    ensures forall k :: 0 <= k < a ==> IsSpace(s[k])
    ensures forall k :: a + |Trim(s)| <= k < |s| ==> IsSpace(s[k])
  {
    var t := TrimStart(s);
    a := |s| - |t|;
    PrefixOfSuffix(s, a, TrimEnd(t));
  }

  /** A prefix `u` of the suffix of `s` from `a` is a slice of `s`, trailed by what follows it there. */
  lemma PrefixOfSuffix(s: string, a: nat, u: string)
    requires a <= |s| && |u| <= |s| - a && u == s[a..][..|u|]
    ensures u == s[a..a + |u|]
    ensures forall k :: a + |u| <= k < |s| ==> s[k] == s[a..][k - a]
  {
  }

  /**
    Trimming never hides an occurrence of a word that starts and ends with
    a non-space character, and never creates one.
   */
  lemma TrimKeepsWords(s: string, w: string)
    requires w != [] && !IsSpace(w[0]) && !IsSpace(w[|w| - 1])
    ensures Contains(Trim(s), w) <==> Contains(s, w)
  {
    if Contains(Trim(s), w) {
      TrimCreatesNoWord(s, w);
    }
    if Contains(s, w) {
      TrimHidesNoWord(s, w);
    }
  }

  lemma TrimCreatesNoWord(s: string, w: string)
    requires Contains(Trim(s), w)
    ensures Contains(s, w)
  {
    var u := Trim(s);
    var a := TrimIsSlice(s);
    var i: nat :| i <= |u| && OccursAt(u, w, i);
    OccursInSlice(s, a, |u|, w, i);
  }

  lemma TrimHidesNoWord(s: string, w: string)
    requires w != [] && !IsSpace(w[0]) && !IsSpace(w[|w| - 1])
    requires Contains(s, w)
    ensures Contains(Trim(s), w)
  {
    var a := TrimIsSlice(s);
    var i: nat :| i <= |s| && OccursAt(s, w, i);
    WordInSlice(s, a, |Trim(s)|, w, i);
  }

  /** A word occurring in `s` lies inside the slice that only spaces surround. */
  lemma WordInSlice(s: string, a: nat, n: nat, w: string, i: nat)
    requires w != [] && !IsSpace(w[0]) && !IsSpace(w[|w| - 1])
    requires a + n <= |s| && OccursAt(s, w, i)
    requires forall k :: 0 <= k < a ==> IsSpace(s[k])
    requires forall k :: a + n <= k < |s| ==> IsSpace(s[k])
    ensures Contains(s[a..a + n], w)
  {
    WordInsideTrim(s, a, n, w, i);
    OccursInsideSlice(s, a, n, w, i);
    assert OccursAt(s[a..a + n], w, i - a);
  }

  lemma WordInsideTrim(s: string, a: nat, n: nat, w: string, i: nat)
    requires w != [] && !IsSpace(w[0]) && !IsSpace(w[|w| - 1])
    requires a + n <= |s| && OccursAt(s, w, i)
    requires forall k :: 0 <= k < a ==> IsSpace(s[k])
    requires forall k :: a + n <= k < |s| ==> IsSpace(s[k])
    ensures a <= i && i + |w| <= a + n
  {
    assert s[i] == s[i..i + |w|][0];
    var e := i + |w| - 1;
    assert s[e] == s[i..i + |w|][|w| - 1];
  }

  function ToLowerChar(c: char): char
  {
    if 'A' <= c <= 'Z' then (c as int + 32) as char else c
  }

  function ToUpperChar(c: char): char
  {
    if 'a' <= c <= 'z' then (c as int - 32) as char else c
  }

  /** ASCII `to_lowercase`. */
  function ToLower(s: string): (r: string)
    ensures |r| == |s|
    ensures forall k :: 0 <= k < |s| ==> r[k] == ToLowerChar(s[k])
  {
    if s == [] then [] else [ToLowerChar(s[0])] + ToLower(s[1..])
  }

  /** Index of the first occurrence of `c` in `s`, if any. */
  function FirstIndex(s: string, c: char): (r: Option<nat>)
    ensures r.None? ==> c !in s
    ensures r.Some? ==> r.value < |s| && s[r.value] == c && c !in s[..r.value]
  {
    if s == [] then None
    else if s[0] == c then Some(0)
    else match FirstIndex(s[1..], c)
      case None => None
      case Some(i) =>
        assert s[..i + 1] == [s[0]] + s[1..][..i];
        Some(i + 1)
  }

  /** The first `c` is the one right after a prefix without `c`. */
  lemma {:induction false} FirstIndexAfterPrefix(x: string, rest: string, c: char)
    requires c !in x && rest != [] && rest[0] == c
    ensures FirstIndex(x + rest, c) == Some(|x|)
  {
    if x != [] {
      assert (x + rest)[1..] == x[1..] + rest;
      FirstIndexAfterPrefix(x[1..], rest, c);
    }
  }

  /** Index of the last occurrence of `c` in `s`, if any. */
  function LastIndex(s: string, c: char): (r: Option<nat>)
    ensures r.None? ==> c !in s
    ensures r.Some? ==> r.value < |s| && s[r.value] == c && c !in s[r.value + 1..]
  {
    if s == [] then None
    else if s[|s| - 1] == c then Some(|s| - 1)
    else match LastIndex(s[..|s| - 1], c)
      case None => None
      case Some(i) =>
        assert s[i + 1..] == s[..|s| - 1][i + 1..] + [s[|s| - 1]];
        Some(i)
  }

  /** The pieces glued together with `c` between them. */
  function Join(parts: seq<string>, c: char): string
  {
    if parts == [] then []
    else if |parts| == 1 then parts[0]
    else parts[0] + [c] + Join(parts[1..], c)
  }

  /**
    `str::split(c)`: the pieces between occurrences of `c`. There is always
    at least one piece, no piece contains `c`, and gluing the pieces back
    together with `c` gives the original text.
   */
  function Split(s: string, c: char): (r: seq<string>)
    ensures |r| >= 1
    ensures forall k :: 0 <= k < |r| ==> c !in r[k]
    ensures Join(r, c) == s
    decreases |s|
  {
    match FirstIndex(s, c)
    case None => [s]
    case Some(i) =>
      var rest := Split(s[i + 1..], c);
      assert ([s[..i]] + rest)[1..] == rest;
      assert s == s[..i] + [c] + s[i + 1..];
      [s[..i]] + rest
  }

  /** Strict lexicographic order on strings, by code point. */
  predicate StringLess(a: string, b: string)
  {
    if a == [] then b != []
    else if b == [] then false
    else a[0] < b[0] || (a[0] == b[0] && StringLess(a[1..], b[1..]))
  }

  lemma {:induction false} StringLessIrreflexive(a: string)
    ensures !StringLess(a, a)
  {
    if a != [] { StringLessIrreflexive(a[1..]); }
  }

  lemma {:induction false} StringLessTransitive(a: string, b: string, c: string)
    requires StringLess(a, b) && StringLess(b, c)
    ensures StringLess(a, c)
  {
    if a != [] && b != [] && c != [] && a[0] == b[0] == c[0] {
      StringLessTransitive(a[1..], b[1..], c[1..]);
    }
  }

  lemma {:induction false} StringLessTotal(a: string, b: string)
    ensures a == b || StringLess(a, b) || StringLess(b, a)
  {
    if a != [] && b != [] && a[0] == b[0] {
      StringLessTotal(a[1..], b[1..]);
      if a[1..] == b[1..] {
        assert a == [a[0]] + a[1..] && b == [b[0]] + b[1..];
      }
    }
  }

  lemma {:induction false} StringLessAsymmetric(a: string, b: string)
    requires StringLess(a, b)
    ensures !StringLess(b, a)
  {
    if a != [] && b != [] && a[0] == b[0] {
      StringLessAsymmetric(a[1..], b[1..]);
    }
  }

  /**
    `Path::file_name` on a path given as its components: the last one, if
    there is one.
   */
  function FileName(p: seq<string>): Option<string>
  {
    if p == [] then None else Some(p[|p| - 1])
  }
}
