/** The members of .NET's System.String (and System.Char) that the core calls
    (whitespace tests, Trim, invariant case mapping, Split and LastIndexOf),
    with the helpers they are defined by (TrimStart, TrimEnd, IndexOf, Join).
    Substring and Remove are written as slices where the code calls them. Casing and whitespace are restricted to the characters
    listed below. */
module Strings {
  import opened Wrappers

  /** A C# `string?`: None stands for null. */
  type NullableString = Option<string>

  /** char.IsWhiteSpace, restricted to ASCII and Latin-1: space, U+0009..U+000D, U+0085, U+00A0. */
  predicate IsWhiteSpace(c: char) {
    c == ' ' || ('\t' <= c <= '\r') || c == '\U{0085}' || c == '\U{00A0}'
  }

  /** Every character of `s` is whitespace (true of the empty string). */
  predicate AllWhiteSpace(s: string) {
    s == [] || (IsWhiteSpace(s[0]) && AllWhiteSpace(s[1..]))
  }

  lemma {:induction false} AllWhiteSpaceConcat(a: string, b: string)
    ensures AllWhiteSpace(a + b) <==> AllWhiteSpace(a) && AllWhiteSpace(b)
  {
    if a != [] {
      assert (a + b)[1..] == a[1..] + b;
      AllWhiteSpaceConcat(a[1..], b);
    } else {
      assert a + b == b;
    }
  }

  /** A string holding a non-whitespace character, such as `/`, is not blank. */
  lemma {:induction false} NotAllWhiteSpace(s: string, c: char)
    requires c in s && !IsWhiteSpace(c)
    ensures !AllWhiteSpace(s)
  {
    if s[0] != c {
      assert c in s[1..] by {
        var i :| 0 <= i < |s| && s[i] == c;
        assert s[1..][i - 1] == c;
      }
      NotAllWhiteSpace(s[1..], c);
    }
  }

  /** string.IsNullOrWhiteSpace: null, empty, or whitespace only. */
  predicate IsNullOrWhiteSpace(s: NullableString) {
    s.None? || AllWhiteSpace(s.value)
  }

  /** string.Substring(start, length), used to state IsInfix. */
  function Substring(s: string, start: nat, length: nat): (r: string)
    requires start + length <= |s|
    ensures |r| == length
  {
    s[start..start + length]
  }

  /** `a` occurs in `s` as a contiguous substring. */
  ghost predicate IsInfix(a: string, s: string) {
    exists i :: 0 <= i <= |s| - |a| && Substring(s, i, |a|) == a
  }

  /** A substring of a substring is a substring. */
  lemma InfixTransitive(a: string, b: string, s: string)
    requires IsInfix(a, b) && IsInfix(b, s)
    ensures IsInfix(a, s)
  {
    var i :| 0 <= i <= |b| - |a| && Substring(b, i, |a|) == a;
    var j :| 0 <= j <= |s| - |b| && Substring(s, j, |b|) == b;
    forall k | 0 <= k < |a| ensures a[k] == s[j + i + k] {
      assert a[k] == b[i + k] == s[j + i + k];
    }
    assert Substring(s, j + i, |a|) == a;
  }

  // ---------------------------------------------------------------- Trim

  /** Drops leading whitespace; the first half of Trim. */
  function TrimStart(s: string): (r: string)
    ensures r == [] || !IsWhiteSpace(r[0])
    ensures AllWhiteSpace(s) <==> r == []
  {
    if s != [] && IsWhiteSpace(s[0]) then TrimStart(s[1..]) else s
  }

  /** Drops trailing whitespace; the second half of Trim. */
  function TrimEnd(s: string): (r: string)
    ensures r == [] || !IsWhiteSpace(r[|r| - 1])
    ensures |r| <= |s| && r == s[..|r|]
    ensures s != [] && !IsWhiteSpace(s[0]) ==> r != []
    decreases |s|
  {
    if s != [] && IsWhiteSpace(s[|s| - 1]) then TrimEnd(s[..|s| - 1]) else s
  }

  /** string.Trim(): drops leading and trailing whitespace. */
  function Trim(s: string): (r: string)
    ensures AllWhiteSpace(s) <==> r == []
    ensures r != [] ==> !IsWhiteSpace(r[0]) && !IsWhiteSpace(r[|r| - 1])
  {
    var start := TrimStart(s);
    var r := TrimEnd(start);
    assert r != [] ==> r[0] == start[0];
    r
  }

  lemma {:induction false} TrimStartPadded(a: string, s: string)
    requires AllWhiteSpace(a)
    ensures TrimStart(a + s) == TrimStart(s)
  {
    if a != [] {
      assert (a + s)[1..] == a[1..] + s;
      TrimStartPadded(a[1..], s);
    } else {
      assert a + s == s;
    }
  }

  lemma {:induction false} TrimStartAppend(s: string, b: string)
    requires !AllWhiteSpace(s)
    ensures TrimStart(s + b) == TrimStart(s) + b
  {
    assert (s + b)[0] == s[0];
    if IsWhiteSpace(s[0]) {
      assert (s + b)[1..] == s[1..] + b;
      TrimStartAppend(s[1..], b);
    }
  }

  lemma {:induction false} TrimEndPadded(s: string, b: string)
    requires AllWhiteSpace(b)
    ensures TrimEnd(s + b) == TrimEnd(s)
    decreases |b|
  {
    if b != [] {
      var n := |b| - 1;
      assert b == b[..n] + [b[n]];
      AllWhiteSpaceConcat(b[..n], [b[n]]);
      assert (s + b)[..|s + b| - 1] == s + b[..n];
      TrimEndPadded(s, b[..n]);
    } else {
      assert s + b == s;
    }
  }

  /** Whitespace around a string does not survive Trim. */
  lemma TrimPadded(a: string, s: string, b: string)
    requires AllWhiteSpace(a) && AllWhiteSpace(b)
    ensures Trim(a + s + b) == Trim(s)
  {
    assert a + s + b == a + (s + b);
    TrimStartPadded(a, s + b);
    if AllWhiteSpace(s) {
      TrimStartPadded(s, b);
    } else {
      TrimStartAppend(s, b);
      TrimEndPadded(TrimStart(s), b);
    }
  }

  /** A string with no whitespace at either end is its own trim. */
  lemma TrimTrimmed(s: string)
    requires s == [] || (!IsWhiteSpace(s[0]) && !IsWhiteSpace(s[|s| - 1]))
    ensures Trim(s) == s
  {
  }

  // ---------------------------------------------------- invariant casing

  /** char.ToUpperInvariant on ASCII letters; every other character is unchanged. */
  function UpperChar(c: char): (u: char)
    ensures IsWhiteSpace(u) == IsWhiteSpace(c)
  {
    if 'a' <= c <= 'z' then (c as int - 32) as char else c
  }

  /** char.ToLowerInvariant on ASCII letters; every other character is unchanged. */
  function LowerChar(c: char): (l: char)
    ensures IsWhiteSpace(l) == IsWhiteSpace(c)
  {
    if 'A' <= c <= 'Z' then (c as int + 32) as char else c
  }

  /** string.ToUpperInvariant. */
  function ToUpper(s: string): (r: string)
    ensures |r| == |s|
  {
    if s == [] then [] else [UpperChar(s[0])] + ToUpper(s[1..])
  }

  /** string.ToLowerInvariant. */
  function ToLower(s: string): (r: string)
    ensures |r| == |s|
  {
    if s == [] then [] else [LowerChar(s[0])] + ToLower(s[1..])
  }

  lemma {:induction false} ToUpperConcat(a: string, b: string)
    ensures ToUpper(a + b) == ToUpper(a) + ToUpper(b)
  {
    if a != [] {
      assert (a + b)[1..] == a[1..] + b;
      ToUpperConcat(a[1..], b);
    } else {
      assert a + b == b;
    }
  }

  /** Case mapping keeps whitespace where it was. */
  lemma {:induction false} ToUpperWhiteSpace(s: string)
    ensures AllWhiteSpace(ToUpper(s)) == AllWhiteSpace(s)
  {
    if s != [] {
      ToUpperWhiteSpace(s[1..]);
    }
  }

  lemma {:induction false} TrimStartToUpper(s: string)
    ensures TrimStart(ToUpper(s)) == ToUpper(TrimStart(s))
  {
    if s != [] && IsWhiteSpace(s[0]) {
      TrimStartToUpper(s[1..]);
    }
  }

  lemma {:induction false} TrimEndToUpper(s: string)
    ensures TrimEnd(ToUpper(s)) == ToUpper(TrimEnd(s))
    decreases |s|
  {
    if s != [] {
      var n := |s| - 1;
      assert s == s[..n] + [s[n]];
      ToUpperConcat(s[..n], [s[n]]);
      assert ToUpper(s)[..n] == ToUpper(s[..n]);
      if IsWhiteSpace(s[n]) {
        TrimEndToUpper(s[..n]);
      }
    }
  }

  /** No ASCII lower-case letter occurs in `s`. */
  predicate IsUpperCase(s: string) {
    forall i :: 0 <= i < |s| ==> !('a' <= s[i] <= 'z')
  }

  /** Upper-case text is left alone by ToUpperInvariant. */
  lemma {:induction false} UpperCaseToUpper(s: string)
    requires IsUpperCase(s)
    ensures ToUpper(s) == s
  {
    if s != [] {
      assert IsUpperCase(s[1..]) by {
        forall i | 0 <= i < |s| - 1 ensures !('a' <= s[1..][i] <= 'z') {
          assert s[1..][i] == s[i + 1];
        }
      }
      UpperCaseToUpper(s[1..]);
    }
  }

  /** No ASCII upper-case letter occurs in `s`. */
  predicate IsLowerCase(s: string) {
    forall i :: 0 <= i < |s| ==> !('A' <= s[i] <= 'Z')
  }

  /** Lower-case text is left alone by ToLowerInvariant. */
  lemma {:induction false} LowerCaseToLower(s: string)
    requires IsLowerCase(s)
    ensures ToLower(s) == s
  {
    if s != [] {
      assert IsLowerCase(s[1..]) by {
        forall i | 0 <= i < |s| - 1 ensures !('A' <= s[1..][i] <= 'Z') {
          assert s[1..][i] == s[i + 1];
        }
      }
      LowerCaseToLower(s[1..]);
    }
  }

  /** Upper-casing forgets a previous lower-casing, and the other way round. */
  lemma {:induction false} ToUpperToLower(s: string)
    ensures ToUpper(ToLower(s)) == ToUpper(s)
    ensures ToLower(ToUpper(s)) == ToLower(s)
  {
    if s != [] {
      ToUpperToLower(s[1..]);
    }
  }

  /** Case mapping leaves whitespace where it was, so it commutes with Trim. */
  lemma TrimToUpper(s: string)
    ensures Trim(ToUpper(s)) == ToUpper(Trim(s))
  {
    TrimStartToUpper(s);
    TrimEndToUpper(TrimStart(s));
  }

  // ------------------------------------------------------ searching

  /** The first position of `c`, or -1; the helper Split is defined by. */
  function IndexOf(s: string, c: char): (i: int)
    ensures -1 <= i < |s|
    ensures i == -1 <==> c !in s
    ensures 0 <= i ==> s[i] == c && c !in s[..i]
  {
    if s == [] then -1
    else if s[0] == c then 0
    else
      var j := IndexOf(s[1..], c);
      assert j >= 0 ==> s[..j + 1] == [s[0]] + s[1..][..j];
      if j < 0 then -1 else j + 1
  }

  /** string.LastIndexOf(char): the last position of `c`, or -1. */
  function LastIndexOf(s: string, c: char): (i: int)
    ensures -1 <= i < |s|
    ensures i == -1 <==> c !in s
    ensures 0 <= i ==> s[i] == c && c !in s[i + 1..]
  {
    if s == [] then -1
    else if s[|s| - 1] == c then |s| - 1
    else
      var init := s[..|s| - 1];
      var j := LastIndexOf(init, c);
      assert c in s <==> c in init by {
        assert s == init + [s[|s| - 1]];
      }
      assert j >= 0 ==> s[j] == c && s[j + 1..] == init[j + 1..] + [s[|s| - 1]];
      j
  }

  // ----------------------------------------------------- Split / Join

  /** A string is what comes before index `i`, the character there, and what follows. */
  lemma CutAt(s: string, i: nat)
    requires i < |s|
    ensures s == s[..i] + [s[i]] + s[i + 1..]
  {
  }

  /** `s` is `before`, then `c`, then `after`, and `c` does not occur in `after`:
      the split at the LAST `c`. */
  predicate SplitsAtLast(s: string, c: char, before: string, after: string) {
    s == before + [c] + after && c !in after
  }

  /** `first` and `second` are the first two `c`-separated segments of `s`:
      `first + [c] + second` starts `s`, neither contains `c`, and what follows
      (if anything) starts with another `c`. */
  predicate FirstTwoSegments(s: string, c: char, first: string, second: string) {
    var n := |first| + 1 + |second|;
    n <= |s| && s[..n] == first + [c] + second && c !in first && c !in second
    && (n == |s| || s[n] == c)
  }

  /** `head` is what `s` holds before its first `c`, or the whole of `s` when it
      holds none: a `c`-free prefix followed by a `c` or by the end. */
  predicate BeforeFirst(s: string, c: char, head: string) {
    |head| <= |s| && s[..|head|] == head && c !in head && (|head| == |s| || s[|head|] == c)
  }

  /** The inverse of Split: the parts glued back together with `c`. */
  function Join(parts: seq<string>, c: char): string
    requires |parts| >= 1
  {
    if |parts| == 1 then parts[0] else parts[0] + [c] + Join(parts[1..], c)
  }

  /** string.Split(char): the maximal `c`-free segments between occurrences of `c`. */
  function Split(s: string, c: char): (parts: seq<string>)
    ensures |parts| >= 1
    ensures c in s <==> |parts| >= 2
    ensures forall k :: 0 <= k < |parts| ==> c !in parts[k]
    decreases |s|
  {
    var i := IndexOf(s, c);
    if i < 0 then [s] else [s[..i]] + Split(s[i + 1..], c)
  }

  /** Joining the parts of a Split with the separator gives back the string. */
  lemma {:induction false} JoinSplit(s: string, c: char)
    ensures Join(Split(s, c), c) == s
    decreases |s|
  {
    var i := IndexOf(s, c);
    if i >= 0 {
      var rest := Split(s[i + 1..], c);
      JoinSplit(s[i + 1..], c);
      assert ([s[..i]] + rest)[1..] == rest;
      assert s == s[..i] + [c] + s[i + 1..];
    }
  }

  lemma {:induction false} IndexOfConcat(a: string, c: char, b: string)
    requires c !in a
    ensures IndexOf(a + [c] + b, c) == |a|
  {
    if a != [] {
      assert (a + [c] + b)[1..] == a[1..] + [c] + b;
      IndexOfConcat(a[1..], c, b);
    }
  }

  lemma SplitConcat(a: string, c: char, b: string)
    requires c !in a
    ensures Split(a + [c] + b, c) == [a] + Split(b, c)
  {
    var s := a + [c] + b;
    IndexOfConcat(a, c, b);
    assert s[..|a|] == a && s[|a| + 1..] == b;
  }

  /** Split undoes Join when no part contains the separator. */
  lemma {:induction false} SplitJoin(parts: seq<string>, c: char)
    requires |parts| >= 1
    requires forall k :: 0 <= k < |parts| ==> c !in parts[k]
    ensures Split(Join(parts, c), c) == parts
  {
    if |parts| == 1 {
      assert Split(parts[0], c) == [parts[0]];
    } else {
      SplitJoin(parts[1..], c);
      SplitConcat(parts[0], c, Join(parts[1..], c));
      assert parts == [parts[0]] + parts[1..];
    }
  }

  /** Index 0 of a Split is the text before the first `c`. */
  lemma SplitHead(s: string, c: char)
    ensures Split(s, c)[0] == if c in s then s[..IndexOf(s, c)] else s
  {
  }

  /** Index 0 of a Split is the text before the first `c`, in BeforeFirst's terms. */
  lemma SplitBeforeFirst(s: string, c: char)
    ensures BeforeFirst(s, c, Split(s, c)[0])
  {
    SplitHead(s, c);
  }

  /** The text before the first `c` is unique. */
  lemma BeforeFirstUnique(s: string, c: char, h1: string, h2: string)
    requires BeforeFirst(s, c, h1) && BeforeFirst(s, c, h2)
    ensures h1 == h2
  {
    forall k | 0 <= k < |h1| ensures s[k] != c { assert s[k] == s[..|h1|][k]; }
    forall k | 0 <= k < |h2| ensures s[k] != c { assert s[k] == s[..|h2|][k]; }
    assert |h1| == |h2|;
  }

  /** `first` then `c` then a prefix `second` of the rest, cut at a `c` or at the
      end, are the first two segments. */
  lemma FirstTwoSegmentsOf(s: string, c: char, first: string, rest: string, second: string)
    requires s == first + [c] + rest && c !in first && c !in second
    requires |second| <= |rest| && rest[..|second|] == second
    requires |second| == |rest| || rest[|second|] == c
    ensures FirstTwoSegments(s, c, first, second)
  {
    var n := |first| + 1 + |second|;
    assert s[..n] == first + [c] + rest[..|second|];
    assert n < |s| ==> s[n] == rest[|second|];
  }

  /** Index 1 of a Split is index 0 of the Split of what follows the first `c`. */
  lemma SplitSecond(s: string, c: char)
    requires c in s
    ensures Split(s, c)[0] == s[..IndexOf(s, c)]
    ensures Split(s, c)[1] == Split(s[IndexOf(s, c) + 1..], c)[0]
  {
  }

  /** Index 0 and 1 of a Split are the first two segments; later ones are not looked at. */
  lemma SplitFirstTwo(s: string, c: char)
    requires c in s
    ensures FirstTwoSegments(s, c, Split(s, c)[0], Split(s, c)[1])
  {
    var i := IndexOf(s, c);
    var a, b := s[..i], s[i + 1..];
    var second := Split(b, c)[0];
    SplitSecond(s, c);
    assert s == a + [c] + b by {
      CutAt(s, i);
    }
    assert |second| <= |b| && b[..|second|] == second && (|second| == |b| || b[|second|] == c) by {
      SplitHead(b, c);
    }
    FirstTwoSegmentsOf(s, c, a, b, second);
  }

  /** The first two segments are unique. */
  lemma FirstTwoSegmentsUnique(s: string, c: char, a1: string, b1: string, a2: string, b2: string)
    requires FirstTwoSegments(s, c, a1, b1) && FirstTwoSegments(s, c, a2, b2)
    ensures a1 == a2 && b1 == b2
  {
    forall k | 0 <= k < |a1| ensures s[k] != c { assert s[k] == s[..|a1| + 1 + |b1|][k] == a1[k]; }
    forall k | 0 <= k < |a2| ensures s[k] != c { assert s[k] == s[..|a2| + 1 + |b2|][k] == a2[k]; }
    assert s[|a1|] == c && s[|a2|] == c;
    assert |a1| == |a2|;
    var m := |a1| + 1;
    forall k | m <= k < m + |b1| ensures s[k] != c { assert s[k] == s[..m + |b1|][k] == b1[k - m]; }
    forall k | m <= k < m + |b2| ensures s[k] != c { assert s[k] == s[..m + |b2|][k] == b2[k - m]; }
    assert |b1| == |b2|;
    assert a1 == s[..|a1|] && a2 == s[..|a2|];
    assert b1 == s[m..m + |b1|] && b2 == s[m..m + |b2|];
  }

  /** The split at the last `c` is unique. */
  lemma SplitsAtLastUnique(s: string, c: char, a1: string, b1: string, a2: string, b2: string)
    requires SplitsAtLast(s, c, a1, b1) && SplitsAtLast(s, c, a2, b2)
    ensures a1 == a2 && b1 == b2
  {
    forall k | |a1| < k < |s| ensures s[k] != c { assert s[k] == b1[k - |a1| - 1]; }
    forall k | |a2| < k < |s| ensures s[k] != c { assert s[k] == b2[k - |a2| - 1]; }
    assert s[|a1|] == c && s[|a2|] == c;
    assert |a1| == |a2|;
    assert a1 == s[..|a1|] && a2 == s[..|a2|];
    assert b1 == s[|a1| + 1..] && b2 == s[|a2| + 1..];
  }

  /** LastIndexOf gives the split at the last `c`. */
  lemma LastIndexOfSplits(s: string, c: char)
    requires c in s
    ensures SplitsAtLast(s, c, s[..LastIndexOf(s, c)], s[LastIndexOf(s, c) + 1..])
  {
    CutAt(s, LastIndexOf(s, c));
  }
}
