/**
 * The parts of Go's `strings` package and of RE2's character classes that the
 * converter relies on, over strings of Unicode code points.
 */
module GoStrings {
  import opened Wrappers

  // ---------------------------------------------------------------------------
  // Character classes. RE2's `\d` and `\w` are ASCII classes.
  // ---------------------------------------------------------------------------

  predicate IsDigit(c: char) { '0' <= c <= '9' }
  predicate IsUpper(c: char) { 'A' <= c <= 'Z' }
  predicate IsLower(c: char) { 'a' <= c <= 'z' }
  predicate IsAlnum(c: char) { IsDigit(c) || IsUpper(c) || IsLower(c) }
  /** `\w` */
  predicate IsWord(c: char) { IsAlnum(c) || c == '_' }
  /** `[^\w]` */
  predicate IsNonWord(c: char) { !IsWord(c) }
  /** `[0-9a-f]` */
  predicate IsLowerHex(c: char) { IsDigit(c) || 'a' <= c <= 'f' }

  /** Go's `unicode.IsSpace`: the Unicode White_Space property. */
  predicate IsSpace(c: char) {
    || c == '\t' || c == '\n' || c == '\U{000B}' || c == '\U{000C}' || c == '\r' || c == ' '
    || c == '\U{0085}' || c == '\U{00A0}' || c == '\U{1680}'
    || ('\U{2000}' <= c <= '\U{200A}')
    || c == '\U{2028}' || c == '\U{2029}' || c == '\U{202F}' || c == '\U{205F}' || c == '\U{3000}'
  }
  predicate IsNotSpace(c: char) { !IsSpace(c) }

  predicate All(p: char -> bool, s: string) {
    forall i :: 0 <= i < |s| ==> p(s[i])
  }

  /** Length of the longest prefix of `s` whose characters all satisfy `p`. */
  function LeadingRun(p: char -> bool, s: string): (n: nat)
    ensures n <= |s|
    ensures forall i :: 0 <= i < n ==> p(s[i])
    ensures n < |s| ==> !p(s[n])
  {
    if s == [] || !p(s[0]) then 0 else 1 + LeadingRun(p, s[1..])
  }

  /** The maximal run of `p` in `a + b` is exactly `a` when `b` does not continue it. */
  lemma {:induction false} LeadingRunConcat(p: char -> bool, a: string, b: string)
    requires All(p, a)
    requires b == [] || !p(b[0])
    ensures LeadingRun(p, a + b) == |a|
  {
    if a != [] {
      assert (a + b)[1..] == a[1..] + b;
      LeadingRunConcat(p, a[1..], b);
    }
  }

  // ---------------------------------------------------------------------------
  // strings.HasPrefix, strings.TrimPrefix, strings.Index, strings.Contains
  // ---------------------------------------------------------------------------

  predicate HasPrefix(s: string, prefix: string) {
    |prefix| <= |s| && s[..|prefix|] == prefix
  }

  predicate HasSuffix(s: string, suffix: string) {
    |suffix| <= |s| && s[|s| - |suffix|..] == suffix
  }

  lemma HasSuffixConcat(s: string, suffix: string)
    ensures HasSuffix(s + suffix, suffix)
  {
    assert (s + suffix)[|s|..] == suffix;
  }

  lemma HasPrefixConcat(s: string, t: string, prefix: string)
    requires HasPrefix(s, prefix)
    ensures HasPrefix(s + t, prefix)
  {
    assert (s + t)[..|prefix|] == s[..|prefix|];
  }

  function TrimPrefix(s: string, prefix: string): (r: string)
    ensures HasPrefix(s, prefix) ==> prefix + r == s
    ensures !HasPrefix(s, prefix) ==> r == s
  {
    if HasPrefix(s, prefix) then s[|prefix|..] else s
  }

  /** `sep` occurs in `s` starting at position `i`. */
  predicate OccursAt(s: string, sep: string, i: nat) {
    i + |sep| <= |s| && s[i..i + |sep|] == sep
  }

  /** First occurrence of `sep` in `s` at or after position `i`. */
  function IndexFrom(s: string, sep: string, i: nat): (r: Option<nat>)
    requires |sep| > 0
    decreases |s| - i
    ensures r.Some? ==> i <= r.value && OccursAt(s, sep, r.value)
    ensures r.Some? ==> forall j :: i <= j < r.value ==> !OccursAt(s, sep, j)
    ensures r.None? ==> forall j :: i <= j ==> !OccursAt(s, sep, j)
  {
    if i + |sep| > |s| then None
    else if s[i..i + |sep|] == sep then Some(i)
    else IndexFrom(s, sep, i + 1)
  }

  /** strings.Index: the first occurrence, None standing for Go's -1. */
  function Index(s: string, sep: string): (r: Option<nat>)
    requires |sep| > 0
    ensures r.Some? ==> OccursAt(s, sep, r.value) && forall j: nat :: j < r.value ==> !OccursAt(s, sep, j)
    ensures r.None? ==> forall j: nat :: !OccursAt(s, sep, j)
  {
    IndexFrom(s, sep, 0)
  }

  predicate Contains(s: string, sep: string)
    requires |sep| > 0
  {
    Index(s, sep).Some?
  }

  /** An occurrence fixes every character it covers. */
  lemma OccursAtChars(s: string, sep: string, i: nat)
    ensures OccursAt(s, sep, i) ==> forall k :: 0 <= k < |sep| ==> s[i + k] == sep[k]
  {
    if OccursAt(s, sep, i) {
      forall k | 0 <= k < |sep| ensures s[i + k] == sep[k] {
        assert s[i..i + |sep|][k] == s[i + k];
      }
    }
  }

  /** A string none of whose characters is `c` does not contain [c]. */
  lemma NotContainsChar(s: string, c: char)
    requires forall i :: 0 <= i < |s| ==> s[i] != c
    ensures !Contains(s, [c])
  {
    forall j: nat | j < |s| ensures !OccursAt(s, [c], j) {
      assert s[j..j + 1][0] == s[j];
    }
  }

  /** An occurrence inside a prefix of `s` is an occurrence in `s`. */
  lemma OccursInPrefix(s: string, sep: string, i: nat, j: nat)
    requires i <= |s| && OccursAt(s[..i], sep, j)
    ensures OccursAt(s, sep, j)
  {
    assert s[..i][j..j + |sep|] == s[j..j + |sep|];
  }

  // ---------------------------------------------------------------------------
  // strings.Split and its inverse, strings.Join
  // ---------------------------------------------------------------------------

  function Join(parts: seq<string>, sep: string): string
    decreases |parts|
  {
    if |parts| == 0 then ""
    else if |parts| == 1 then parts[0]
    else parts[0] + sep + Join(parts[1..], sep)
  }

  /**
   * strings.Split for a non-empty separator: the pieces between the
   * non-overlapping occurrences of `sep`, found from left to right.
   */
  function Split(s: string, sep: string): (parts: seq<string>)
    requires |sep| > 0
    decreases |s|
    ensures |parts| >= 1
    ensures Join(parts, sep) == s
    ensures forall k :: 0 <= k < |parts| ==> !Contains(parts[k], sep)
    ensures !Contains(s, sep) ==> parts == [s]
    ensures Contains(s, sep) ==> |parts| >= 2 && forall k :: 0 <= k < |parts| ==> |parts[k]| < |s|
  {
    match Index(s, sep)
    case None => [s]
    case Some(i) =>
      var head := s[..i];
      var rest := Split(s[i + |sep|..], sep);
      assert !Contains(head, sep) by {
        if Contains(head, sep) {
          OccursInPrefix(s, sep, i, Index(head, sep).value);
        }
      }
      assert s == head + sep + s[i + |sep|..];
      [head] + rest
  }

  /** With a one-character separator, a piece free of it is split off at the first separator. */
  lemma SplitCons(a: string, b: string, sep: string)
    requires |sep| == 1 && !Contains(a, sep)
    ensures Split(a + sep + b, sep) == [a] + Split(b, sep)
  {
    var s := a + sep + b;
    assert OccursAt(s, sep, |a|) by { assert s[|a|..|a| + 1] == sep; }
    var i := Index(s, sep).value;
    if i < |a| {
      assert s[i..i + 1] == a[i..i + 1];
      assert OccursAt(a, sep, i);
    }
    assert i == |a|;
    assert s[..i] == a;
    assert s[i + 1..] == b;
  }

  /** With a one-character separator, Split undoes Join of pieces free of it. */
  lemma {:induction false} SplitJoin(parts: seq<string>, sep: string)
    requires |sep| == 1 && |parts| >= 1
    requires forall k :: 0 <= k < |parts| ==> !Contains(parts[k], sep)
    ensures Split(Join(parts, sep), sep) == parts
    decreases |parts|
  {
    if |parts| > 1 {
      SplitCons(parts[0], Join(parts[1..], sep), sep);
      SplitJoin(parts[1..], sep);
      assert parts == [parts[0]] + parts[1..];
    }
  }

  // ---------------------------------------------------------------------------
  // strings.Fields
  // ---------------------------------------------------------------------------

  /** strings.Fields: the maximal runs of non-space characters, in order. */
  function Fields(s: string): (fields: seq<string>)
    decreases |s|
    ensures forall k :: 0 <= k < |fields| ==> |fields[k]| > 0 && All(IsNotSpace, fields[k])
  {
    var t := s[LeadingRun(IsSpace, s)..];
    if t == [] then []
    else
      var n := LeadingRun(IsNotSpace, t);
      FieldHead(s, LeadingRun(IsSpace, s), n);
      [t[..n]] + Fields(t[n..])
  }

  /** After the leading white space, a non-empty field starts. */
  lemma FieldHead(s: string, m: nat, n: nat)
    requires m == LeadingRun(IsSpace, s) && m < |s| && n == LeadingRun(IsNotSpace, s[m..])
    ensures 0 < n && All(IsNotSpace, s[m..][..n])
  {
    assert s[m..][0] == s[m];
  }

  lemma FieldsOfSpaces(w: string)
    requires All(IsSpace, w)
    ensures Fields(w) == []
  {
    LeadingRunConcat(IsSpace, w, []);
    assert w + [] == w;
  }

  /** Leading white space is skipped and a field ends at the next white space. */
  lemma FieldsCons(w: string, f: string, rest: string)
    requires All(IsSpace, w) && |f| > 0 && All(IsNotSpace, f)
    requires rest == [] || IsSpace(rest[0])
    ensures Fields(w + f + rest) == [f] + Fields(rest)
  {
    var s := w + f + rest;
    assert s == w + (f + rest);
    LeadingRunConcat(IsSpace, w, f + rest);
    assert s[|w|..] == f + rest;
    LeadingRunConcat(IsNotSpace, f, rest);
    assert (f + rest)[..|f|] == f;
    assert (f + rest)[|f|..] == rest;
  }

  /** A line holding exactly two space-separated tokens has exactly those two fields. */
  lemma FieldsOfTwo(w1: string, a: string, w2: string, b: string, w3: string)
    requires All(IsSpace, w1) && All(IsSpace, w2) && All(IsSpace, w3) && |w2| > 0
    requires |a| > 0 && All(IsNotSpace, a) && |b| > 0 && All(IsNotSpace, b)
    ensures Fields(w1 + a + w2 + b + w3) == [a, b]
  {
    assert w1 + a + w2 + b + w3 == w1 + a + (w2 + b + w3);
    FieldsCons(w1, a, w2 + b + w3);
    FieldsCons(w2, b, w3);
    if w3 != [] {
      assert IsSpace(w3[0]);
    }
    FieldsOfSpaces(w3);
  }

  // ---------------------------------------------------------------------------
  // strings.ToLower on ASCII text
  // ---------------------------------------------------------------------------

  function LowerChar(c: char): (d: char)
    ensures IsUpper(c) ==> IsLower(d) && d as int == c as int + 32
    ensures !IsUpper(c) ==> d == c
  {
    if IsUpper(c) then (c as int + 32) as char else c
  }

  function ToLower(s: string): (r: string)
    ensures |r| == |s|
    ensures forall i :: 0 <= i < |s| ==> r[i] == LowerChar(s[i])
  {
    if s == [] then [] else [LowerChar(s[0])] + ToLower(s[1..])
  }

  // ---------------------------------------------------------------------------
  // Go's string comparison `<`
  // ---------------------------------------------------------------------------

  /**
   * Go compares strings by their UTF-8 bytes; UTF-8 preserves the order of
   * code points, so this is the lexicographic order on code points.
   */
  predicate Less(a: string, b: string)
    decreases |a|
  {
    if |b| == 0 then false
    else if |a| == 0 then true
    else if a[0] != b[0] then a[0] < b[0]
    else Less(a[1..], b[1..])
  }

  predicate LessEq(a: string, b: string) {
    a == b || Less(a, b)
  }

  /** Less is the textbook lexicographic order: a proper prefix, or a smaller character after a common prefix. */
  lemma {:induction false} LessMeans(a: string, b: string)
    ensures Less(a, b) <==>
      (|a| < |b| && a == b[..|a|]) ||
      (exists k :: 0 <= k < |a| && k < |b| && a[..k] == b[..k] && a[k] < b[k])
  {
    if |a| == 0 || |b| == 0 {
    } else if a[0] != b[0] {
      if a[0] < b[0] {
        assert a[..0] == b[..0];
      }
    } else {
      LessMeans(a[1..], b[1..]);
      if exists k :: 0 <= k < |a[1..]| && k < |b[1..]| && a[1..][..k] == b[1..][..k] && a[1..][k] < b[1..][k] {
        var k :| 0 <= k < |a[1..]| && k < |b[1..]| && a[1..][..k] == b[1..][..k] && a[1..][k] < b[1..][k];
        assert a[..k + 1] == [a[0]] + a[1..][..k];
        assert b[..k + 1] == [b[0]] + b[1..][..k];
        assert a[k + 1] < b[k + 1];
      }
      if exists k :: 0 <= k < |a| && k < |b| && a[..k] == b[..k] && a[k] < b[k] {
        var k :| 0 <= k < |a| && k < |b| && a[..k] == b[..k] && a[k] < b[k];
        assert k > 0;
        assert a[1..][..k - 1] == a[..k][1..] == b[..k][1..] == b[1..][..k - 1];
        assert a[1..][k - 1] < b[1..][k - 1];
      }
      if |a| < |b| && a == b[..|a|] {
        assert a[1..] == b[1..][..|a[1..]|];
      }
      if |a[1..]| < |b[1..]| && a[1..] == b[1..][..|a[1..]|] {
        assert a == [a[0]] + a[1..] == b[..|a|];
      }
    }
  }

  /** After a common prefix, the first differing character decides. */
  lemma {:induction false} LessAt(a: string, b: string, k: nat)
    requires k < |a| && k < |b| && a[..k] == b[..k] && a[k] != b[k]
    ensures Less(a, b) <==> a[k] < b[k]
  {
    if k > 0 {
      assert a[0] == a[..k][0] == b[..k][0] == b[0];
      assert a[1..][..k - 1] == a[..k][1..] == b[..k][1..] == b[1..][..k - 1];
      LessAt(a[1..], b[1..], k - 1);
    }
  }

  lemma {:induction false} LessIrreflexive(a: string)
    ensures !Less(a, a)
  {
    if |a| > 0 {
      LessIrreflexive(a[1..]);
    }
  }

  lemma {:induction false} LessAsymmetric(a: string, b: string)
    ensures Less(a, b) ==> !Less(b, a)
  {
    if |a| > 0 && |b| > 0 && a[0] == b[0] {
      LessAsymmetric(a[1..], b[1..]);
    }
  }

  lemma {:induction false} LessTransitive(a: string, b: string, c: string)
    ensures Less(a, b) && Less(b, c) ==> Less(a, c)
  {
    if |a| > 0 && |b| > 0 && |c| > 0 && a[0] == b[0] == c[0] {
      LessTransitive(a[1..], b[1..], c[1..]);
    }
  }

  lemma {:induction false} LessTotal(a: string, b: string)
    ensures a == b || Less(a, b) || Less(b, a)
  {
    if |a| > 0 && |b| > 0 && a[0] == b[0] {
      LessTotal(a[1..], b[1..]);
      if a[1..] == b[1..] {
        assert a == [a[0]] + a[1..] && b == [b[0]] + b[1..];
      }
    }
  }

  lemma LessEqTransitive(a: string, b: string, c: string)
    requires LessEq(a, b) && LessEq(b, c)
    ensures LessEq(a, c)
  {
    LessTransitive(a, b, c);
  }

  lemma LessEqAntisymmetric(a: string, b: string)
    requires LessEq(a, b) && LessEq(b, a)
    ensures a == b
  {
    LessAsymmetric(a, b);
  }
}
