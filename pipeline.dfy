/**
 * The body of main after the input file is opened (modules2tuple.go:210-243):
 * the lines that start with "# " are parsed as package specs, the first parse
 * error aborts the run, the packages are partitioned into those with a known
 * GitHub mirror and the rest, the former are sorted by their String, and the
 * GH_TUPLE block is written.
 *
 * The functions below are the specification; the methods at the end are the
 * loops of main, each proved against it.
 */
module Pipeline {
  import opened Wrappers
  import opened GoStrings
  import opened Names
  import opened Packages

  const SpecPrefix := "# "
  const Header := "GH_TUPLE=\t\\"

  // ---------------------------------------------------------------------------
  // Selecting and parsing the spec lines
  // ---------------------------------------------------------------------------

  /** The spec carried by one line: the text after "# ", or nothing. */
  function SpecOf(line: string): (s: seq<string>)
    ensures HasPrefix(line, SpecPrefix) ==> s == [line[|SpecPrefix|..]] && SpecPrefix + s[0] == line
    ensures !HasPrefix(line, SpecPrefix) ==> s == []
  {
    if HasPrefix(line, SpecPrefix) then
      assert line == SpecPrefix + line[|SpecPrefix|..];
      [TrimPrefix(line, SpecPrefix)]
    else []
  }

  /** The specs of all "# " lines, in input order. */
  function SpecLines(lines: seq<string>): (specs: seq<string>)
    ensures |specs| <= |lines|
  {
    if lines == [] then [] else SpecLines(lines[..|lines| - 1]) + SpecOf(lines[|lines| - 1])
  }

  lemma {:induction false} SpecLinesAppend(a: seq<string>, b: seq<string>)
    ensures SpecLines(a + b) == SpecLines(a) + SpecLines(b)
    decreases |b|
  {
    if b == [] {
      assert a + b == a;
    } else {
      var n := |b| - 1;
      assert (a + b)[..|a + b| - 1] == a + b[..n];
      assert (a + b)[|a + b| - 1] == b[n];
      SpecLinesAppend(a, b[..n]);
    }
  }

  lemma SpecLinesSnoc(lines: seq<string>, i: nat)
    requires i < |lines|
    ensures SpecLines(lines[..i + 1]) == SpecLines(lines[..i]) + SpecOf(lines[i])
  {
    assert lines[..i + 1][..i] == lines[..i];
  }

  lemma SpecLinesSingle(line: string)
    ensures SpecLines([line]) == SpecOf(line)
  {
    assert [line][..0] == [];
  }

  /** Only "# " lines matter: a line without the marker can be dropped anywhere. */
  lemma SpecLinesSkip(a: seq<string>, line: string, b: seq<string>)
    requires !HasPrefix(line, SpecPrefix)
    ensures SpecLines(a + [line] + b) == SpecLines(a + b)
  {
    var s := SpecLines(a);
    var t := SpecLines(b);
    SpecLinesAppend(a + [line], b);
    SpecLinesAppend(a, [line]);
    SpecLinesSingle(line);
    assert SpecLines(a + [line]) == s + [] == s;
    SpecLinesAppend(a, b);
  }

  /**
   * The packages of the specs in order, or the error of the first spec that
   * does not parse; parse is the package parser (ParsePackage in Collect).
   */
  function ParseAll(specs: seq<string>, parse: string -> Result<Package>): (r: Result<seq<Package>>)
    ensures r.Ok? ==> |r.value| == |specs|
  {
    if specs == [] then Ok([])
    else
      match ParseAll(specs[..|specs| - 1], parse)
      case Err(e) => Err(e)
      case Ok(ps) =>
        match parse(specs[|specs| - 1])
        case Err(e) => Err(e)
        case Ok(p) => Ok(ps + [p])
  }

  /** On success, the i-th package is the parse of the i-th spec. */
  lemma {:induction false} ParseAllOk(specs: seq<string>, parse: string -> Result<Package>)
    ensures ParseAll(specs, parse).Ok? ==>
      forall i :: 0 <= i < |specs| ==> parse(specs[i]) == Ok(ParseAll(specs, parse).value[i])
  {
    if specs != [] && ParseAll(specs, parse).Ok? {
      var n := |specs| - 1;
      var init := specs[..n];
      ParseAllOk(init, parse);
      assert forall i :: 0 <= i < n ==> init[i] == specs[i];
    }
  }

  /** ParseAll fails exactly when some spec fails, and it reports the first failure. */
  lemma {:induction false} ParseAllError(specs: seq<string>, parse: string -> Result<Package>)
    ensures ParseAll(specs, parse).Err? <==> exists i :: 0 <= i < |specs| && parse(specs[i]).Err?
    ensures ParseAll(specs, parse).Err? ==>
      exists i :: 0 <= i < |specs| && parse(specs[i]) == Err(ParseAll(specs, parse).error) &&
        (forall j :: 0 <= j < i ==> parse(specs[j]).Ok?)
  {
    if specs != [] {
      var n := |specs| - 1;
      var init := specs[..n];
      ParseAllError(init, parse);
      assert forall i :: 0 <= i < n ==> init[i] == specs[i];
      if ParseAll(init, parse).Err? {
        var i :| 0 <= i < n && parse(init[i]) == Err(ParseAll(init, parse).error) &&
          forall j :: 0 <= j < i ==> parse(init[j]).Ok?;
        assert parse(specs[i]) == Err(ParseAll(specs, parse).error);
      } else if parse(specs[n]).Err? {
        assert forall j :: 0 <= j < n ==> parse(specs[j]).Ok?;
      }
    }
  }

  /** Once a prefix of the specs fails, nothing after it is looked at. */
  lemma {:induction false} ParseAllStops(a: seq<string>, b: seq<string>, parse: string -> Result<Package>)
    requires ParseAll(a, parse).Err?
    ensures ParseAll(a + b, parse) == ParseAll(a, parse)
    decreases |b|
  {
    if b == [] {
      assert a + b == a;
    } else {
      var n := |b| - 1;
      assert (a + b)[..|a + b| - 1] == a + b[..n];
      ParseAllStops(a, b[..n], parse);
    }
  }

  // ---------------------------------------------------------------------------
  // Partitioning by Parsed
  // ---------------------------------------------------------------------------

  function Resolved(ps: seq<Package>): (r: seq<Package>)
    ensures forall i :: 0 <= i < |r| ==> Parsed(r[i])
    ensures |r| <= |ps|
  {
    if ps == [] then []
    else Resolved(ps[..|ps| - 1]) + (if Parsed(ps[|ps| - 1]) then [ps[|ps| - 1]] else [])
  }

  function Unresolved(ps: seq<Package>): (r: seq<Package>)
    ensures forall i :: 0 <= i < |r| ==> !Parsed(r[i])
    ensures |r| <= |ps|
  {
    if ps == [] then []
    else Unresolved(ps[..|ps| - 1]) + (if Parsed(ps[|ps| - 1]) then [] else [ps[|ps| - 1]])
  }

  /** Every package lands in exactly one of the two lists. */
  lemma {:induction false} Partition(ps: seq<Package>)
    ensures multiset(Resolved(ps)) + multiset(Unresolved(ps)) == multiset(ps)
  {
    if ps != [] {
      var n := |ps| - 1;
      Partition(ps[..n]);
      assert ps == ps[..n] + [ps[n]];
    }
  }

  /** Both lists keep the input order: filtering a concatenation filters the parts. */
  lemma {:induction false} FilterAppend(a: seq<Package>, b: seq<Package>)
    ensures Resolved(a + b) == Resolved(a) + Resolved(b)
    ensures Unresolved(a + b) == Unresolved(a) + Unresolved(b)
    decreases |b|
  {
    if b == [] {
      assert a + b == a;
    } else {
      var n := |b| - 1;
      assert (a + b)[..|a + b| - 1] == a + b[..n];
      assert (a + b)[|a + b| - 1] == b[n];
      FilterAppend(a, b[..n]);
    }
  }

  lemma FilterSnoc(ps: seq<Package>, p: Package)
    ensures Resolved(ps + [p]) == Resolved(ps) + (if Parsed(p) then [p] else [])
    ensures Unresolved(ps + [p]) == Unresolved(ps) + (if Parsed(p) then [] else [p])
  {
    assert (ps + [p])[..|ps|] == ps;
  }

  /** What the scanning loop of main produces: the two lists, or the first error. */
  function Collect(lines: seq<string>): Result<(seq<Package>, seq<Package>)> {
    match ParseAll(SpecLines(lines), ParsePackage)
    case Err(e) => Err(e)
    case Ok(ps) => Ok((Resolved(ps), Unresolved(ps)))
  }

  // ---------------------------------------------------------------------------
  // Sort keys and sorting
  // ---------------------------------------------------------------------------

  /** The String method of a package, for a fixed ports prefix. */
  function Stringer(prefix: string): Package -> string {
    p => Render(p, prefix)
  }

  /** The String of each package, in order. */
  function Keys(ps: seq<Package>, str: Package -> string): (ks: seq<string>)
    ensures |ks| == |ps| && forall i :: 0 <= i < |ps| ==> ks[i] == str(ps[i])
  {
    seq(|ps|, i requires 0 <= i < |ps| => str(ps[i]))
  }

  /** Taking out the k-th element takes it out of the multiset. */
  lemma MultisetRemove<T>(s: seq<T>, k: nat)
    requires k < |s|
    ensures multiset(s[..k] + s[k + 1..]) == multiset(s) - multiset{s[k]}
  {
    assert s == s[..k] + [s[k]] + s[k + 1..];
  }

  lemma MultisetTail<T>(s: seq<T>)
    requires s != []
    ensures multiset(s[1..]) == multiset(s) - multiset{s[0]}
  {
    assert s == [s[0]] + s[1..];
  }

  /** Where an element of a permutation of a went. */
  lemma PermutationStep(a: seq<Package>, b: seq<Package>) returns (k: nat)
    requires multiset(a) == multiset(b) && a != []
    ensures k < |b| && b[k] == a[0]
    ensures multiset(a[1..]) == multiset(b[..k] + b[k + 1..])
  {
    assert a[0] in multiset(b);
    k :| 0 <= k < |b| && b[k] == a[0];
    MultisetTail(a);
    MultisetRemove(b, k);
  }

  lemma KeysStep(a: seq<Package>, b: seq<Package>, k: nat, str: Package -> string)
    requires a != [] && k < |b| && b[k] == a[0]
    requires multiset(Keys(a[1..], str)) == multiset(Keys(b[..k] + b[k + 1..], str))
    ensures multiset(Keys(a, str)) == multiset(Keys(b, str))
  {
    var ka, kb := Keys(a, str), Keys(b, str);
    assert Keys(a[1..], str) == ka[1..];
    assert Keys(b[..k] + b[k + 1..], str) == kb[..k] + kb[k + 1..];
    assert ka == [ka[0]] + ka[1..];
    assert kb == kb[..k] + [kb[k]] + kb[k + 1..];
    assert multiset(kb[..k] + kb[k + 1..]) == multiset(kb[..k]) + multiset(kb[k + 1..]);
  }

  /** Reordering the packages reorders their keys the same way. */
  lemma {:induction false} KeysPermutation(a: seq<Package>, b: seq<Package>, str: Package -> string)
    requires multiset(a) == multiset(b)
    ensures multiset(Keys(a, str)) == multiset(Keys(b, str))
    decreases |a|
  {
    if a == [] {
      assert |multiset(b)| == 0;
    } else {
      var k := PermutationStep(a, b);
      KeysPermutation(a[1..], b[..k] + b[k + 1..], str);
      KeysStep(a, b, k, str);
    }
  }

  predicate Sorted(ks: seq<string>) {
    forall i, j :: 0 <= i < j < |ks| ==> LessEq(ks[i], ks[j])
  }

  /** Inserting before the first element that x does not exceed. */
  function Insert(x: string, ks: seq<string>): seq<string> {
    if ks == [] then [x]
    else if LessEq(x, ks[0]) then [x] + ks
    else [ks[0]] + Insert(x, ks[1..])
  }

  lemma {:induction false} InsertPermutation(x: string, ks: seq<string>)
    ensures multiset(Insert(x, ks)) == multiset(ks) + multiset{x}
  {
    if ks != [] && !LessEq(x, ks[0]) {
      InsertPermutation(x, ks[1..]);
      assert ks == [ks[0]] + ks[1..];
    }
  }

  /** Insertion into a sorted sequence keeps it sorted. */
  lemma {:induction false} InsertSorted(x: string, ks: seq<string>)
    requires Sorted(ks)
    ensures Sorted(Insert(x, ks))
  {
    if ks != [] {
      if LessEq(x, ks[0]) {
        InsertFront(x, ks);
      } else {
        var r := Insert(x, ks);
        SortedTail(ks);
        InsertSorted(x, ks[1..]);
        InsertPermutation(x, ks[1..]);
        LessTotal(x, ks[0]);
        assert r[1..] == Insert(x, ks[1..]);
        InsertBehind(x, ks, r);
      }
    }
  }

  lemma InsertFront(x: string, ks: seq<string>)
    requires ks != [] && LessEq(x, ks[0]) && Sorted(ks)
    ensures Sorted([x] + ks)
  {
    {
      forall j | 0 < j < |ks| + 1 ensures LessEq(x, ([x] + ks)[j]) {
        if j > 1 {
          LessEqTransitive(x, ks[0], ks[j - 1]);
        }
      }
    }
  }

  lemma InsertBehind(x: string, ks: seq<string>, r: seq<string>)
    requires ks != [] && Less(ks[0], x)
    requires |r| > 0 && r[0] == ks[0] && multiset(r[1..]) == multiset(ks[1..]) + multiset{x}
    requires Sorted(ks) && Sorted(r[1..])
    ensures Sorted(r)
  {
    {
      forall j | 0 < j < |r| ensures LessEq(r[0], r[j]) {
        assert r[j] == r[1..][j - 1];
        assert r[j] in multiset(r[1..]);
        if r[j] != x {
          assert r[j] in multiset(ks[1..]);
          var k :| 0 <= k < |ks[1..]| && ks[1..][k] == r[j];
          assert ks[k + 1] == r[j];
        }
      }
      forall i, j | 0 <= i < j < |r| ensures LessEq(r[i], r[j]) {
        if i > 0 {
          assert r[i] == r[1..][i - 1] && r[j] == r[1..][j - 1];
        }
      }
    }
  }

  /** A reference sort: insertion sort on the keys. */
  function SortStrings(ks: seq<string>): seq<string> {
    if ks == [] then [] else Insert(ks[0], SortStrings(ks[1..]))
  }

  /** The reference sort sorts, and it is a permutation. */
  lemma {:induction false} SortStringsSorts(ks: seq<string>)
    ensures Sorted(SortStrings(ks)) && multiset(SortStrings(ks)) == multiset(ks)
  {
    if ks != [] {
      SortStringsSorts(ks[1..]);
      InsertSorted(ks[0], SortStrings(ks[1..]));
      InsertPermutation(ks[0], SortStrings(ks[1..]));
      assert ks == [ks[0]] + ks[1..];
    }
  }

  /** The smallest element of a sorted sequence comes first. */
  lemma SortedFirst(ks: seq<string>, x: string)
    requires Sorted(ks) && x in multiset(ks)
    ensures LessEq(ks[0], x)
  {
    var k :| 0 <= k < |ks| && ks[k] == x;
    if k > 0 {
      assert LessEq(ks[0], ks[k]);
    }
  }

  lemma SortedTail(ks: seq<string>)
    requires Sorted(ks) && ks != []
    ensures Sorted(ks[1..])
  {
    forall i, j | 0 <= i < j < |ks| - 1 ensures LessEq(ks[1..][i], ks[1..][j]) {
      assert ks[1..][i] == ks[i + 1] && ks[1..][j] == ks[j + 1];
    }
  }

  /** Two sortings of one multiset start with the same element, its least. */
  lemma SortedHeads(a: seq<string>, b: seq<string>)
    requires Sorted(a) && Sorted(b) && multiset(a) == multiset(b) && a != []
    ensures b != [] && a[0] == b[0]
  {
    assert a[0] in multiset(b);
    assert b[0] in multiset(a);
    SortedFirst(b, a[0]);
    SortedFirst(a, b[0]);
    LessEqAntisymmetric(a[0], b[0]);
  }

  /**
   * A sorting of a multiset of strings is unique, because LessEq is a total
   * order: any sort whatsoever yields the same key sequence.
   */
  lemma {:induction false} SortedUnique(a: seq<string>, b: seq<string>)
    requires Sorted(a) && Sorted(b) && multiset(a) == multiset(b)
    ensures a == b
    decreases |a|
  {
    if a == [] {
      assert |multiset(b)| == 0;
    } else {
      SortedHeads(a, b);
      MultisetTail(a);
      MultisetTail(b);
      SortedTail(a);
      SortedTail(b);
      SortedUnique(a[1..], b[1..]);
      assert a == [a[0]] + a[1..] && b == [b[0]] + b[1..];
    }
  }

  // ---------------------------------------------------------------------------
  // The text written to standard output
  // ---------------------------------------------------------------------------

  /** One GH_TUPLE entry: all but the last carry the line continuation " \". */
  function TupleLine(keys: seq<string>, i: nat): string
    requires i < |keys|
  {
    "\t\t" + keys[i] + (if i + 1 < |keys| then " \\" else "")
  }

  function CommentLine(key: string): string {
    "#\t\t" + key
  }

  /** The GH_TUPLE entries, one per sorted key. */
  function TupleLines(keys: seq<string>): (lines: seq<string>)
    ensures |lines| == |keys| && forall i :: 0 <= i < |keys| ==> lines[i] == TupleLine(keys, i)
  {
    seq(|keys|, i requires 0 <= i < |keys| => TupleLine(keys, i))
  }

  /** The packages without a GitHub mirror, commented out. */
  function CommentLines(keys: seq<string>): (lines: seq<string>)
    ensures |lines| == |keys| && forall i :: 0 <= i < |keys| ==> lines[i] == CommentLine(keys[i])
  {
    seq(|keys|, i requires 0 <= i < |keys| => CommentLine(keys[i]))
  }

  /** The output lines: the header, the sorted entries, then the unresolved packages commented out. */
  function OutputLines(sorted: seq<string>, unresolved: seq<string>): seq<string> {
    [Header] + TupleLines(sorted) + CommentLines(unresolved)
  }

  /** Where each line of the output sits, and what it says. */
  lemma OutputLinesShape(sorted: seq<string>, unresolved: seq<string>)
    ensures |OutputLines(sorted, unresolved)| == 1 + |sorted| + |unresolved|
    ensures OutputLines(sorted, unresolved)[0] == Header
    ensures forall i :: 0 <= i < |sorted| ==>
      OutputLines(sorted, unresolved)[1 + i] == "\t\t" + sorted[i] + (if i + 1 < |sorted| then " \\" else "")
    ensures forall i :: 0 <= i < |unresolved| ==>
      OutputLines(sorted, unresolved)[1 + |sorted| + i] == "#\t\t" + unresolved[i]
  {
  }

  /** Each line followed by a newline, as fmt.Println writes it. */
  function Text(lines: seq<string>): string {
    if lines == [] then "" else Text(lines[..|lines| - 1]) + lines[|lines| - 1] + "\n"
  }

  /** Writing the n-th line extends the text written so far. */
  lemma TextStep(lines: seq<string>, n: nat)
    requires n < |lines|
    ensures Text(lines[..n + 1]) == Text(lines[..n]) + lines[n] + "\n"
  {
    assert lines[..n + 1][..n] == lines[..n];
  }

  lemma {:induction false} TextAppend(a: seq<string>, b: seq<string>)
    ensures Text(a + b) == Text(a) + Text(b)
    decreases |b|
  {
    if b == [] {
      assert a + b == a;
    } else {
      var n := |b| - 1;
      assert (a + b)[..|a + b| - 1] == a + b[..n];
      assert (a + b)[|a + b| - 1] == b[n];
      TextAppend(a, b[..n]);
    }
  }

  /** The whole conversion: the GH_TUPLE block, or the first parse error (and then no output at all). */
  function Convert(lines: seq<string>, prefix: string): Result<string> {
    match Collect(lines)
    case Err(e) => Err(e)
    case Ok((resolved, unresolved)) =>
      Ok(Text(OutputLines(SortStrings(Keys(resolved, Stringer(prefix))), Keys(unresolved, Stringer(prefix)))))
  }

  /** The scan fails exactly when some "# " line fails to parse, and it reports the first such line. */
  lemma CollectError(lines: seq<string>)
    ensures Collect(lines).Err? <==>
      exists i :: 0 <= i < |SpecLines(lines)| && ParsePackage(SpecLines(lines)[i]).Err?
    ensures Collect(lines).Err? ==>
      exists i :: 0 <= i < |SpecLines(lines)| && ParsePackage(SpecLines(lines)[i]) == Err(Collect(lines).error) &&
        (forall j :: 0 <= j < i ==> ParsePackage(SpecLines(lines)[j]).Ok?)
  {
    var specs := SpecLines(lines);
    CollectFailsWithParse(lines);
    ParseAllError(specs, ParsePackage);
  }

  /** The scan's error is the error of parsing the spec lines. */
  lemma CollectFailsWithParse(lines: seq<string>)
    ensures Collect(lines).Err? <==> ParseAll(SpecLines(lines), ParsePackage).Err?
    ensures Collect(lines).Err? ==> Collect(lines).error == ParseAll(SpecLines(lines), ParsePackage).error
  {
  }

  /** A scan error is the error of the whole conversion, and nothing is written. */
  lemma ConvertFailsWithScan(lines: seq<string>, prefix: string)
    ensures Convert(lines, prefix).Err? <==> Collect(lines).Err?
    ensures Convert(lines, prefix).Err? ==> Convert(lines, prefix).error == Collect(lines).error
  {
  }

  /** The conversion fails exactly when some "# " line fails to parse, and it reports the first such line. */
  lemma ConvertError(lines: seq<string>, prefix: string)
    ensures Convert(lines, prefix).Err? <==>
      exists i :: 0 <= i < |SpecLines(lines)| && ParsePackage(SpecLines(lines)[i]).Err?
    ensures Convert(lines, prefix).Err? ==>
      exists i :: 0 <= i < |SpecLines(lines)| && ParsePackage(SpecLines(lines)[i]) == Err(Convert(lines, prefix).error) &&
        (forall j :: 0 <= j < i ==> ParsePackage(SpecLines(lines)[j]).Ok?)
  {
    ConvertFailsWithScan(lines, prefix);
    CollectError(lines);
  }

  /**
   * The entries are the Strings of the resolved packages in any sorted order,
   * all sorts agreeing, and the comments are the Strings of the others in
   * input order.
   */
  lemma ConvertAnySort(lines: seq<string>, prefix: string, resolved: seq<Package>,
                       unresolved: seq<Package>, sorted: seq<string>)
    requires Collect(lines) == Ok((resolved, unresolved))
    requires Sorted(sorted) && multiset(sorted) == multiset(Keys(resolved, Stringer(prefix)))
    ensures Convert(lines, prefix) == Ok(Text(OutputLines(sorted, Keys(unresolved, Stringer(prefix)))))
  {
    SortStringsSorts(Keys(resolved, Stringer(prefix)));
    SortedUnique(sorted, SortStrings(Keys(resolved, Stringer(prefix))));
  }

  /** A line without the "# " marker changes nothing, wherever it is. */
  lemma ConvertSkips(a: seq<string>, line: string, b: seq<string>, prefix: string)
    requires !HasPrefix(line, SpecPrefix)
    ensures Convert(a + [line] + b, prefix) == Convert(a + b, prefix)
  {
    SpecLinesSkip(a, line, b);
  }

  // ---------------------------------------------------------------------------
  // The loops of main
  // ---------------------------------------------------------------------------

  lemma ScanSkip(lines: seq<string>, i: nat)
    requires i < |lines| && !HasPrefix(lines[i], SpecPrefix)
    ensures SpecLines(lines[..i + 1]) == SpecLines(lines[..i])
  {
    SpecLinesSnoc(lines, i);
  }

  lemma ScanParsed(lines: seq<string>, i: nat, p: Package)
    requires i < |lines| && HasPrefix(lines[i], SpecPrefix)
    requires ParseAll(SpecLines(lines[..i]), ParsePackage).Ok?
    requires ParsePackage(TrimPrefix(lines[i], SpecPrefix)) == Ok(p)
    ensures ParseAll(SpecLines(lines[..i + 1]), ParsePackage) == Ok(ParseAll(SpecLines(lines[..i]), ParsePackage).value + [p])
  {
    SpecLinesSnoc(lines, i);
    var before := SpecLines(lines[..i]);
    assert (before + [TrimPrefix(lines[i], SpecPrefix)])[..|before|] == before;
  }

  lemma ScanFailed(lines: seq<string>, i: nat, e: ParseError)
    requires i < |lines| && HasPrefix(lines[i], SpecPrefix)
    requires ParseAll(SpecLines(lines[..i]), ParsePackage).Ok?
    requires ParsePackage(TrimPrefix(lines[i], SpecPrefix)) == Err(e)
    ensures Collect(lines) == Err(e)
  {
    ScanFailedHere(lines, i, ParsePackage, e);
    ScanStops(lines, i + 1, ParsePackage);
  }

  lemma ScanFailedHere(lines: seq<string>, i: nat, parse: string -> Result<Package>, e: ParseError)
    requires i < |lines| && HasPrefix(lines[i], SpecPrefix)
    requires ParseAll(SpecLines(lines[..i]), parse).Ok?
    requires parse(TrimPrefix(lines[i], SpecPrefix)) == Err(e)
    ensures ParseAll(SpecLines(lines[..i + 1]), parse) == Err(e)
  {
    SpecLinesSnoc(lines, i);
    var before := SpecLines(lines[..i]);
    assert (before + [TrimPrefix(lines[i], SpecPrefix)])[..|before|] == before;
  }

  /** An error in the first n lines is the error of all of them. */
  lemma ScanStops(lines: seq<string>, n: nat, parse: string -> Result<Package>)
    requires n <= |lines| && ParseAll(SpecLines(lines[..n]), parse).Err?
    ensures ParseAll(SpecLines(lines), parse) == ParseAll(SpecLines(lines[..n]), parse)
  {
    var a, b := lines[..n], lines[n..];
    SplitAt(lines, n, a, b);
    SpecLinesStops(a, b, parse);
  }

  lemma SplitAt<T>(s: seq<T>, n: nat, a: seq<T>, b: seq<T>)
    requires n <= |s| && a == s[..n] && b == s[n..]
    ensures a + b == s
  {
  }

  lemma SpecLinesStops(a: seq<string>, b: seq<string>, parse: string -> Result<Package>)
    requires ParseAll(SpecLines(a), parse).Err?
    ensures ParseAll(SpecLines(a + b), parse) == ParseAll(SpecLines(a), parse)
  {
    SpecLinesAppend(a, b);
    ParseAllStops(SpecLines(a), SpecLines(b), parse);
  }

  /** The scanning loop (modules2tuple.go:215-229): parse each "# " line and append to one of the two lists. */
  method Scan(lines: seq<string>) returns (r: Result<(seq<Package>, seq<Package>)>)
    ensures r == Collect(lines)
  {
    var resolved: seq<Package> := [];
    var unresolved: seq<Package> := [];
    var i := 0;
    while i < |lines|
      invariant 0 <= i <= |lines|
      invariant ParseAll(SpecLines(lines[..i]), ParsePackage).Ok?
      invariant resolved == Resolved(ParseAll(SpecLines(lines[..i]), ParsePackage).value)
      invariant unresolved == Unresolved(ParseAll(SpecLines(lines[..i]), ParsePackage).value)
    {
      var line := lines[i];
      if HasPrefix(line, SpecPrefix) {
        var parsed := ParsePackage(TrimPrefix(line, SpecPrefix));
        if parsed.Err? {
          ScanFailed(lines, i, parsed.error);
          return Err(parsed.error);
        }
        var p := parsed.value;
        ScanParsed(lines, i, p);
        FilterSnoc(ParseAll(SpecLines(lines[..i]), ParsePackage).value, p);
        if Parsed(p) {
          resolved := resolved + [p];
        } else {
          unresolved := unresolved + [p];
        }
      } else {
        ScanSkip(lines, i);
      }
      i := i + 1;
    }
    assert lines[..i] == lines;
    return Ok((resolved, unresolved));
  }

  predicate SortedBy(s: seq<Package>, str: Package -> string) {
    forall k, l :: 0 <= k < l < |s| ==> LessEq(str(s[k]), str(s[l]))
  }

  lemma SortedByKeys(s: seq<Package>, str: Package -> string)
    requires SortedBy(s, str)
    ensures Sorted(Keys(s, str))
  {
  }

  /** PackagesByAccountAndProject.Swap (modules2tuple.go:153-155). */
  method Swap(a: array<Package>, i: nat, j: nat)
    requires i < a.Length && j < a.Length
    modifies a
    ensures a[..] == old(a[..])[i := old(a[j])][j := old(a[i])]
    ensures multiset(a[..]) == multiset(old(a[..]))
  {
    a[i], a[j] := a[j], a[i];
  }

  /**
   * sort.Sort on the resolved packages (modules2tuple.go:231), with str the
   * String method that Less compares, as an insertion sort by swaps of
   * neighbours: afterwards the array is a permutation of what it held, in
   * non-decreasing order of String.
   */
  method SortPackages(a: array<Package>, str: Package -> string)
    modifies a
    ensures SortedBy(a[..], str)
    ensures multiset(a[..]) == multiset(old(a[..]))
  {
    var i := 0;
    while i < a.Length
      invariant 0 <= i <= a.Length
      invariant SortedBy(a[..i], str)
      invariant multiset(a[..]) == multiset(old(a[..]))
    {
      var j := i;
      while j > 0 && Less(str(a[j]), str(a[j - 1]))
        invariant 0 <= j <= i
        invariant multiset(a[..]) == multiset(old(a[..]))
        invariant forall k, l :: 0 <= k < l <= i && k != j && l != j ==> LessEq(str(a[k]), str(a[l]))
        invariant forall l :: j < l <= i ==> LessEq(str(a[j]), str(a[l]))
      {
        Swap(a, j - 1, j);
        j := j - 1;
      }
      InsertedSorted(a[..], i, j, str);
      i := i + 1;
    }
    assert a[..] == a[..a.Length];
  }

  /** When the inner loop stops, the element it carried sits after everything not greater than it. */
  lemma InsertedSorted(s: seq<Package>, i: nat, j: nat, str: Package -> string)
    requires j <= i < |s|
    requires forall k, l :: 0 <= k < l <= i && k != j && l != j ==> LessEq(str(s[k]), str(s[l]))
    requires forall l :: j < l <= i ==> LessEq(str(s[j]), str(s[l]))
    requires j == 0 || !Less(str(s[j]), str(s[j - 1]))
    ensures SortedBy(s[..i + 1], str)
  {
    if j > 0 {
      LessTotal(str(s[j]), str(s[j - 1]));
      forall k | 0 <= k < j - 1 ensures LessEq(str(s[k]), str(s[j])) {
        LessEqTransitive(str(s[k]), str(s[j - 1]), str(s[j]));
      }
    }
  }

  /** The first output loop (modules2tuple.go:234-240), with str the String method of the packages. */
  method EmitEntries(sorted: seq<Package>, str: Package -> string) returns (out: string)
    ensures out == Text(TupleLines(Keys(sorted, str)))
  {
    ghost var keys := Keys(sorted, str);
    out := "";
    var i := 0;
    while i < |sorted|
      invariant 0 <= i <= |sorted|
      invariant out == Text(TupleLines(keys)[..i])
    {
      var line := "\t\t" + str(sorted[i]);
      if i < |sorted| - 1 {
        line := line + " \\";
      }
      EntryStep(keys, i, out, line);
      out := out + line + "\n";
      i := i + 1;
    }
    assert TupleLines(keys)[..i] == TupleLines(keys);
  }

  lemma EntryStep(keys: seq<string>, i: nat, out: string, line: string)
    requires i < |keys| && out == Text(TupleLines(keys)[..i])
    requires line == if i < |keys| - 1 then "\t\t" + keys[i] + " \\" else "\t\t" + keys[i]
    ensures out + line + "\n" == Text(TupleLines(keys)[..i + 1])
  {
    assert line == TupleLine(keys, i);
    TextStep(TupleLines(keys), i);
  }

  /** The second output loop (modules2tuple.go:241-243). */
  method EmitComments(unresolved: seq<Package>, str: Package -> string) returns (out: string)
    ensures out == Text(CommentLines(Keys(unresolved, str)))
  {
    ghost var keys := Keys(unresolved, str);
    out := "";
    var i := 0;
    while i < |unresolved|
      invariant 0 <= i <= |unresolved|
      invariant out == Text(CommentLines(keys)[..i])
    {
      var line := "#\t\t" + str(unresolved[i]);
      CommentStep(keys, i, out, line);
      out := out + line + "\n";
      i := i + 1;
    }
    assert CommentLines(keys)[..i] == CommentLines(keys);
  }

  lemma CommentStep(keys: seq<string>, i: nat, out: string, line: string)
    requires i < |keys| && out == Text(CommentLines(keys)[..i]) && line == "#\t\t" + keys[i]
    ensures out + line + "\n" == Text(CommentLines(keys)[..i + 1])
  {
    TextStep(CommentLines(keys), i);
  }

  /** What main writes after sorting (modules2tuple.go:233-243): the header line, then both loops. */
  method Emit(sorted: seq<Package>, unresolved: seq<Package>, str: Package -> string) returns (out: string)
    ensures out == Text(OutputLines(Keys(sorted, str), Keys(unresolved, str)))
  {
    var entries := EmitEntries(sorted, str);
    var comments := EmitComments(unresolved, str);
    out := Header + "\n" + entries + comments;
    EmitJoin(Keys(sorted, str), Keys(unresolved, str), entries, comments);
  }

  lemma EmitJoin(sorted: seq<string>, unresolved: seq<string>, entries: string, comments: string)
    requires entries == Text(TupleLines(sorted)) && comments == Text(CommentLines(unresolved))
    ensures Header + "\n" + entries + comments == Text(OutputLines(sorted, unresolved))
  {
    TextAppend([Header] + TupleLines(sorted), CommentLines(unresolved));
    TextAppend([Header], TupleLines(sorted));
    assert [Header][..0] == [];
  }

  /** main from the first line read to the last line written: the result is the conversion of the lines. */
  method Run(lines: seq<string>, prefix: string) returns (r: Result<string>)
    ensures r == Convert(lines, prefix)
  {
    var scanned := Scan(lines);
    if scanned.Err? {
      return Err(scanned.error);
    }
    var (resolved, unresolved) := scanned.value;
    var str := Stringer(prefix);
    var a := new Package[|resolved|](i requires 0 <= i < |resolved| => resolved[i]);
    assert a[..] == resolved;
    SortPackages(a, str);
    var out := Emit(a[..], unresolved, str);
    SortedByKeys(a[..], str);
    KeysPermutation(a[..], resolved, str);
    ConvertAnySort(lines, prefix, resolved, unresolved, Keys(a[..], str));
    return Ok(out);
  }
}
