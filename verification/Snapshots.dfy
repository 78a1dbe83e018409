/** Choice of the virtual disk to mount: the second-to-last of the matching files in sorted
    order, which is meant to be the latest snapshot. */
module Snapshots {
  import opened Options

  // ---- Sorting ----

  /** Order of strings: by the first differing character, a prefix before its extensions. */
  predicate Leq(a: string, b: string) {
    a == [] || (b != [] && (a[0] < b[0] || (a[0] == b[0] && Leq(a[1..], b[1..]))))
  }

  lemma {:induction false} LeqTotal(a: string, b: string)
    ensures Leq(a, b) || Leq(b, a)
    ensures Leq(a, b) && Leq(b, a) ==> a == b
  {
    if a != [] && b != [] && a[0] == b[0] {
      LeqTotal(a[1..], b[1..]);
      assert a == [a[0]] + a[1..] && b == [b[0]] + b[1..];
    }
  }

  lemma {:induction false} LeqTransitive(a: string, b: string, c: string)
    requires Leq(a, b) && Leq(b, c)
    ensures Leq(a, c)
  {
    if a != [] && a[0] == b[0] == c[0] {
      LeqTransitive(a[1..], b[1..], c[1..]);
    }
  }

  predicate Ordered(s: seq<string>) {
    forall i, j :: 0 <= i < j < |s| ==> Leq(s[i], s[j])
  }

  function Insert(x: string, s: seq<string>): seq<string> {
    if s == [] || Leq(x, s[0]) then [x] + s else [s[0]] + Insert(x, s[1..])
  }

  /** `sorted(files)`. */
  function Sorted(files: seq<string>): seq<string> {
    if files == [] then [] else Insert(files[0], Sorted(files[1..]))
  }

  lemma {:induction false} InsertSame(x: string, s: seq<string>)
    ensures multiset(Insert(x, s)) == multiset{x} + multiset(s)
  {
    if s != [] && !Leq(x, s[0]) {
      InsertSame(x, s[1..]);
      assert s == [s[0]] + s[1..];
    }
  }

  lemma OrderedCons(x: string, s: seq<string>)
    requires Ordered(s) && forall y :: y in s ==> Leq(x, y)
    ensures Ordered([x] + s)
  {
  }

  lemma OrderedUncons(s: seq<string>)
    requires Ordered(s) && s != []
    ensures Ordered(s[1..]) && forall y :: y in s[1..] ==> Leq(s[0], y)
  {
  }

  lemma {:induction false} InsertOrdered(x: string, s: seq<string>)
    requires Ordered(s)
    ensures Ordered(Insert(x, s))
  {
    if s == [] {
    } else if Leq(x, s[0]) {
      OrderedUncons(s);
      forall y | y in s ensures Leq(x, y) {
        if y in s[1..] {
          LeqTransitive(x, s[0], y);
        }
      }
      OrderedCons(x, s);
    } else {
      OrderedUncons(s);
      InsertOrdered(x, s[1..]);
      LeqTotal(x, s[0]);
      InsertSame(x, s[1..]);
      forall y | y in Insert(x, s[1..]) ensures Leq(s[0], y) {
        assert y in multiset(Insert(x, s[1..]));
      }
      OrderedCons(s[0], Insert(x, s[1..]));
    }
  }

  /** The result is ordered and has the same files. */
  lemma {:induction false} SortedIsSort(files: seq<string>)
    ensures Ordered(Sorted(files)) && multiset(Sorted(files)) == multiset(files) && |Sorted(files)| == |files|
  {
    if files != [] {
      SortedIsSort(files[1..]);
      InsertSame(files[0], Sorted(files[1..]));
      InsertOrdered(files[0], Sorted(files[1..]));
      assert files == [files[0]] + files[1..];
      assert |multiset(Sorted(files))| == |multiset(files)|;
    }
  }

  /** `get_latest_vmdk`, given the files that match the pattern. */
  function LatestVmdk(files: seq<string>): Option<string> {
    var s := Sorted(files);
    if |s| == 0 then None
    else if |s| == 1 then Some(s[0])
    else Some(s[|s| - 2])
  }

  /** Of the files one, `top`, is not before `x`, and all the others are not after it. */
  predicate NextToTop(files: seq<string>, x: string, top: string, rest: multiset<string>) {
    multiset(files) == rest + multiset{x, top} && Leq(x, top) && forall y :: y in rest ==> Leq(y, x)
  }

  lemma SortedNextToTop(s: seq<string>)
    requires Ordered(s) && |s| >= 2
    ensures NextToTop(s, s[|s| - 2], s[|s| - 1], multiset(s[..|s| - 2]))
  {
    var n := |s|;
    LastTwo(s);
    var rest := multiset(s[..n - 2]);
    forall y | y in rest ensures Leq(y, s[n - 2]) {
      var i := IndexOf(s, n - 2, y);
    }
  }

  lemma LastTwo<T>(s: seq<T>)
    requires |s| >= 2
    ensures multiset(s) == multiset(s[..|s| - 2]) + multiset{s[|s| - 2], s[|s| - 1]}
  {
    assert s == s[..|s| - 2] + [s[|s| - 2], s[|s| - 1]];
  }

  lemma IndexOf<T>(s: seq<T>, n: nat, y: T) returns (i: nat)
    requires n <= |s| && y in multiset(s[..n])
    ensures i < n && s[i] == y
  {
    assert y in s[..n];
    i :| 0 <= i < n && s[..n][i] == y;
  }

  /** What is chosen from any files whatever: nothing from none, the only one from one, and from
      more the greatest but one. */
  lemma GreatestButOne(files: seq<string>) returns (top: string, rest: multiset<string>)
    ensures LatestVmdk(files).None? <==> files == []
    ensures |files| == 1 ==> LatestVmdk(files) == Some(files[0])
    ensures |files| >= 2 ==> NextToTop(files, LatestVmdk(files).value, top, rest)
  {
    var s := Sorted(files);
    SortedIsSort(files);
    top, rest := "", multiset{};
    if |s| == 1 {
      assert files[0] in multiset(s);
    } else if |s| >= 2 {
      SortedNextToTop(s);
      top, rest := s[|s| - 1], multiset(s[..|s| - 2]);
    }
  }

  // ---- Numbered snapshots ----

  predicate IsDigits(d: string) { forall k :: 0 <= k < |d| ==> '0' <= d[k] <= '9' }

  function Pow10(n: nat): (p: nat)
    ensures p > 0
  {
    if n == 0 then 1 else 10 * Pow10(n - 1)
  }

  function Digit(c: char): nat
    requires '0' <= c <= '9'
  {
    c as int - '0' as int
  }

  /** The number that a string of decimal digits spells. */
  function Value(d: string): nat
    requires IsDigits(d)
  {
    if d == [] then 0 else Digit(d[0]) * Pow10(|d| - 1) + Value(d[1..])
  }

  function SnapshotPath(stem: string, d: string): string { stem + "-" + d + ".vmdk" }

  function BasePath(stem: string): string { stem + ".vmdk" }

  lemma LeadingDigit(x: nat, y: nat, u: nat, v: nat, p: nat)
    requires x < y && u < p
    ensures x * p + u < y * p + v
  {
    assert y * p == x * p + (y - x) * p;
    assert (y - x) * p >= p by { assert (y - x - 1) * p >= 0; }
  }

  lemma {:induction false} ValueBound(d: string)
    requires IsDigits(d)
    ensures Value(d) < Pow10(|d|)
  {
    if d != [] {
      ValueBound(d[1..]);
      LeadingDigit(Digit(d[0]), 10, Value(d[1..]), 0, Pow10(|d| - 1));
    }
  }

  lemma {:induction false} LeqPrefix(p: string, a: string, b: string)
    ensures Leq(p + a, p + b) <==> Leq(a, b)
  {
    if p == [] {
      assert p + a == a && p + b == b;
    } else {
      assert (p + a)[1..] == p[1..] + a && (p + b)[1..] == p[1..] + b;
      LeqPrefix(p[1..], a, b);
    }
  }

  /** Strings of digits of the same width are ordered as the numbers they spell. */
  lemma {:induction false} LexIsNumeric(a: string, b: string, tail: string)
    requires IsDigits(a) && IsDigits(b) && |a| == |b|
    ensures Leq(a + tail, b + tail) <==> Value(a) <= Value(b)
  {
    if a == [] {
      assert a + tail == tail && b + tail == tail;
      LeqTotal(tail, tail);
    } else {
      var p := Pow10(|a| - 1);
      assert (a + tail)[1..] == a[1..] + tail && (b + tail)[1..] == b[1..] + tail;
      ValueBound(a[1..]);
      ValueBound(b[1..]);
      if a[0] == b[0] {
        LexIsNumeric(a[1..], b[1..], tail);
      } else if a[0] < b[0] {
        LeadingDigit(Digit(a[0]), Digit(b[0]), Value(a[1..]), Value(b[1..]), p);
      } else {
        LeadingDigit(Digit(b[0]), Digit(a[0]), Value(b[1..]), Value(a[1..]), p);
      }
    }
  }

  lemma SnapshotOrder(stem: string, a: string, b: string)
    requires IsDigits(a) && IsDigits(b) && |a| == |b|
    ensures Leq(SnapshotPath(stem, a), SnapshotPath(stem, b)) <==> Value(a) <= Value(b)
  {
    assert SnapshotPath(stem, a) == (stem + "-") + (a + ".vmdk");
    assert SnapshotPath(stem, b) == (stem + "-") + (b + ".vmdk");
    LeqPrefix(stem + "-", a + ".vmdk", b + ".vmdk");
    LexIsNumeric(a, b, ".vmdk");
  }

  /** The base file sorts after every snapshot. */
  lemma BaseIsLast(stem: string, d: string)
    ensures Leq(SnapshotPath(stem, d), BasePath(stem))
  {
    assert SnapshotPath(stem, d) == stem + ("-" + d + ".vmdk");
    assert ("-" + d + ".vmdk")[0] == '-' && '-' < '.';
    LeqPrefix(stem, "-" + d + ".vmdk", ".vmdk");
  }

  function Paths(stem: string, numbers: seq<string>): (paths: seq<string>)
    ensures |paths| == |numbers| && forall k :: 0 <= k < |numbers| ==> paths[k] == SnapshotPath(stem, numbers[k])
  {
    seq(|numbers|, k requires 0 <= k < |numbers| => SnapshotPath(stem, numbers[k]))
  }

  /** The directory holds the base file and the snapshots with these numbers, in any order. */
  predicate Directory(stem: string, numbers: seq<string>, files: seq<string>) {
    && (forall k :: 0 <= k < |numbers| ==> IsDigits(numbers[k]))
    && multiset(files) == multiset(Paths(stem, numbers)) + multiset{BasePath(stem)}
  }

  /** The directory holds the base file and snapshots numbered with `width` digits each. */
  predicate SnapshotDirectory(stem: string, numbers: seq<string>, width: nat, files: seq<string>) {
    Directory(stem, numbers, files) && forall k :: 0 <= k < |numbers| ==> |numbers[k]| == width
  }

  /** The file chosen is a snapshot than which none has a greater number. */
  predicate ChoosesGreatest(stem: string, numbers: seq<string>, files: seq<string>)
    requires Directory(stem, numbers, files)
  {
    exists k :: 0 <= k < |numbers| && LatestVmdk(files) == Some(SnapshotPath(stem, numbers[k]))
      && forall j :: 0 <= j < |numbers| ==> Value(numbers[j]) <= Value(numbers[k])
  }

  lemma LastIsTop(s: seq<string>, top: string)
    requires Ordered(s) && top in s && forall x :: x in s ==> Leq(x, top)
    ensures s[|s| - 1] == top
  {
    var t :| 0 <= t < |s| && s[t] == top;
    LeqTotal(top, s[|s| - 1]);
    assert s[|s| - 1] in s;
  }

  lemma OrderedFront(s: seq<string>)
    requires Ordered(s) && s != []
    ensures forall x :: x in s ==> Leq(x, s[|s| - 1])
  {
    forall x | x in s ensures Leq(x, s[|s| - 1]) {
      var i :| 0 <= i < |s| && s[i] == x;
      if i == |s| - 1 {
        LeqTotal(x, x);
      }
    }
  }

  lemma SameMembers(s: seq<string>, xs: seq<string>, top: string)
    requires multiset(s) == multiset(xs) + multiset{top} && forall x :: x in xs ==> Leq(x, top)
    ensures top in s && forall x :: x in s ==> Leq(x, top)
  {
    assert top in multiset(s);
    forall x | x in s ensures Leq(x, top) {
      assert x in multiset(s);
      if x == top {
        LeqTotal(x, x);
      }
    }
  }

  lemma FrontMembers(s: seq<string>, xs: seq<string>, top: string)
    requires multiset(s) == multiset(xs) + multiset{top} && s != [] && s[|s| - 1] == top
    ensures |s| == |xs| + 1 && forall x :: x in s[..|xs|] <==> x in xs
  {
    assert |multiset(s)| == |xs| + 1;
    var front := s[..|xs|];
    assert s == front + [top];
    Cancel(multiset(front), multiset(xs), top);
    forall x ensures x in front <==> x in xs {
      assert x in front <==> x in multiset(front);
    }
  }

  lemma Cancel<T>(a: multiset<T>, b: multiset<T>, t: T)
    requires a + multiset{t} == b + multiset{t}
    ensures a == b
  {
    assert a == a + multiset{t} - multiset{t};
  }

  /** Below a greatest element, the greatest of the others comes second to last. */
  lemma SecondToLast(s: seq<string>, xs: seq<string>, top: string)
    requires Ordered(s) && multiset(s) == multiset(xs) + multiset{top} && xs != []
    requires forall x :: x in xs ==> Leq(x, top)
    ensures |s| == |xs| + 1
    ensures s[|s| - 2] in xs
    ensures forall x :: x in xs ==> Leq(x, s[|s| - 2])
  {
    SameMembers(s, xs, top);
    LastIsTop(s, top);
    FrontMembers(s, xs, top);
    var front := s[..|xs|];
    OrderedFront(front);
    assert front[|xs| - 1] in front;
  }

  /** Of any directory with snapshots the choice is the one whose path comes last. */
  lemma ChoosesLastPath(stem: string, numbers: seq<string>, files: seq<string>) returns (k: nat)
    requires Directory(stem, numbers, files) && numbers != []
    ensures k < |numbers| && LatestVmdk(files) == Some(SnapshotPath(stem, numbers[k]))
    ensures forall j :: 0 <= j < |numbers| ==> Leq(SnapshotPath(stem, numbers[j]), SnapshotPath(stem, numbers[k]))
  {
    var paths, s := Paths(stem, numbers), Sorted(files);
    SortedIsSort(files);
    forall x | x in paths ensures Leq(x, BasePath(stem)) {
      var j :| 0 <= j < |paths| && paths[j] == x;
      BaseIsLast(stem, numbers[j]);
    }
    SecondToLast(s, paths, BasePath(stem));
    k :| 0 <= k < |paths| && paths[k] == s[|s| - 2];
    assert forall j :: 0 <= j < |numbers| ==> paths[j] in paths;
  }

  /** With at least one snapshot the file chosen is the snapshot with the greatest number, in
      whatever order the files were listed; with none it is the base file. */
  lemma LatestSnapshot(stem: string, numbers: seq<string>, width: nat, files: seq<string>)
    requires SnapshotDirectory(stem, numbers, width, files)
    ensures numbers == [] ==> LatestVmdk(files) == Some(BasePath(stem))
    ensures numbers != [] ==> ChoosesGreatest(stem, numbers, files)
  {
    if numbers == [] {
      SortedIsSort(files);
      assert |multiset(files)| == 1;
      assert Sorted(files)[0] in multiset(Sorted(files));
    } else {
      var k := ChoosesLastPath(stem, numbers, files);
      forall j | 0 <= j < |numbers| ensures Value(numbers[j]) <= Value(numbers[k]) {
        SnapshotOrder(stem, numbers[j], numbers[k]);
      }
    }
  }

  // ---- Why the width must be fixed ----

  function Repeat(c: char, n: nat): (r: string)
    ensures |r| == n && forall k :: 0 <= k < n ==> r[k] == c
  {
    seq(n, _ => c)
  }

  lemma {:induction false} NinesValue(n: nat)
    ensures Value(Repeat('9', n)) == Pow10(n) - 1
  {
    if n != 0 {
      assert Repeat('9', n)[1..] == Repeat('9', n - 1);
      NinesValue(n - 1);
    }
  }

  lemma {:induction false} ZerosValue(n: nat)
    ensures Value(Repeat('0', n)) == 0
  {
    if n != 0 {
      assert Repeat('0', n)[1..] == Repeat('0', n - 1);
      ZerosValue(n - 1);
    }
  }

  lemma {:induction false} Pow10Monotone(a: nat, b: nat)
    requires a <= b
    ensures Pow10(a) <= Pow10(b)
  {
    if a < b {
      Pow10Monotone(a, b - 1);
    }
  }

  /** A narrow string of nines sorts after a wider power of ten, which is the larger number. */
  lemma WidthsDisagree(stem: string, p: nat, q: nat)
    requires 0 < p < q
    ensures var a, b := Repeat('9', p), "1" + Repeat('0', q - 1);
            && IsDigits(a) && IsDigits(b) && |b| == q
            && Value(a) < Value(b) && !Leq(SnapshotPath(stem, a), SnapshotPath(stem, b))
            && Leq(SnapshotPath(stem, b), SnapshotPath(stem, a))
  {
    var a, b := Repeat('9', p), "1" + Repeat('0', q - 1);
    assert b[1..] == Repeat('0', q - 1);
    NinesValue(p);
    ZerosValue(q - 1);
    Pow10Monotone(p, q - 1);
    assert SnapshotPath(stem, a) == (stem + "-") + (a + ".vmdk");
    assert SnapshotPath(stem, b) == (stem + "-") + (b + ".vmdk");
    LeqPrefix(stem + "-", a + ".vmdk", b + ".vmdk");
    LeqPrefix(stem + "-", b + ".vmdk", a + ".vmdk");
    assert (a + ".vmdk")[0] == '9' && (b + ".vmdk")[0] == '1';
  }

  /** With a narrow string of nines and a wider power of ten in the directory, the narrow one is
      chosen although the other number is greater. */
  lemma NarrowNinesChosen(stem: string, p: nat, q: nat, files: seq<string>)
    requires 0 < p < q && Directory(stem, [Repeat('9', p), "1" + Repeat('0', q - 1)], files)
    ensures LatestVmdk(files) == Some(SnapshotPath(stem, Repeat('9', p)))
    ensures Value(Repeat('9', p)) < Value("1" + Repeat('0', q - 1))
    ensures !ChoosesGreatest(stem, [Repeat('9', p), "1" + Repeat('0', q - 1)], files)
  {
    var a, b := Repeat('9', p), "1" + Repeat('0', q - 1);
    WidthsDisagree(stem, p, q);
    var numbers := [a, b];
    var k := ChoosesLastPath(stem, numbers, files);
    assert Leq(SnapshotPath(stem, numbers[0]), SnapshotPath(stem, numbers[k]));
    assert k == 0 && numbers[1] == b;
  }

  /** The example of nine and ten snapshots, as listed. */
  lemma NineBeforeTen(stem: string)
    ensures LatestVmdk([SnapshotPath(stem, "9"), SnapshotPath(stem, "10"), BasePath(stem)]) == Some(SnapshotPath(stem, "9"))
  {
    assert Repeat('9', 1) == "9" && "1" + Repeat('0', 1) == "10";
    ListedDirectory(stem, ["9", "10"]);
    assert Paths(stem, ["9", "10"]) + [BasePath(stem)] == [SnapshotPath(stem, "9"), SnapshotPath(stem, "10"), BasePath(stem)];
    NarrowNinesChosen(stem, 1, 2, Paths(stem, ["9", "10"]) + [BasePath(stem)]);
  }

  lemma ListedDirectory(stem: string, numbers: seq<string>)
    requires forall k :: 0 <= k < |numbers| ==> IsDigits(numbers[k])
    ensures Directory(stem, numbers, Paths(stem, numbers) + [BasePath(stem)])
  {
  }

  /** Every directory of snapshots whose numbers have `p` or `q` digits, in whatever order it is
      listed, yields the greatest number. */
  ghost predicate AlwaysGreatest(stem: string, p: nat, q: nat) {
    forall numbers, files ::
      Directory(stem, numbers, files) && numbers != [] && (forall k :: 0 <= k < |numbers| ==> |numbers[k]| in {p, q}) ==>
        ChoosesGreatest(stem, numbers, files)
  }

  /** The choice is right for every directory exactly when the numbers have one width. */
  lemma FixedWidthNeeded(stem: string, p: nat, q: nat)
    requires p > 0 && q > 0
    ensures AlwaysGreatest(stem, p, q) <==> p == q
  {
    if p == q {
      forall numbers, files |
        Directory(stem, numbers, files) && numbers != [] && (forall k :: 0 <= k < |numbers| ==> |numbers[k]| in {p, q})
        ensures ChoosesGreatest(stem, numbers, files)
      {
        LatestSnapshot(stem, numbers, p, files);
      }
    } else {
      var narrow, wide := if p < q then p else q, if p < q then q else p;
      var numbers := [Repeat('9', narrow), "1" + Repeat('0', wide - 1)];
      WidthsDisagree(stem, narrow, wide);
      ListedDirectory(stem, numbers);
      NarrowNinesChosen(stem, narrow, wide, Paths(stem, numbers) + [BasePath(stem)]);
    }
  }
}
