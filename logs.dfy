/**
 * What the two log checkers share: a build log as its file name and its
 * lines, the verdict for one log, the module name taken from the file name,
 * the order of Python strings, and `results.sort(key=lambda x: x[0])`, a
 * stable sort on the module name.
 */
module Logs {
  import opened Text

  /** A build log: its base name and its lines, in file order. */
  datatype LogFile = LogFile(basename: string, lines: seq<string>)

  datatype Status = Valid | Failed

  /** One entry of the results: module name, status and the short failure labels. */
  datatype Classification = Classification(name: string, status: Status, labels: seq<string>)

  /** The text `report_results` shows for a status. */
  function StatusText(s: Status): string {
    match s
    case Valid => "valid"
    case Failed => "failed"
  }

  /** The line `report_results` prints for an entry, colours left out. */
  function StatusLine(c: Classification): (line: string)
    ensures line != ""
  {
    c.name + ": " + StatusText(c.status)
  }

  /** The lines `report_results` prints for the labels of a failed entry. */
  function InfoLines(labels: seq<string>): (lines: seq<string>)
    ensures |lines| == |labels|
    ensures "" !in lines
  {
    seq(|labels|, i requires 0 <= i < |labels| => " Info: " + labels[i])
  }

  /** The info lines of one more label follow those of the labels before it. */
  lemma InfoLinesStep(labels: seq<string>, k: nat)
    requires k < |labels|
    ensures InfoLines(labels[..k + 1]) == InfoLines(labels[..k]) + [" Info: " + labels[k]]
  {
  }

  /** `basename.rsplit('-', 1)[0]`: everything before the last `-`, or the whole name. */
  function ModuleNameOf(basename: string): (m: string)
    ensures m <= basename
    ensures '-' !in basename ==> m == basename
    ensures '-' in basename ==>
      |m| < |basename| && basename[|m|] == '-' && '-' !in basename[|m| + 1..]
    decreases |basename|
  {
    if |basename| == 0 then basename
    else if basename[|basename| - 1] == '-' then basename[..|basename| - 1]
    else
      var init := basename[..|basename| - 1];
      var m := ModuleNameOf(init);
      InitLast(basename);
      if '-' in init then
        SuffixInitLast(basename, |m| + 1);
        m
      else basename
  }

  /** A name is recovered from a log named after it with a dash-free suffix. */
  lemma ModuleNameOfSuffixed(name: string, suffix: string)
    requires '-' !in suffix
    ensures ModuleNameOf(name + "-" + suffix) == name
  {
    var b := name + "-" + suffix;
    var m := ModuleNameOf(b);
    assert b[|name|] == '-' && b[|name| + 1..] == suffix;
    assert m == b[..|m|] == name;
  }

  /** Python's `a < b` on strings: code point by code point, a proper prefix first. */
  predicate StrLess(a: string, b: string)
    decreases |a|
  {
    if |a| == 0 then |b| > 0
    else if |b| == 0 then false
    else if a[0] != b[0] then a[0] < b[0]
    else StrLess(a[1..], b[1..])
  }

  predicate StrLe(a: string, b: string) {
    !StrLess(b, a)
  }

  lemma {:induction false} StrLessIrreflexive(a: string)
    ensures !StrLess(a, a)
    decreases |a|
  {
    if |a| > 0 {
      StrLessIrreflexive(a[1..]);
    }
  }

  lemma {:induction false} StrLessTotal(a: string, b: string)
    ensures StrLess(a, b) || a == b || StrLess(b, a)
    decreases |a|
  {
    if |a| > 0 && |b| > 0 && a[0] == b[0] {
      StrLessTotal(a[1..], b[1..]);
      if a[1..] == b[1..] {
        assert a == [a[0]] + a[1..] && b == [b[0]] + b[1..];
      }
    }
  }

  lemma {:induction false} StrLessAsymmetric(a: string, b: string)
    requires StrLess(a, b)
    ensures !StrLess(b, a)
    decreases |a|
  {
    if |a| > 0 && |b| > 0 && a[0] == b[0] {
      StrLessAsymmetric(a[1..], b[1..]);
    }
  }

  lemma {:induction false} StrLeTransitive(a: string, b: string, c: string)
    requires StrLe(a, b) && StrLe(b, c)
    ensures StrLe(a, c)
    decreases |a|
  {
    if |a| > 0 && |b| > 0 && |c| > 0 && a[0] == b[0] && b[0] == c[0] {
      StrLeTransitive(a[1..], b[1..], c[1..]);
    }
  }

  /** Entries in ascending order of module name. */
  predicate SortedByModule(s: seq<Classification>) {
    forall i, j | 0 <= i < j < |s| :: StrLe(s[i].name, s[j].name)
  }

  /** The entries whose module is `m`, in their order. */
  function WithModule(s: seq<Classification>, m: string): seq<Classification>
    decreases |s|
  {
    if |s| == 0 then []
    else (if s[0].name == m then [s[0]] else []) + WithModule(s[1..], m)
  }

  /** Puts `x` before the first entry whose name is not below its own. */
  function Insert(x: Classification, s: seq<Classification>): (r: seq<Classification>)
    ensures multiset(r) == multiset(s) + multiset{x}
    ensures |r| == |s| + 1
    decreases |s|
  {
    if |s| == 0 || StrLe(x.name, s[0].name) then [x] + s
    else
      assert s == [s[0]] + s[1..];
      [s[0]] + Insert(x, s[1..])
  }

  /** `results.sort(key=lambda x: x[0])`: a stable sort on the module name. */
  function SortByModule(s: seq<Classification>): (r: seq<Classification>)
    ensures multiset(r) == multiset(s)
    ensures |r| == |s|
    decreases |s|
  {
    if |s| == 0 then []
    else
      assert s == [s[0]] + s[1..];
      Insert(s[0], SortByModule(s[1..]))
  }

  lemma {:induction false} InsertSorted(x: Classification, s: seq<Classification>)
    requires SortedByModule(s)
    ensures SortedByModule(Insert(x, s))
    decreases |s|
  {
    if |s| == 0 || StrLe(x.name, s[0].name) {
      var r := [x] + s;
      forall i, j | 0 <= i < j < |r|
        ensures StrLe(r[i].name, r[j].name)
      {
        if i == 0 && j > 1 {
          StrLeTransitive(x.name, s[0].name, s[j - 1].name);
        }
      }
    } else {
      var t := s[1..];
      InsertSorted(x, t);
      var r := [s[0]] + Insert(x, t);
      StrLessAsymmetric(s[0].name, x.name);
      forall i, j | 0 <= i < j < |r|
        ensures StrLe(r[i].name, r[j].name)
      {
        if i == 0 {
          var y := r[j];
          assert y in multiset(Insert(x, t));
          assert y == x || y in multiset(t);
          if y != x {
            var k :| 0 <= k < |t| && t[k] == y;
            assert s[k + 1] == y;
          }
        }
      }
    }
  }

  /** The sorted entries are in ascending order of module name. */
  lemma {:induction false} SortByModuleSorted(s: seq<Classification>)
    ensures SortedByModule(SortByModule(s))
    decreases |s|
  {
    if |s| > 0 {
      SortByModuleSorted(s[1..]);
      InsertSorted(s[0], SortByModule(s[1..]));
    }
  }

  /** The entries of module `m` in a list with one more entry in front. */
  lemma WithModuleCons(y: Classification, t: seq<Classification>, m: string)
    ensures WithModule([y] + t, m) == (if y.name == m then [y] else []) + WithModule(t, m)
  {
    assert ([y] + t)[1..] == t;
  }

  lemma {:induction false} InsertWithModule(x: Classification, s: seq<Classification>, m: string)
    ensures WithModule(Insert(x, s), m) == (if x.name == m then [x] else []) + WithModule(s, m)
    decreases |s|
  {
    if |s| == 0 || StrLe(x.name, s[0].name) {
      WithModuleCons(x, s, m);
    } else {
      var y, t := s[0], s[1..];
      assert Insert(x, s) == [y] + Insert(x, t);
      InsertWithModule(x, t, m);
      WithModuleCons(y, Insert(x, t), m);
      assert s == [y] + t;
      WithModuleCons(y, t, m);
      if x.name == m {
        StrLessIrreflexive(m);
      }
    }
  }

  /** Stability: the entries of any one module keep their input order. */
  lemma {:induction false} SortByModuleStable(s: seq<Classification>, m: string)
    ensures WithModule(SortByModule(s), m) == WithModule(s, m)
    decreases |s|
  {
    if |s| > 0 {
      SortByModuleStable(s[1..], m);
      InsertWithModule(s[0], SortByModule(s[1..]), m);
    }
  }

  /** Sorting an already sorted list changes nothing. */
  lemma {:induction false} SortByModuleSortedInput(s: seq<Classification>)
    requires SortedByModule(s)
    ensures SortByModule(s) == s
    decreases |s|
  {
    if |s| > 0 {
      SortByModuleSortedInput(s[1..]);
      assert SortedByModule(s[1..]) by {
        forall i, j | 0 <= i < j < |s| - 1
          ensures StrLe(s[1..][i].name, s[1..][j].name)
        {
          assert s[1..][i] == s[i + 1] && s[1..][j] == s[j + 1];
        }
      }
      if |s| > 1 {
        assert StrLe(s[0].name, s[1].name);
      }
    }
  }

  /** `xs` with `x` added at the end unless it is already there. */
  function AddOnce(xs: seq<string>, x: string): (r: seq<string>)
    ensures x in r
    ensures forall y :: y in r <==> y in xs || y == x
    ensures x in xs ==> r == xs
    ensures x !in xs ==> r == xs + [x]
  {
    if x in xs then xs else xs + [x]
  }

  /** The distinct elements of `s` in the order of their first occurrence. */
  function Dedup(s: seq<string>): seq<string>
    decreases |s|
  {
    if |s| == 0 then [] else AddOnce(Dedup(s[..|s| - 1]), s[|s| - 1])
  }

  /** `Dedup` keeps exactly the elements of `s`. */
  lemma {:induction false} DedupMembers(s: seq<string>, x: string)
    ensures x in Dedup(s) <==> x in s
    decreases |s|
  {
    if |s| > 0 {
      DedupMembers(s[..|s| - 1], x);
      InitLast(s);
    }
  }

  /** Nothing is left after `Dedup` only when there was nothing. */
  lemma DedupEmpty(s: seq<string>)
    ensures Dedup(s) == [] <==> s == []
  {
  }

  /** The position of the first occurrence of `x` in `s`. */
  function FirstIndex(s: seq<string>, x: string): (i: nat)
    requires x in s
    ensures i < |s| && s[i] == x && x !in s[..i]
    decreases |s|
  {
    if s[0] == x then 0
    else
      assert s == [s[0]] + s[1..];
      assert s[..FirstIndex(s[1..], x) + 1] == [s[0]] + s[1..][..FirstIndex(s[1..], x)];
      FirstIndex(s[1..], x) + 1
  }

  /** The first index of an element of a prefix is found in the prefix. */
  lemma FirstIndexPrefix(s: seq<string>, n: nat, x: string)
    requires n <= |s| && x in s[..n]
    ensures FirstIndex(s, x) == FirstIndex(s[..n], x)
  {
  }

  /** `Dedup` keeps each element once. */
  lemma {:induction false} DedupDistinct(s: seq<string>)
    ensures Distinct(Dedup(s))
    decreases |s|
  {
    if |s| > 0 {
      DedupDistinct(s[..|s| - 1]);
    }
  }

  /** `Dedup` lists the elements in the order in which they first occur. */
  lemma {:induction false} DedupOrder(s: seq<string>)
    ensures forall x | x in Dedup(s) :: x in s
    ensures forall i, j | 0 <= i < j < |Dedup(s)| ::
      FirstIndex(s, Dedup(s)[i]) < FirstIndex(s, Dedup(s)[j])
    decreases |s|
  {
    forall x | x in Dedup(s)
      ensures x in s
    {
      DedupMembers(s, x);
    }
    if |s| > 0 {
      var init := s[..|s| - 1];
      var last := s[|s| - 1];
      var d := Dedup(init);
      var e := Dedup(s);
      DedupOrder(init);
      assert e == if last in d then d else d + [last];
      if last !in d {
        DedupMembers(init, last);
        InitLast(s);
        assert FirstIndex(s, last) == |s| - 1;
      }
      forall i, j | 0 <= i < j < |e|
        ensures FirstIndex(s, e[i]) < FirstIndex(s, e[j])
      {
        assert e[i] == d[i];
        FirstIndexInit(s, d[i]);
        if j < |d| {
          assert e[j] == d[j];
          FirstIndexInit(s, d[j]);
        }
      }
    }
  }

  /** An element of all but the last finds its first index there. */
  lemma FirstIndexInit(s: seq<string>, x: string)
    requires |s| > 0 && x in s[..|s| - 1]
    ensures FirstIndex(s, x) == FirstIndex(s[..|s| - 1], x) < |s| - 1
  {
    var init := s[..|s| - 1];
    FirstIndexPrefix(s, |init|, x);
    assert FirstIndex(init, x) < |init|;
  }

  /** An element of a prefix comes first before one that is only found after it. */
  lemma FirstIndexBefore(s: seq<string>, n: nat, x: string, y: string)
    requires n <= |s| && x in s[..n] && y !in s[..n] && y in s
    ensures FirstIndex(s, x) < FirstIndex(s, y)
  {
    FirstIndexPrefix(s, n, x);
    forall i | 0 <= i < n
      ensures s[i] != y
    {
      assert s[..n][i] == s[i];
    }
  }

  /**
   * `Dedup` keeps each element once, keeps every element, and lists them in
   * the order in which they first occur.
   */
  lemma DedupProperties(s: seq<string>)
    ensures Distinct(Dedup(s))
    ensures forall x :: x in Dedup(s) <==> x in s
    ensures forall i, j | 0 <= i < j < |Dedup(s)| ::
      FirstIndex(s, Dedup(s)[i]) < FirstIndex(s, Dedup(s)[j])
  {
    DedupDistinct(s);
    forall x
      ensures x in Dedup(s) <==> x in s
    {
      DedupMembers(s, x);
    }
    DedupOrder(s);
  }
}
