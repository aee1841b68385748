/**
 * The handful of Python `str` operations the scripts rely on: `isspace`,
 * `strip`, `in` on strings, `lower` for the letters the scripts look for,
 * `split` on one character and on a longer separator, and `join`.
 */
module Text {
  import opened Wrappers

  /** The characters for which Python's `str.isspace()` holds. */
  predicate IsSpace(c: char) {
    || ('\t' <= c <= '\r')
    || ('\U{1C}' <= c <= '\U{1F}')
    || c == ' ' || c == '\U{85}' || c == '\U{A0}' || c == '\U{1680}'
    || ('\U{2000}' <= c <= '\U{200A}')
    || c == '\U{2028}' || c == '\U{2029}' || c == '\U{202F}' || c == '\U{205F}' || c == '\U{3000}'
  }

  /** No element of `s` occurs twice. */
  predicate Distinct<T(==)>(s: seq<T>) {
    forall i, j | 0 <= i < j < |s| :: s[i] != s[j]
  }

  predicate NoSpace(s: string) {
    forall i | 0 <= i < |s| :: !IsSpace(s[i])
  }

  /** `s.lstrip()`: the longest suffix of `s` that does not start with white space. */
  function LStrip(s: string): (r: string)
    ensures |r| <= |s| && r == s[|s| - |r|..]
    ensures forall i | 0 <= i < |s| - |r| :: IsSpace(s[i])
    ensures r == [] || !IsSpace(r[0])
    decreases |s|
  {
    if |s| > 0 && IsSpace(s[0]) then LStrip(s[1..]) else s
  }

  /** `s.rstrip()`: the longest prefix of `s` that does not end with white space. */
  function RStrip(s: string): (r: string)
    ensures |r| <= |s| && r == s[..|r|]
    ensures forall i | |r| <= i < |s| :: IsSpace(s[i])
    ensures r == [] || !IsSpace(r[|r| - 1])
    decreases |s|
  {
    if |s| > 0 && IsSpace(s[|s| - 1]) then RStrip(s[..|s| - 1]) else s
  }

  /** `s.strip()`. */
  function Strip(s: string): (r: string)
    ensures r == [] <==> forall i | 0 <= i < |s| :: IsSpace(s[i])
    ensures r != [] ==> !IsSpace(r[0]) && !IsSpace(r[|r| - 1])
    ensures NoSpace(s) ==> r == s
  {
    RStrip(LStrip(s))
  }

  /** `sub in s` for strings: `sub` occurs in `s` at some position. */
  predicate Contains(s: string, sub: string)
    decreases |s|
  {
    sub <= s || (|s| > 0 && Contains(s[1..], sub))
  }

  lemma {:induction false} ContainsInfix(a: string, b: string, c: string)
    ensures Contains(a + b + c, b)
    decreases |a|
  {
    if |a| == 0 {
      assert a + b + c == b + c;
    } else {
      assert (a + b + c)[1..] == a[1..] + b + c;
      ContainsInfix(a[1..], b, c);
    }
  }

  /** The letter case mapping of `str.lower()` on the ASCII capitals. */
  function LowerChar(c: char): char {
    if 'A' <= c <= 'Z' then (c as int + 32) as char else c
  }

  /**
   * `s.lower()` as far as it matters here: Python lowers every cased letter,
   * but no character other than an ASCII capital lowers to one of the ASCII
   * letters the scripts search for.
   */
  function Lower(s: string): string {
    seq(|s|, i requires 0 <= i < |s| => LowerChar(s[i]))
  }

  /** `s.split(sep)` for a one-character separator. */
  function Split(s: string, sep: char): (parts: seq<string>)
    ensures |parts| >= 1
    ensures forall i | 0 <= i < |parts| :: sep !in parts[i]
    ensures |parts| == 1 <==> sep !in s
    ensures parts[0] <= s
    decreases |s|
  {
    if |s| == 0 then [""]
    else
      var rest := Split(s[1..], sep);
      assert sep in s <==> s[0] == sep || sep in s[1..] by {
        assert s == [s[0]] + s[1..];
      }
      if s[0] == sep then [""] + rest
      else [[s[0]] + rest[0]] + rest[1..]
  }

  /** `sep.join(parts)` for a one-character separator. */
  function Join(parts: seq<string>, sep: char): string
    decreases |parts|
  {
    if |parts| == 0 then ""
    else if |parts| == 1 then parts[0]
    else parts[0] + [sep] + Join(parts[1..], sep)
  }

  /** Joining one more piece adds a separator and the piece. */
  lemma {:induction false} JoinSnoc(parts: seq<string>, last: string, sep: char)
    requires |parts| >= 1
    ensures Join(parts + [last], sep) == Join(parts, sep) + [sep] + last
    decreases |parts|
  {
    if |parts| > 1 {
      JoinSnoc(parts[1..], last, sep);
      assert (parts + [last])[1..] == parts[1..] + [last];
    }
  }

  /** Joining the pieces of a split gives back the original text. */
  lemma {:induction false} JoinSplit(s: string, sep: char)
    ensures Join(Split(s, sep), sep) == s
    decreases |s|
  {
    if |s| > 0 {
      JoinSplit(s[1..], sep);
      var rest := Split(s[1..], sep);
      if s[0] == sep {
        assert Split(s, sep) == [""] + rest;
        assert ([""] + rest)[1..] == rest;
      } else if |rest| > 1 {
        var p := Split(s, sep);
        assert p == [[s[0]] + rest[0]] + rest[1..];
        assert p[1..] == rest[1..];
        assert Join(rest, sep) == rest[0] + [sep] + Join(rest[1..], sep);
      }
    }
  }

  /** A separator-free prefix is glued onto the first piece of the rest. */
  lemma {:induction false} SplitPrefix(a: string, t: string, sep: char)
    requires sep !in a
    ensures Split(a + t, sep) == [a + Split(t, sep)[0]] + Split(t, sep)[1..]
    decreases |a|
  {
    if |a| > 0 {
      var p := Split(t, sep);
      var s := a + t;
      assert s[0] == a[0] && s[1..] == a[1..] + t;
      SplitPrefix(a[1..], t, sep);
      var rest := Split(s[1..], sep);
      assert rest == [a[1..] + p[0]] + p[1..];
      assert Split(s, sep) == [[s[0]] + rest[0]] + rest[1..];
      assert rest[0] == a[1..] + p[0] && rest[1..] == p[1..];
      assert [a[0]] + (a[1..] + p[0]) == a + p[0];
    } else {
      var p := Split(t, sep);
      assert a + t == t && a + p[0] == p[0];
      assert p == [p[0]] + p[1..];
    }
  }

  /** The pieces are cut at the first separator. */
  lemma SplitAtFirst(s: string, sep: char, i: nat)
    requires i < |s| && s[i] == sep && sep !in s[..i]
    ensures Split(s, sep) == [s[..i]] + Split(s[i + 1..], sep)
  {
    assert s == s[..i] + ([sep] + s[i + 1..]);
    SplitPrefix(s[..i], [sep] + s[i + 1..], sep);
    assert ([sep] + s[i + 1..])[1..] == s[i + 1..];
    var rest := Split(s[i + 1..], sep);
    assert Split([sep] + s[i + 1..], sep) == [""] + rest;
    assert ([""] + rest)[1..] == rest;
    assert s[..i] + "" == s[..i];
  }

  /** The first piece runs up to the first separator, or to the end. */
  lemma SplitFirstPiece(s: string, sep: char, p: nat)
    requires p <= |s| && sep !in s[..p] && (p == |s| || s[p] == sep)
    ensures Split(s, sep)[0] == s[..p]
  {
    if p < |s| {
      SplitAtFirst(s, sep, p);
    } else {
      assert s[..p] == s;
      SplitPrefix(s, "", sep);
      assert s + "" == s;
    }
  }

  /** The first piece reaches at least as far as the first separator. */
  lemma {:induction false} SplitFirstKeeps(s: string, sep: char, q: nat)
    requires q <= |s| && sep !in s[..q]
    ensures q <= |Split(s, sep)[0]|
    decreases q
  {
    if q > 0 {
      assert s[0] == s[..q][0];
      assert s[1..][..q - 1] == s[..q][1..];
      SplitFirstKeeps(s[1..], sep, q - 1);
    }
  }

  /** Splitting joined separator-free pieces gives back the pieces. */
  lemma {:induction false} SplitJoin(parts: seq<string>, sep: char)
    requires |parts| >= 1
    requires forall i | 0 <= i < |parts| :: sep !in parts[i]
    ensures Split(Join(parts, sep), sep) == parts
    decreases |parts|
  {
    if |parts| == 1 {
      SplitPrefix(parts[0], "", sep);
      assert parts[0] + "" == parts[0];
    } else {
      var t := Join(parts[1..], sep);
      SplitJoin(parts[1..], sep);
      assert Join(parts, sep) == parts[0] + ([sep] + t);
      SplitPrefix(parts[0], [sep] + t, sep);
      assert ([sep] + t)[1..] == t;
      assert Split([sep] + t, sep) == [""] + Split(t, sep);
      assert ([""] + Split(t, sep))[1..] == Split(t, sep);
      assert parts[0] + "" == parts[0];
      assert parts == [parts[0]] + parts[1..];
    }
  }

  /** A non-empty sequence is its initial part followed by its last element. */
  lemma InitLast<T>(s: seq<T>)
    requires |s| > 0
    ensures s == s[..|s| - 1] + [s[|s| - 1]]
  {
  }

  /** Joining several pieces ends with a separator and then the last piece. */
  lemma JoinLast(parts: seq<string>, sep: char)
    requires |parts| > 1
    ensures var s := Join(parts, sep); var last := parts[|parts| - 1];
      && |last| < |s| && s[|s| - |last|..] == last && s[|s| - |last| - 1] == sep
  {
    var n := |parts|;
    var last := parts[n - 1];
    InitLast(parts);
    JoinSnoc(parts[..n - 1], last, sep);
    var head := Join(parts[..n - 1], sep) + [sep];
    assert Join(parts, sep) == head + last;
  }

  /** An element of a sequence framed by one element on each side. */
  lemma Framed<T>(a: T, s: seq<T>, b: T, i: nat)
    requires i < |s|
    ensures |[a] + s + [b]| == |s| + 2 && ([a] + s + [b])[i + 1] == s[i]
  {
  }

  /** Appending an element not yet present keeps the elements distinct. */
  lemma DistinctSnoc<T>(s: seq<T>, x: T)
    requires Distinct(s) && x !in s
    ensures Distinct(s + [x])
  {
  }

  /** The first `n` elements after dropping `a` are the slice from `a` to `a + n`. */
  lemma DropTake<T>(s: seq<T>, a: nat, n: nat)
    requires a + n <= |s|
    ensures s[a..][..n] == s[a..a + n]
    ensures forall k | 0 <= k < n :: s[a..][k] == s[a + k]
  {
  }

  /** A suffix of a non-empty sequence is the suffix of all but its last element, then that element. */
  lemma SuffixInitLast<T>(s: seq<T>, k: nat)
    requires k < |s|
    ensures s[k..] == s[..|s| - 1][k..] + [s[|s| - 1]]
  {
  }

  /** Regrouping two leading elements, a middle part and a trailing element. */
  lemma PairSnoc<T>(a: T, b: T, mid: seq<T>, z: T)
    ensures [a, b] + mid + [z] == [a] + ([b] + (mid + [z]))
  {
  }

  /** A prefix one element longer is the prefix followed by that element. */
  lemma PrefixSnoc<T>(s: seq<T>, n: nat)
    requires n < |s|
    ensures s[..n + 1] == s[..n] + [s[n]]
  {
  }

  /**
   * The last piece of a split is the text after the last separator, or the
   * whole text when it holds no separator.
   */
  lemma SplitLast(s: string, sep: char)
    ensures var p := Split(s, sep); var last := p[|p| - 1];
      && |last| <= |s| && s[|s| - |last|..] == last
      && (sep in s ==> |last| < |s| && s[|s| - |last| - 1] == sep)
      && (sep !in s ==> last == s)
  {
    var p := Split(s, sep);
    JoinSplit(s, sep);
    if |p| > 1 {
      JoinLast(p, sep);
    }
  }

  /** `s.find(sub)` as an option: the first position where `sub` occurs. */
  function IndexOf(s: string, sub: string): (r: Option<nat>)
    ensures r.None? <==> !Contains(s, sub)
    ensures r.Some? ==> r.value + |sub| <= |s| && s[r.value..r.value + |sub|] == sub
    ensures r.Some? ==> forall k | 0 <= k < r.value :: !OccursAt(s, sub, k)
    decreases |s|
  {
    if sub <= s then Some(0)
    else if |s| == 0 then None
    else match IndexOf(s[1..], sub)
      case None => None
      case Some(i) =>
        NotBeforeShift(s, sub, i);
        Some(i + 1)
  }

  /** `sub` occurs in `s` starting at position `k`. */
  predicate OccursAt(s: string, sub: string, k: nat) {
    k + |sub| <= |s| && s[k..k + |sub|] == sub
  }

  /** No occurrence starts before `i` in `s[1..]`, nor at 0 in `s`: none starts before `i + 1` in `s`. */
  lemma NotBeforeShift(s: string, sub: string, i: nat)
    requires |s| > 0 && !(sub <= s) && i <= |s| - 1
    requires forall k | 0 <= k < i :: !OccursAt(s[1..], sub, k)
    ensures forall k | 0 <= k < i + 1 :: !OccursAt(s, sub, k)
  {
    forall k | 0 <= k < i + 1
      ensures !OccursAt(s, sub, k)
    {
      if k > 0 {
        assert OccursAt(s, sub, k) == OccursAt(s[1..], sub, k - 1) by {
          if k + |sub| <= |s| {
            assert s[k..k + |sub|] == s[1..][k - 1..k - 1 + |sub|];
          }
        }
      }
    }
  }

  /**
   * `s.split(sep)` for a non-empty separator: cut at the first occurrence,
   * then go on after it, so occurrences that overlap a cut are not cut at.
   */
  function SplitOn(s: string, sep: string): (pieces: seq<string>)
    requires sep != []
    ensures |pieces| >= 1
    decreases |s|
  {
    match IndexOf(s, sep)
    case None => [s]
    case Some(i) => [s[..i]] + SplitOn(s[i + |sep|..], sep)
  }

  /** `sep.join(parts)` for a separator of any length. */
  function JoinOn(parts: seq<string>, sep: string): string
    decreases |parts|
  {
    if |parts| == 0 then ""
    else if |parts| == 1 then parts[0]
    else parts[0] + sep + JoinOn(parts[1..], sep)
  }

  /** Joining a first piece and at least one more: the piece, the separator, the join of the rest. */
  lemma JoinOnCons(a: string, rest: seq<string>, sep: string)
    requires |rest| >= 1
    ensures JoinOn([a] + rest, sep) == a + (sep + JoinOn(rest, sep))
  {
    assert ([a] + rest)[1..] == rest;
  }

  /** Joining the pieces of a split by the separator gives back the text. */
  lemma {:induction false} SplitOnJoin(s: string, sep: string)
    requires sep != []
    ensures JoinOn(SplitOn(s, sep), sep) == s
    decreases |s|
  {
    var found := IndexOf(s, sep);
    if found.Some? {
      var t := s[found.value + |sep|..];
      SplitOnJoin(t, sep);
      SplitOnStep(s, sep, found);
      JoinAroundCut(s, sep, found.value, SplitOn(t, sep));
    } else {
      SplitOnNone(s, sep);
    }
  }

  /** Joining the piece before an occurrence to pieces that join to what follows it. */
  lemma JoinAroundCut(s: string, sep: string, i: nat, rest: seq<string>)
    requires i + |sep| <= |s| && s[i..i + |sep|] == sep
    requires |rest| >= 1 && JoinOn(rest, sep) == s[i + |sep|..]
    ensures JoinOn([s[..i]] + rest, sep) == s
  {
    var a, t := s[..i], s[i + |sep|..];
    calc {
      JoinOn([a] + rest, sep);
      { JoinOnCons(a, rest, sep); }
      a + (sep + JoinOn(rest, sep));
      a + (s[i..i + |sep|] + t);
      { Regrouped(s, i, |sep|); }
      s;
    }
  }

  /** A string is its prefix, a middle slice and the rest. */
  lemma Regrouped(s: string, i: nat, n: nat)
    requires i + n <= |s|
    ensures s == s[..i] + (s[i..i + n] + s[i + n..])
  {
    assert s[..i] + (s[i..i + n] + s[i + n..]) == s[..i] + s[i..];
  }

  /**
   * `s.split(sep)[-1]` for a non-empty separator: Python cuts at the
   * occurrences it finds scanning left to right, so the last piece is what
   * follows the last occurrence found that way.
   */
  function AfterLast(s: string, sep: string): (tail: string)
    requires sep != []
    ensures |tail| <= |s| && s[|s| - |tail|..] == tail
    ensures !Contains(s, sep) ==> tail == s
    decreases |s|
  {
    match IndexOf(s, sep)
    case None => s
    case Some(i) =>
      var t := s[i + |sep|..];
      var tail := AfterLast(t, sep);
      assert s[|s| - |tail|..] == t[|t| - |tail|..];
      tail
  }

  /** What follows the last occurrence found that way is the last piece of the split. */
  lemma {:induction false} AfterLastIsLastPiece(s: string, sep: string)
    requires sep != []
    ensures AfterLast(s, sep) == Last(SplitOn(s, sep))
    decreases |s|
  {
    var found := IndexOf(s, sep);
    if found.Some? {
      var t := s[found.value + |sep|..];
      AfterLastIsLastPiece(t, sep);
      AfterLastStep(s, sep, found);
      SplitOnStep(s, sep, found);
      LastOfCons(s[..found.value], SplitOn(t, sep));
    } else {
      SplitOnNone(s, sep);
    }
  }

  /** A cut at the first occurrence: the piece before it, then the pieces of what follows. */
  lemma SplitOnStep(s: string, sep: string, found: Option<nat>)
    requires sep != [] && found == IndexOf(s, sep) && found.Some?
    ensures SplitOn(s, sep) == [s[..found.value]] + SplitOn(s[found.value + |sep|..], sep)
  {
  }

  /** Without an occurrence the text is a single piece, and all of it is kept. */
  lemma SplitOnNone(s: string, sep: string)
    requires sep != [] && IndexOf(s, sep).None?
    ensures SplitOn(s, sep) == [s] && AfterLast(s, sep) == s
  {
  }

  /** The text after the last occurrence is found in what follows the first one. */
  lemma AfterLastStep(s: string, sep: string, found: Option<nat>)
    requires sep != [] && found == IndexOf(s, sep) && found.Some?
    ensures AfterLast(s, sep) == AfterLast(s[found.value + |sep|..], sep)
  {
  }

  /** The last element of a non-empty sequence: `xs[-1]`. */
  function Last<T>(xs: seq<T>): T
    requires |xs| >= 1
  {
    xs[|xs| - 1]
  }

  /** The last element of a sequence with one more element in front. */
  lemma LastOfCons<T>(a: T, rest: seq<T>)
    requires |rest| >= 1
    ensures Last([a] + rest) == Last(rest)
  {
  }

  /**
   * Overlapping occurrences, for any character `c`: `"ccc".split("cc")` is
   * `["", "c"]` (so `"aaa".split("aa")` is `["", "a"]`), and the text after
   * the last occurrence found is `"c"`, not the empty text after the
   * occurrence that starts at position 1.
   */
  lemma SplitOnOverlap(c: char)
    ensures SplitOn([c, c, c], [c, c]) == [[], [c]]
    ensures AfterLast([c, c, c], [c, c]) == [c]
  {
    var s, sep, t := [c, c, c], [c, c], [c];
    OverlapCuts(c);
    calc {
      SplitOn(s, sep);
      { SplitOnStep(s, sep, IndexOf(s, sep)); }
      [s[..0]] + SplitOn(s[2..], sep);
      { SplitOnNone(t, sep); }
      [[]] + [t];
      [[], [c]];
    }
    calc {
      AfterLast(s, sep);
      { AfterLastStep(s, sep, IndexOf(s, sep)); }
      AfterLast(t, sep);
      { SplitOnNone(t, sep); }
      t;
    }
  }

  /** Where `[c, c]` occurs in `[c, c, c]` and in what follows the first occurrence. */
  lemma OverlapCuts(c: char)
    ensures IndexOf([c, c, c], [c, c]) == Some(0)
    ensures [c, c, c][..0] == [] && [c, c, c][2..] == [c]
    ensures IndexOf([c], [c, c]) == None
  {
    assert [c, c] <= [c, c, c];
  }

  /** What follows the last occurrence holds no occurrence. */
  lemma {:induction false} AfterLastFree(s: string, sep: string)
    requires sep != []
    ensures !Contains(AfterLast(s, sep), sep)
    decreases |s|
  {
    var found := IndexOf(s, sep);
    if found.Some? {
      var t := s[found.value + |sep|..];
      AfterLastFree(t, sep);
      AfterLastStep(s, sep, found);
    } else {
      SplitOnNone(s, sep);
    }
  }


}
