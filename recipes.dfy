/**
 * What the two recipe-search scripts share: the parsing of one candidate
 * line and of the dry-run listing (`list_dependencies`), the state a search
 * run threads through its loop, and the part of that loop that follows the
 * choice of a candidate, which both scripts write identically.
 */
module Recipes {
  import opened Wrappers
  import opened Text
  import opened Prompt

  /** What an external command left on its two output streams, decoded. */
  datatype ToolOutput = ToolOutput(stdout: string, stderr: string)

  /** The uncaught exceptions that end a search run. */
  datatype Fault =
    | InputExhausted                   // `input()` reached end of file
    | MalformedDependency(line: string) // `line.split('(')[1]` raised IndexError

  /**
   * The recipe identifier of a candidate line, `line.split(" ")[-1]`: the
   * text after the last space, or the whole line when it has none.
   */
  function LastToken(line: string): (token: string)
    ensures ' ' !in token
    ensures |token| <= |line| && line[|line| - |token|..] == token
    ensures ' ' in line ==> |token| < |line| && line[|line| - |token| - 1] == ' '
    ensures ' ' !in line ==> token == line
  {
    var parts := Split(line, ' ');
    SplitLast(line, ' ');
    parts[|parts| - 1]
  }

  /**
   * A dry-run line that declares a dependency: its first character that is
   * not white space is `*` (see `BulletIsStrippedStar`).
   */
  predicate IsBullet(line: string)
    decreases |line|
  {
    |line| > 0 && (line[0] == '*' || (IsSpace(line[0]) && IsBullet(line[1..])))
  }

  /** `IsBullet` is the test `line.strip().startswith('*')`. */
  lemma {:induction false} BulletIsStrippedStar(line: string)
    ensures IsBullet(line) <==> (var t := Strip(line); |t| > 0 && t[0] == '*')
    decreases |line|
  {
    var l := LStrip(line);
    var t := RStrip(l);
    assert t == Strip(line);
    if l != [] {
      assert t != [] && t[0] == l[0];
    }
    if |line| > 0 && IsSpace(line[0]) {
      BulletIsStrippedStar(line[1..]);
    }
  }

  /**
   * `line.split('(')[1].split(')')[0]`, or `None` where the lookup `[1]`
   * raises because the line holds no `(`.
   */
  function DependencyId(line: string): (id: Option<string>)
    ensures id.None? <==> '(' !in line
    ensures id.Some? ==> '(' !in id.value && ')' !in id.value
  {
    var parts := Split(line, '(');
    if |parts| < 2 then None
    else
      var piece := Split(parts[1], ')')[0];
      assert piece <= parts[1];
      Some(piece)
  }

  /**
   * Where the identifier sits: after the first `(`, up to the next `(` or `)`
   * or the end of the line.
   */
  lemma DependencyIdAt(line: string, i: nat, j: nat)
    requires i < j <= |line|
    requires line[i] == '(' && '(' !in line[..i]
    requires forall k | i < k < j :: line[k] != '(' && line[k] != ')'
    requires j == |line| || line[j] == '(' || line[j] == ')'
    ensures DependencyId(line) == Some(line[i + 1..j])
  {
    var u := line[i + 1..];
    var q := j - (i + 1);
    assert Split(Split(u, '(')[0], ')')[0] == line[i + 1..j] by {
      DropTake(line, i + 1, q);
      PieceUpTo(u, q);
    }
    assert |Split(line, '(')| >= 2 && Split(line, '(')[1] == Split(u, '(')[0] by {
      SplitAtFirst(line, '(', i);
    }
  }

  /**
   * The text before the first `(` and then before the first `)` ends at
   * the first parenthesis of either kind.
   */
  lemma PieceUpTo(u: string, q: nat)
    requires q <= |u|
    requires forall k | 0 <= k < q :: u[k] != '(' && u[k] != ')'
    requires q == |u| || u[q] == '(' || u[q] == ')'
    ensures Split(Split(u, '(')[0], ')')[0] == u[..q]
  {
    var id := u[..q];
    assert '(' !in id && ')' !in id;
    var piece := Split(u, '(')[0];
    if q < |u| && u[q] == ')' {
      assert q < |piece| && piece[..q] == id && piece[q] == ')' by {
        assert '(' !in u[..q + 1] by {
          PrefixSnoc(u, q);
        }
        SplitFirstKeeps(u, '(', q + 1);
        assert piece <= u;
      }
    } else {
      assert piece == id by {
        SplitFirstPiece(u, '(', q);
      }
    }
    SplitFirstPiece(piece, ')', q);
  }

  /**
   * The loop of `list_dependencies` over the dry-run lines: the identifiers
   * of the bullet lines in order, or the first bullet line without `(`,
   * where the extraction raises.
   */
  function ParseDependencies(lines: seq<string>): Result<seq<string>, string>
    decreases |lines|
  {
    if |lines| == 0 then Ok([])
    else
      var last := lines[|lines| - 1];
      match ParseDependencies(lines[..|lines| - 1])
      case Err(bad) => Err(bad)
      case Ok(ids) =>
        if !IsBullet(last) then Ok(ids)
        else match DependencyId(last)
          case None => Err(last)
          case Some(id) => Ok(ids + [id])
  }

  /** A bullet line the extraction fails on. */
  predicate Malformed(line: string) {
    IsBullet(line) && '(' !in line
  }

  /**
   * The listing fails exactly when some bullet line has no `(`, and then it
   * names such a line; otherwise every identifier is free of parentheses.
   */
  lemma {:induction false} ParseDependenciesFails(lines: seq<string>)
    ensures ParseDependencies(lines).Err? <==> exists i | 0 <= i < |lines| :: Malformed(lines[i])
    ensures ParseDependencies(lines).Err? ==>
      ParseDependencies(lines).error in lines && Malformed(ParseDependencies(lines).error)
    ensures ParseDependencies(lines).Ok? ==>
      forall k | 0 <= k < |ParseDependencies(lines).value| ::
        '(' !in ParseDependencies(lines).value[k] && ')' !in ParseDependencies(lines).value[k]
    decreases |lines|
  {
    if |lines| > 0 {
      var init := lines[..|lines| - 1];
      ParseDependenciesFails(init);
      assert forall i | 0 <= i < |init| :: init[i] == lines[i];
      assert lines == init + [lines[|lines| - 1]];
      if exists i | 0 <= i < |init| :: Malformed(init[i]) {
        var i :| 0 <= i < |init| && Malformed(init[i]);
        assert Malformed(lines[i]);
      }
    }
  }

  /**
   * Parsing runs line by line in order: the listing of two consecutive
   * blocks of lines is the listing of the first followed by that of the
   * second, and the first malformed bullet line wins.
   */
  lemma {:induction false} ParseDependenciesAppend(a: seq<string>, b: seq<string>)
    ensures ParseDependencies(a + b) ==
      match ParseDependencies(a)
      case Err(bad) => Err(bad)
      case Ok(x) =>
        match ParseDependencies(b)
        case Err(bad) => Err(bad)
        case Ok(y) => Ok(x + y)
    decreases |b|
  {
    if |b| == 0 {
      assert a + b == a;
      assert forall x: seq<string> :: x + [] == x;
    } else {
      var b' := b[..|b| - 1];
      ParseDependenciesAppend(a, b');
      assert (a + b)[..|a + b| - 1] == a + b';
      assert (a + b)[|a + b| - 1] == b[|b| - 1];
      match ParseDependencies(a)
      case Err(_) =>
      case Ok(x) =>
        match ParseDependencies(b')
        case Err(_) =>
        case Ok(y) =>
          assert forall z :: x + (y + z) == (x + y) + z;
    }
  }

  /** The dependencies one dry run contributes: none when it wrote to stderr. */
  function DependenciesOf(out: ToolOutput): Result<seq<string>, string> {
    if out.stderr != "" then Ok([]) else ParseDependencies(Split(out.stdout, '\n'))
  }

  /** What `list_dependencies` writes to the open file and what it returns. */
  datatype Listing = Listing(chunks: seq<string>, result: Result<seq<string>, string>)

  function DependencyListing(recipe: string, out: ToolOutput, accounting: bool): (l: Listing)
    ensures l.result == DependenciesOf(out)
    ensures out.stderr != "" ==> l.result == Ok([])
    ensures !accounting ==> l.chunks == []
    ensures accounting && out.stderr != "" ==> l.chunks == ["Errors in dependencies listing:\n", out.stderr]
    ensures accounting && out.stderr == "" ==>
      l.chunks == ["Dependency details for " + recipe + ":\n"] + (if l.result.Ok? then [Join(l.result.value, '\n')] else [])
  {
    if out.stderr != "" then
      Listing(if accounting then ["Errors in dependencies listing:\n", out.stderr] else [], Ok([]))
    else
      var parsed := ParseDependencies(Split(out.stdout, '\n'));
      var head := if accounting then ["Dependency details for " + recipe + ":\n"] else [];
      match parsed
      case Err(_) => Listing(head, parsed)
      case Ok(ids) => Listing(head + (if accounting then [Join(ids, '\n')] else []), parsed)
  }

  /**
   * `list_dependencies` once its dry run has finished: `accounting` is the
   * negation of the global `create_install_file`.
   */
  method ListDependencies(recipe: string, out: ToolOutput, accounting: bool)
    returns (chunks: seq<string>, result: Result<seq<string>, string>)
    ensures Listing(chunks, result) == DependencyListing(recipe, out, accounting)
  {
    if out.stderr != "" {
      chunks := if accounting then ["Errors in dependencies listing:\n", out.stderr] else [];
      return chunks, Ok([]);
    }
    var dependencies: seq<string> := [];
    chunks := if accounting then ["Dependency details for " + recipe + ":\n"] else [];
    var lines := Split(out.stdout, '\n');
    var i := 0;
    while i < |lines|
      invariant 0 <= i <= |lines|
      invariant ParseDependencies(lines[..i]) == Ok(dependencies)
    {
      var line := lines[i];
      assert lines[..i + 1] == lines[..i] + [line];
      assert lines[..i + 1][..i] == lines[..i];
      if IsBullet(line) {
        match DependencyId(line)
        case None =>
          assert lines == lines[..i + 1] + lines[i + 1..];
          ParseDependenciesAppend(lines[..i + 1], lines[i + 1..]);
          return chunks, Err(line);
        case Some(id) =>
          dependencies := dependencies + [id];
      }
      i := i + 1;
    }
    assert lines[..i] == lines;
    if accounting {
      chunks := chunks + [Join(dependencies, '\n')];
    }
    result := Ok(dependencies);
  }

  /** The separator written after "No versions found.". */
  const Separator: string := "\n" + seq(40, _ => '-') + "\n"

  /**
   * The state a search run carries from one desired name to the next: the
   * chunks written to the results file, the identifiers selected so far, the
   * dependency list gathered so far, the position of the next unread
   * operator answer, and the exception that ended the run, if any.
   */
  datatype Run = Run(
    written: seq<string>,
    selected: seq<string>,
    deps: seq<string>,
    next: nat,
    fault: Option<Fault>)

  const Start := Run([], [], [], 0, None)

  /**
   * The inputs of a search run besides the desired names: whether it runs in
   * accounting mode (`create_install_file` false), the output of the search
   * command for each name (the grep filter already applied), the output of
   * the dry run for each recipe identifier, and the operator's answers.
   */
  datatype Env = Env(
    accounting: bool,
    search: string -> ToolOutput,
    dryRun: string -> ToolOutput,
    answers: seq<Option<int>>)

  /** The results file of a selection-only run: one identifier per line. */
  function ResultLines(ids: seq<string>): (lines: seq<string>)
    ensures |lines| == |ids|
    ensures forall i | 0 <= i < |ids| :: lines[i] == ids[i] + "\n"
  {
    seq(|ids|, i requires 0 <= i < |ids| => ids[i] + "\n")
  }

  /** What `search_modules` returns, or the exception it raises. */
  datatype Outcome = Completed(dependencies: Option<set<string>>) | Aborted(fault: Fault)

  /**
   * The part of the search loop that follows the choice: give up on end of
   * input, skip the name on "none", otherwise write the identifier and, when
   * accounting, list and gather its dependencies.
   */
  function Conclude(r: Run, pick: Answer, stderr: string, accounting: bool,
                    dryRun: string -> ToolOutput): (r': Run)
    requires r.fault.None?
    ensures pick.Exhausted? ==> r'.fault == Some(InputExhausted) && r'.selected == r.selected
    ensures pick.Declined? ==> r' == r.(next := pick.next)
    ensures pick.Chosen? ==>
      && r'.selected == r.selected + [LastToken(pick.line)]
      && r'.next == pick.next
      && |r'.written| > |r.written|
      && r'.written[..|r.written| + 1] == r.written + [LastToken(pick.line) + "\n"]
    ensures !accounting ==> r'.deps == r.deps && (r'.fault.Some? ==> pick.Exhausted?)
    ensures !accounting && pick.Chosen? ==> r'.written == r.written + [LastToken(pick.line) + "\n"]
  {
    match pick
    case Exhausted => r.(fault := Some(InputExhausted))
    case Declined(n) => r.(next := n)
    case Chosen(line, n) =>
      var id := LastToken(line);
      var w := r.written + [id + "\n"] + (if stderr != "" && accounting then ["Errors:\n", id] else []);
      assert w[..|r.written| + 1] == r.written + [id + "\n"];
      if !accounting then r.(written := w, selected := r.selected + [id], next := n)
      else
        var listing := DependencyListing(id, dryRun(id), true);
        assert (w + listing.chunks)[..|r.written| + 1] == w[..|r.written| + 1];
        match listing.result
        case Err(bad) =>
          Run(w + listing.chunks, r.selected + [id], r.deps, n, Some(MalformedDependency(bad)))
        case Ok(ids) =>
          Run(w + listing.chunks, r.selected + [id], r.deps + ids, n, None)
  }

  /**
   * The loop body of `search_modules` after the choice, on the loop's own
   * variables: the file written so far, the gathered dependencies and the
   * position of the next answer; `fault` is the exception raised, if any.
   */
  method ConcludeChoice(file: seq<string>, ghost selected: seq<string>, deps: seq<string>, next: nat,
                        pick: Answer, stderr: string, accounting: bool, dryRun: string -> ToolOutput)
    returns (file': seq<string>, ghost selected': seq<string>, deps': seq<string>, next': nat, fault: Option<Fault>)
    ensures Run(file', selected', deps', next', fault)
      == Conclude(Run(file, selected, deps, next, None), pick, stderr, accounting, dryRun)
  {
    file', selected', deps', next', fault := file, selected, deps, next, None;
    match pick
    case Exhausted =>
      fault := Some(InputExhausted);
    case Declined(n) =>
      next' := n;
    case Chosen(line, n) =>
      var id := LastToken(line);
      file' := file' + [id + "\n"];
      if stderr != "" && accounting {
        file' := file' + ["Errors:\n", id];
      }
      selected' := selected + [id];
      next' := n;
      if accounting {
        var chunks, result := ListDependencies(id, dryRun(id), true);
        file' := file' + chunks;
        match result
        case Err(bad) =>
          fault := Some(MalformedDependency(bad));
        case Ok(ids) =>
          deps' := deps' + ids;
      }
  }

  /** One more identifier adds one more line to the results file. */
  lemma ResultLinesSnoc(ids: seq<string>, id: string)
    ensures ResultLines(ids + [id]) == ResultLines(ids) + [id + "\n"]
  {
  }

  /** The end of `search_modules`: the set of gathered dependencies when accounting. */
  function Finish(r: Run, accounting: bool): (o: Outcome)
    ensures r.fault.Some? <==> o.Aborted?
    ensures o.Completed? ==> (o.dependencies.Some? <==> accounting)
    ensures o.Completed? && accounting ==>
      forall x :: x in o.dependencies.value <==> x in r.deps
  {
    if r.fault.Some? then Aborted(r.fault.value)
    else if accounting then Completed(Some(set x | x in r.deps))
    else Completed(None)
  }

  /** The dependencies the dry runs of `ids` contribute, in order. */
  function Gathered(ids: seq<string>, dryRun: string -> ToolOutput): seq<string>
    decreases |ids|
  {
    if |ids| == 0 then []
    else
      var more := match DependenciesOf(dryRun(ids[|ids| - 1])) case Ok(d) => d case Err(_) => [];
      Gathered(ids[..|ids| - 1], dryRun) + more
  }

  /**
   * An accounting turn that raises nothing adds, to the dependencies, those
   * of the dry run of the identifier it selects, if any.
   */
  lemma ConcludeGathers(r: Run, pick: Answer, stderr: string, dryRun: string -> ToolOutput)
    requires r.fault.None? && r.deps == Gathered(r.selected, dryRun)
    requires Conclude(r, pick, stderr, true, dryRun).fault.None?
    ensures var r' := Conclude(r, pick, stderr, true, dryRun);
      r'.deps == Gathered(r'.selected, dryRun)
  {
    match pick
    case Chosen(line, n) =>
      var id := LastToken(line);
      assert (r.selected + [id])[..|r.selected|] == r.selected;
    case Declined(n) =>
    case Exhausted =>
  }

  /** A dependency is gathered exactly when the dry run of some selected identifier lists it. */
  lemma {:induction false} GatheredMembers(ids: seq<string>, dryRun: string -> ToolOutput, x: string)
    ensures x in Gathered(ids, dryRun) <==>
      exists j | 0 <= j < |ids| :: DependenciesOf(dryRun(ids[j])).Ok? && x in DependenciesOf(dryRun(ids[j])).value
    decreases |ids|
  {
    if |ids| > 0 {
      var init := ids[..|ids| - 1];
      GatheredMembers(init, dryRun, x);
      assert forall j | 0 <= j < |init| :: init[j] == ids[j];
      var l := DependenciesOf(dryRun(ids[|ids| - 1]));
      if l.Ok? && x in l.value {
        assert x in Gathered(ids, dryRun);
      }
    }
  }
}
