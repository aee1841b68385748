/**
 * `search_modules` of `easybuild_module_search.py`: for each desired name in
 * order, take the search command's output, keep its lines less one trailing
 * empty piece, pick a candidate (no prompt when there is exactly one), and
 * write the identifier after the candidate's last space to the results file.
 * In accounting mode it also writes the search sections and gathers the
 * dependencies of every selected recipe.
 */
module ModuleSearch {
  import opened Wrappers
  import opened Text
  import opened Prompt
  import opened Recipes

  /** `stdout.split("\n")` less one trailing empty piece. */
  function CandidateLines(stdout: string): (lines: seq<string>)
    ensures stdout == "" <==> lines == []
    ensures forall i | 0 <= i < |lines| :: '\n' !in lines[i]
  {
    var parts := Split(stdout, '\n');
    if parts[|parts| - 1] == "" then
      assert |parts| == 1 ==> stdout == "" by {
        JoinSplit(stdout, '\n');
      }
      parts[..|parts| - 1]
    else parts
  }

  /** The candidate lines and the final newline, if any, give back the output. */
  lemma CandidateLinesRoundTrip(stdout: string)
    ensures Join(CandidateLines(stdout), '\n')
      + (if stdout != "" && stdout[|stdout| - 1] == '\n' then "\n" else "") == stdout
  {
    var parts := Split(stdout, '\n');
    var n := |parts|;
    var last := parts[n - 1];
    var lines := CandidateLines(stdout);
    var tail := if stdout != "" && stdout[|stdout| - 1] == '\n' then "\n" else "";
    if last == "" && n > 1 {
      assert lines == parts[..n - 1];
      assert tail == "\n" by {
        SplitLast(stdout, '\n');
      }
      assert Join(lines, '\n') + tail == stdout by {
        JoinSplit(stdout, '\n');
        InitLast(parts);
        JoinSnoc(parts[..n - 1], "", '\n');
      }
    } else if last == "" {
      assert stdout == "" && lines == [];
    } else {
      assert lines == parts;
      assert tail == "" by {
        SplitLast(stdout, '\n');
        assert '\n' !in last;
      }
      assert Join(lines, '\n') + tail == stdout by {
        JoinSplit(stdout, '\n');
      }
    }
  }

  /** Output made of newline-terminated lines gives back exactly those lines. */
  lemma CandidateLinesOfTerminated(lines: seq<string>)
    requires |lines| >= 1
    requires forall i | 0 <= i < |lines| :: '\n' !in lines[i]
    ensures CandidateLines(Join(lines, '\n') + "\n") == lines
  {
    JoinSnoc(lines, "", '\n');
    assert Join(lines, '\n') + "\n" == Join(lines + [""], '\n');
    SplitJoin(lines + [""], '\n');
    assert (lines + [""])[..|lines|] == lines;
  }

  /** One turn of the loop over the desired names. */
  function SearchStep(r: Run, name: string, env: Env): (r': Run)
  {
    if r.fault.Some? then r
    else
      var out := env.search(name);
      var w := r.written + (if env.accounting then ["Search results for " + name + ":", out.stdout] else []);
      var lines := CandidateLines(out.stdout);
      if |lines| == 0 then
        r.(written := w + (if env.accounting then ["No versions found.\n", Separator] else []))
      else
        var pick := if |lines| == 1 then Chosen(lines[0], r.next) else AskFrom(lines, env.answers, r.next);
        Conclude(r.(written := w), pick, out.stderr, env.accounting, env.dryRun)
  }

  /** The run over the first names, turn by turn in their order. */
  function SearchRun(names: seq<string>, env: Env): Run
    decreases |names|
  {
    if |names| == 0 then Start
    else SearchStep(SearchRun(names[..|names| - 1], env), names[|names| - 1], env)
  }

  /** The run over one more name is one more turn. */
  lemma RunStep(names: seq<string>, env: Env, i: nat)
    requires i < |names|
    ensures SearchRun(names[..i + 1], env) == SearchStep(SearchRun(names[..i], env), names[i], env)
  {
    assert names[..i + 1][..i] == names[..i];
  }

  /** Once an exception ends the run, the remaining names change nothing. */
  lemma {:induction false} FaultIsFinal(names: seq<string>, env: Env, i: nat)
    requires i <= |names|
    requires SearchRun(names[..i], env).fault.Some?
    ensures SearchRun(names, env) == SearchRun(names[..i], env)
    decreases |names|
  {
    if i < |names| {
      var init := names[..|names| - 1];
      assert init[..i] == names[..i];
      FaultIsFinal(init, env, i);
    } else {
      assert names[..i] == names;
    }
  }

  /** The body of the loop over the desired names, on the loop's own variables. */
  method SearchName(file: seq<string>, ghost selected: seq<string>, deps: seq<string>, next: nat,
                    name: string, env: Env)
    returns (file': seq<string>, ghost selected': seq<string>, deps': seq<string>, next': nat, fault: Option<Fault>)
    ensures Run(file', selected', deps', next', fault)
      == SearchStep(Run(file, selected, deps, next, None), name, env)
  {
    var out := env.search(name);
    var written := file;
    if env.accounting {
      written := written + ["Search results for " + name + ":", out.stdout];
    }
    var lines := CandidateLines(out.stdout);
    if |lines| == 0 {
      if env.accounting {
        written := written + ["No versions found.\n", Separator];
      }
      return written, selected, deps, next, None;
    }
    var pick := Chosen(lines[0], next);
    if |lines| > 1 {
      pick := AskUserWhichModule(lines, env.answers, next);
    }
    file', selected', deps', next', fault :=
      ConcludeChoice(written, selected, deps, next, pick, out.stderr, env.accounting, env.dryRun);
  }

  /**
   * `search_modules` after its commands have run: the chunks written to the
   * output file, and the set of dependencies returned in accounting mode,
   * `None` otherwise, or the exception that ended the run.
   */
  method SearchModules(names: seq<string>, env: Env) returns (written: seq<string>, outcome: Outcome)
    ensures written == SearchRun(names, env).written
    ensures outcome == Finish(SearchRun(names, env), env.accounting)
  {
    var file: seq<string> := [];
    var globalDeps: seq<string> := [];
    ghost var selected: seq<string> := [];
    var next: nat := 0;
    var i := 0;
    while i < |names|
      invariant 0 <= i <= |names|
      invariant SearchRun(names[..i], env) == Run(file, selected, globalDeps, next, None)
    {
      RunStep(names, env, i);
      var fault;
      file, selected, globalDeps, next, fault := SearchName(file, selected, globalDeps, next, names[i], env);
      if fault.Some? {
        FaultIsFinal(names, env, i + 1);
        return file, Aborted(fault.value);
      }
      i := i + 1;
    }
    assert names[..i] == names;
    written := file;
    outcome := if env.accounting then Completed(Some(set x | x in globalDeps)) else Completed(None);
  }

  /**
   * How one name is decided: no candidate, no selection; one candidate, it
   * is selected without reading an answer; several, the prompt decides.
   */
  lemma StepSelection(r: Run, name: string, env: Env)
    requires r.fault.None?
    ensures var lines := CandidateLines(env.search(name).stdout);
      var r' := SearchStep(r, name, env);
      && (|lines| == 0 ==> r'.selected == r.selected && r'.next == r.next && r'.fault.None?)
      && (|lines| == 1 ==> r'.selected == r.selected + [LastToken(lines[0])] && r'.next == r.next)
      && (|lines| >= 2 ==>
            match AskFrom(lines, env.answers, r.next)
            case Chosen(line, n) => r'.selected == r.selected + [LastToken(line)] && r'.next == n
            case Declined(n) => r'.selected == r.selected && r'.next == n && r'.fault.None?
            case Exhausted => r'.fault == Some(InputExhausted))
  {
  }

  /** One turn of a selection-only run keeps the results file in step with the selections. */
  lemma SelectionOnlyStep(r: Run, name: string, env: Env)
    requires !env.accounting && r.fault.None?
    requires r.written == ResultLines(r.selected) && r.deps == []
    ensures var r' := SearchStep(r, name, env);
      && r'.written == ResultLines(r'.selected)
      && |r.selected| <= |r'.selected| <= |r.selected| + 1
      && r'.deps == []
      && (r'.fault.Some? ==> r'.fault.value == InputExhausted)
  {
    var r' := SearchStep(r, name, env);
    if |r'.selected| > |r.selected| {
      ResultLinesSnoc(r.selected, r'.selected[|r.selected|]);
    }
  }

  /**
   * In selection-only mode the output file holds exactly the selected
   * identifiers, one per line, at most one per desired name, and the only
   * exception is running out of answers.
   */
  lemma {:induction false} SelectionOnlyFile(names: seq<string>, env: Env)
    requires !env.accounting
    ensures var r := SearchRun(names, env);
      && r.written == ResultLines(r.selected)
      && |r.selected| <= |names|
      && r.deps == []
      && (r.fault.Some? ==> r.fault.value == InputExhausted)
    decreases |names|
  {
    if |names| > 0 {
      var init := names[..|names| - 1];
      SelectionOnlyFile(init, env);
      if SearchRun(init, env).fault.None? {
        SelectionOnlyStep(SearchRun(init, env), names[|names| - 1], env);
      }
    }
  }

  /** The search for `name` yields exactly one candidate line. */
  predicate SoleCandidate(name: string, env: Env) {
    |CandidateLines(env.search(name).stdout)| == 1
  }

  /** The identifier taken from the only candidate line. */
  function SoleChoice(name: string, env: Env): string
    requires SoleCandidate(name, env)
  {
    LastToken(CandidateLines(env.search(name).stdout)[0])
  }

  /** A single candidate is taken without reading an answer. */
  lemma SoleCandidateStep(r: Run, name: string, env: Env)
    requires !env.accounting && r.fault.None? && SoleCandidate(name, env)
    ensures SearchStep(r, name, env)
      == r.(written := r.written + [SoleChoice(name, env) + "\n"], selected := r.selected + [SoleChoice(name, env)])
  {
  }

  /** The identifiers of the sole candidates of the names, in order. */
  function SoleChoices(names: seq<string>, env: Env): (ids: seq<string>)
    requires forall i | 0 <= i < |names| :: SoleCandidate(names[i], env)
    ensures |ids| == |names|
    decreases |names|
  {
    if |names| == 0 then []
    else SoleChoices(names[..|names| - 1], env) + [SoleChoice(names[|names| - 1], env)]
  }

  /** Each name contributes the identifier of its own candidate. */
  lemma {:induction false} SoleChoicesAt(names: seq<string>, env: Env, i: nat)
    requires forall i | 0 <= i < |names| :: SoleCandidate(names[i], env)
    requires i < |names|
    ensures SoleChoices(names, env)[i] == SoleChoice(names[i], env)
    decreases |names|
  {
    if i < |names| - 1 {
      var init := names[..|names| - 1];
      assert init[i] == names[i];
      SoleChoicesAt(init, env, i);
    }
  }

  /**
   * When every desired name has exactly one candidate, a selection-only run
   * writes the identifier of each, in the order of the names, and reads no
   * answer.
   */
  lemma {:induction false} SingleCandidates(names: seq<string>, env: Env)
    requires !env.accounting
    requires forall i | 0 <= i < |names| :: SoleCandidate(names[i], env)
    ensures var r := SearchRun(names, env);
      && r.fault.None? && r.next == 0
      && r.selected == SoleChoices(names, env)
      && r.written == ResultLines(SoleChoices(names, env))
    decreases |names|
  {
    if |names| > 0 {
      var init := names[..|names| - 1];
      assert forall i | 0 <= i < |init| :: init[i] == names[i];
      SingleCandidates(init, env);
      var r := SearchRun(init, env);
      var last := names[|names| - 1];
      SoleCandidateStep(r, last, env);
      ResultLinesSnoc(r.selected, SoleChoice(last, env));
    }
  }

  /**
   * In accounting mode a run that ends normally has gathered, in order, the
   * dependencies of the dry runs of exactly the selected identifiers.
   */
  lemma {:induction false} AccountingGathers(names: seq<string>, env: Env)
    requires env.accounting
    requires SearchRun(names, env).fault.None?
    ensures SearchRun(names, env).deps == Gathered(SearchRun(names, env).selected, env.dryRun)
    decreases |names|
  {
    if |names| > 0 {
      var init := names[..|names| - 1];
      AccountingGathers(init, env);
      StepGathers(SearchRun(init, env), names[|names| - 1], env);
    }
  }

  /** One accounting turn that raises nothing keeps the dependencies those of the selected identifiers. */
  lemma StepGathers(r: Run, name: string, env: Env)
    requires env.accounting
    requires r.fault.None? ==> r.deps == Gathered(r.selected, env.dryRun)
    requires SearchStep(r, name, env).fault.None?
    ensures SearchStep(r, name, env).deps == Gathered(SearchStep(r, name, env).selected, env.dryRun)
  {
    var out := env.search(name);
    var w := r.written + ["Search results for " + name + ":", out.stdout];
    var lines := CandidateLines(out.stdout);
    if r.fault.None? && |lines| > 0 {
      var pick := if |lines| == 1 then Chosen(lines[0], r.next) else AskFrom(lines, env.answers, r.next);
      ConcludeGathers(r.(written := w), pick, out.stderr, env.dryRun);
    }
  }

  /**
   * What an accounting run returns: a dependency is in the returned set
   * exactly when the dry run of some selected identifier lists it.
   */
  lemma ReturnedDependencies(names: seq<string>, env: Env, x: string)
    requires env.accounting
    requires Finish(SearchRun(names, env), true).Completed?
    ensures var r := SearchRun(names, env);
      x in Finish(r, true).dependencies.value <==>
        exists j | 0 <= j < |r.selected| ::
          DependenciesOf(env.dryRun(r.selected[j])).Ok? && x in DependenciesOf(env.dryRun(r.selected[j])).value
  {
    AccountingGathers(names, env);
    GatheredMembers(SearchRun(names, env).selected, env.dryRun, x);
  }

  /** A selection-only run never looks at a dry run. */
  lemma {:induction false} SelectionOnlyIgnoresDryRun(names: seq<string>, env: Env, other: string -> ToolOutput)
    requires !env.accounting
    ensures SearchRun(names, env) == SearchRun(names, env.(dryRun := other))
    decreases |names|
  {
    if |names| > 0 {
      SelectionOnlyIgnoresDryRun(names[..|names| - 1], env, other);
    }
  }
}
