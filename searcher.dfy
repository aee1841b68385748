/**
 * `search_modules` of `searcher.py`, the variant that keeps every piece of
 * `stdout.split("\n")`: a name has no versions when the output holds no
 * newline, the first piece is taken without a prompt when there are exactly
 * two pieces, and from three pieces on the prompt offers all of them,
 * including the empty piece after a final newline.
 */
module Searcher {
  import opened Wrappers
  import opened Text
  import opened Prompt
  import opened Recipes

  /** One turn of the loop over the desired names. */
  function SearchStep(r: Run, name: string, env: Env): (r': Run)
  {
    if r.fault.Some? then r
    else
      var out := env.search(name);
      var w := r.written + (if env.accounting then ["Search results for " + name + ":\n", out.stdout] else []);
      var lines := Split(out.stdout, '\n');
      if |lines| - 1 == 0 then
        r.(written := w + (if env.accounting then ["No versions found.\n", Separator] else []))
      else
        var pick := if |lines| > 2 then AskFrom(lines, env.answers, r.next) else Chosen(lines[0], r.next);
        Conclude(r.(written := w), pick, out.stderr, env.accounting, env.dryRun)
  }

  /** The run over the first names, turn by turn in their order. */
  function SearchRun(names: seq<string>, env: Env): Run
    decreases |names|
  {
    if |names| == 0 then Start
    else SearchStep(SearchRun(names[..|names| - 1], env), names[|names| - 1], env)
  }

  /** The run over one more name is one more turn. */
  lemma RunStep(names: seq<string>, env: Env, i: nat)
    requires i < |names|
    ensures SearchRun(names[..i + 1], env) == SearchStep(SearchRun(names[..i], env), names[i], env)
  {
    assert names[..i + 1][..i] == names[..i];
  }

  /** Once an exception ends the run, the remaining names change nothing. */
  lemma {:induction false} FaultIsFinal(names: seq<string>, env: Env, i: nat)
    requires i <= |names|
    requires SearchRun(names[..i], env).fault.Some?
    ensures SearchRun(names, env) == SearchRun(names[..i], env)
    decreases |names|
  {
    if i < |names| {
      var init := names[..|names| - 1];
      assert init[..i] == names[..i];
      FaultIsFinal(init, env, i);
    } else {
      assert names[..i] == names;
    }
  }

  /** The body of the loop over the desired names, on the loop's own variables. */
  method SearchName(file: seq<string>, ghost selected: seq<string>, deps: seq<string>, next: nat,
                    name: string, env: Env)
    returns (file': seq<string>, ghost selected': seq<string>, deps': seq<string>, next': nat, fault: Option<Fault>)
    ensures Run(file', selected', deps', next', fault)
      == SearchStep(Run(file, selected, deps, next, None), name, env)
  {
    var out := env.search(name);
    var written := file;
    if env.accounting {
      written := written + ["Search results for " + name + ":\n", out.stdout];
    }
    var lines := Split(out.stdout, '\n');
    if |lines| - 1 == 0 {
      if env.accounting {
        written := written + ["No versions found.\n", Separator];
      }
      return written, selected, deps, next, None;
    }
    var pick := Chosen(lines[0], next);
    if |lines| > 2 {
      pick := AskUserWhichModule(lines, env.answers, next);
    }
    file', selected', deps', next', fault :=
      ConcludeChoice(written, selected, deps, next, pick, out.stderr, env.accounting, env.dryRun);
  }

  /**
   * `search_modules` after its commands have run: the chunks written to the
   * output file, and the set of dependencies returned in accounting mode,
   * `None` otherwise, or the exception that ended the run.
   */
  method SearchModules(names: seq<string>, env: Env) returns (written: seq<string>, outcome: Outcome)
    ensures written == SearchRun(names, env).written
    ensures outcome == Finish(SearchRun(names, env), env.accounting)
  {
    var file: seq<string> := [];
    var globalDeps: seq<string> := [];
    ghost var selected: seq<string> := [];
    var next: nat := 0;
    var i := 0;
    while i < |names|
      invariant 0 <= i <= |names|
      invariant SearchRun(names[..i], env) == Run(file, selected, globalDeps, next, None)
    {
      RunStep(names, env, i);
      var fault;
      file, selected, globalDeps, next, fault := SearchName(file, selected, globalDeps, next, names[i], env);
      if fault.Some? {
        FaultIsFinal(names, env, i + 1);
        return file, Aborted(fault.value);
      }
      i := i + 1;
    }
    assert names[..i] == names;
    written := file;
    outcome := if env.accounting then Completed(Some(set x | x in globalDeps)) else Completed(None);
  }

  /**
   * How one name is decided: an output without a newline counts as no
   * versions; with exactly one newline the text before it is selected
   * without a prompt, whatever follows; from two newlines on the prompt
   * decides among all the pieces.
   */
  lemma StepSelection(r: Run, name: string, env: Env)
    requires r.fault.None?
    ensures var out := env.search(name).stdout;
      var lines := Split(out, '\n');
      var r' := SearchStep(r, name, env);
      && ('\n' !in out ==> r'.selected == r.selected && r'.next == r.next && r'.fault.None?)
      && (|lines| == 2 ==> r'.selected == r.selected + [LastToken(lines[0])] && r'.next == r.next)
      && (|lines| > 2 ==>
            match AskFrom(lines, env.answers, r.next)
            case Chosen(line, n) => r'.selected == r.selected + [LastToken(line)] && r'.next == n
            case Declined(n) => r'.selected == r.selected && r'.next == n && r'.fault.None?
            case Exhausted => r'.fault == Some(InputExhausted))
  {
  }

  /**
   * An output of `k` newline-terminated candidate lines splits into those
   * lines and one empty piece, so from two candidates on the prompt offers
   * `k + 1` choices, the last of them empty.
   */
  lemma TerminatedOutputPieces(candidates: seq<string>)
    requires |candidates| >= 1
    requires forall i | 0 <= i < |candidates| :: '\n' !in candidates[i]
    ensures Split(Join(candidates, '\n') + "\n", '\n') == candidates + [""]
  {
    JoinSnoc(candidates, "", '\n');
    assert Join(candidates, '\n') + "\n" == Join(candidates + [""], '\n');
    SplitJoin(candidates + [""], '\n');
  }

  /** Answering one more than the number of candidates picks the empty piece. */
  lemma ExtraChoiceIsEmpty(candidates: seq<string>, answers: seq<Option<int>>, k: nat)
    requires k < |answers| && answers[k] == Some(|candidates| + 1)
    ensures AskFrom(candidates + [""], answers, k) == Chosen("", k + 1)
  {
    assert (candidates + [""])[|candidates|] == "";
  }

  /**
   * Choosing the extra, empty choice selects an empty identifier: a
   * selection-only run then writes a line holding only the newline.
   */
  lemma EmptyChoiceWritesBlankLine(r: Run, name: string, env: Env, candidates: seq<string>)
    requires r.fault.None? && !env.accounting
    requires |candidates| >= 2
    requires forall i | 0 <= i < |candidates| :: '\n' !in candidates[i]
    requires env.search(name).stdout == Join(candidates, '\n') + "\n"
    requires r.next < |env.answers| && env.answers[r.next] == Some(|candidates| + 1)
    ensures SearchStep(r, name, env).selected == r.selected + [""]
    ensures SearchStep(r, name, env).written == r.written + ["\n"]
  {
    var lines := candidates + [""];
    assert Split(env.search(name).stdout, '\n') == lines by {
      TerminatedOutputPieces(candidates);
    }
    assert AskFrom(lines, env.answers, r.next) == Chosen("", r.next + 1) by {
      ExtraChoiceIsEmpty(candidates, env.answers, r.next);
    }
    StepPicks(r, name, env, Chosen("", r.next + 1));
    assert LastToken("") == "" && "" + "\n" == "\n";
  }

  /** A selection-only turn with more than one candidate line concludes with the operator's answer. */
  lemma StepPicks(r: Run, name: string, env: Env, pick: Answer)
    requires r.fault.None? && !env.accounting
    requires |Split(env.search(name).stdout, '\n')| > 2
    requires AskFrom(Split(env.search(name).stdout, '\n'), env.answers, r.next) == pick
    ensures SearchStep(r, name, env) == Conclude(r, pick, env.search(name).stderr, false, env.dryRun)
  {
    assert r.(written := r.written + []) == r;
  }

  /** One turn of a selection-only run keeps the results file in step with the selections. */
  lemma SelectionOnlyStep(r: Run, name: string, env: Env)
    requires !env.accounting && r.fault.None?
    requires r.written == ResultLines(r.selected) && r.deps == []
    ensures var r' := SearchStep(r, name, env);
      && r'.written == ResultLines(r'.selected)
      && |r.selected| <= |r'.selected| <= |r.selected| + 1
      && r'.deps == []
      && (r'.fault.Some? ==> r'.fault.value == InputExhausted)
  {
    var r' := SearchStep(r, name, env);
    if |r'.selected| > |r.selected| {
      ResultLinesSnoc(r.selected, r'.selected[|r.selected|]);
    }
  }

  /**
   * In selection-only mode the output file holds exactly the selected
   * identifiers, one per line, at most one per desired name, and the only
   * exception is running out of answers.
   */
  lemma {:induction false} SelectionOnlyFile(names: seq<string>, env: Env)
    requires !env.accounting
    ensures var r := SearchRun(names, env);
      && r.written == ResultLines(r.selected)
      && |r.selected| <= |names|
      && r.deps == []
      && (r.fault.Some? ==> r.fault.value == InputExhausted)
    decreases |names|
  {
    if |names| > 0 {
      var init := names[..|names| - 1];
      SelectionOnlyFile(init, env);
      if SearchRun(init, env).fault.None? {
        SelectionOnlyStep(SearchRun(init, env), names[|names| - 1], env);
      }
    }
  }

  /**
   * In accounting mode a run that ends normally has gathered, in order, the
   * dependencies of the dry runs of exactly the selected identifiers.
   */
  lemma {:induction false} AccountingGathers(names: seq<string>, env: Env)
    requires env.accounting
    requires SearchRun(names, env).fault.None?
    ensures SearchRun(names, env).deps == Gathered(SearchRun(names, env).selected, env.dryRun)
    decreases |names|
  {
    if |names| > 0 {
      var init := names[..|names| - 1];
      AccountingGathers(init, env);
      StepGathers(SearchRun(init, env), names[|names| - 1], env);
    }
  }

  /** One accounting turn that raises nothing keeps the dependencies those of the selected identifiers. */
  lemma StepGathers(r: Run, name: string, env: Env)
    requires env.accounting
    requires r.fault.None? ==> r.deps == Gathered(r.selected, env.dryRun)
    requires SearchStep(r, name, env).fault.None?
    ensures SearchStep(r, name, env).deps == Gathered(SearchStep(r, name, env).selected, env.dryRun)
  {
    var out := env.search(name);
    var w := r.written + ["Search results for " + name + ":\n", out.stdout];
    var lines := Split(out.stdout, '\n');
    if r.fault.None? && |lines| - 1 != 0 {
      var pick := if |lines| > 2 then AskFrom(lines, env.answers, r.next) else Chosen(lines[0], r.next);
      ConcludeGathers(r.(written := w), pick, out.stderr, env.dryRun);
    }
  }

  /**
   * What an accounting run returns: the union of the dependency lists of
   * the selected identifiers.
   */
  lemma ReturnedDependencies(names: seq<string>, env: Env, x: string)
    requires env.accounting
    requires Finish(SearchRun(names, env), true).Completed?
    ensures var r := SearchRun(names, env);
      x in Finish(r, true).dependencies.value <==>
        exists j | 0 <= j < |r.selected| ::
          DependenciesOf(env.dryRun(r.selected[j])).Ok? && x in DependenciesOf(env.dryRun(r.selected[j])).value
  {
    AccountingGathers(names, env);
    GatheredMembers(SearchRun(names, env).selected, env.dryRun, x);
  }
}
