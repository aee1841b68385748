/**
 * `generate_slurm_script` of `slurm_creator.py`: a job array with one task
 * per recipe, each task building the recipe its index selects.  The
 * constant header lines are left out; the lines below are the ones that
 * depend on the inputs, in the order they are written.
 */
module SlurmCreator {
  import opened Wrappers
  import opened Text
  import opened Slurm

  /** `#SBATCH --array=0-{num_files-1}` for a non-empty list of `n` files. */
  function ArrayDirective(n: nat): string
    requires n >= 1
  {
    "#SBATCH --array=0-" + NatToString(n - 1) + "\n"
  }

  /** The bash variable that holds a task's number within the array. */
  const TaskVariable: string := "$SLURM_ARRAY_TASK_ID"

  /** The subscript a task's command uses to pick its recipe from `EBFILES`. */
  const TaskSubscript: string := TaskVariable + "-1"

  /** The recipe reference in a task's command: `EBFILES` at each task's subscript. */
  const TaskRecipe: string := "${EBFILES[" + TaskSubscript + "]}"

  /** The EasyBuild call of one task: a dry run, or a build on a task's CPUs. */
  function TaskCommand(dryRun: bool): string {
    if dryRun then "eb " + TaskRecipe + " --robot -D\n"
    else "eb " + TaskRecipe + " --robot -j $SLURM_CPUS_PER_TASK\n"
  }

  /**
   * `generate_slurm_script`: nothing at all for an empty list, otherwise the
   * array directive, the `EBFILES` line and a task's command.
   */
  method GenerateSlurmScript(ebFiles: seq<string>, dryRun: bool) returns (script: Option<seq<string>>)
    ensures script.None? <==> |ebFiles| == 0
    ensures script.Some? ==>
      script.value == [ArrayDirective(|ebFiles|), EbFilesLine(ebFiles), TaskCommand(dryRun)]
  {
    if |ebFiles| == 0 {
      return None;
    }
    var numFiles := |ebFiles|;
    var writes: seq<string> := [];
    writes := writes + ["#SBATCH --array=0-" + NatToString(numFiles - 1) + "\n"];
    writes := writes + ["EBFILES=(" + Join(Quoted(ebFiles), ' ') + ")\n"];
    if dryRun {
      writes := writes + ["eb " + TaskRecipe + " --robot -D\n"];
    } else {
      writes := writes + ["eb " + TaskRecipe + " --robot -j $SLURM_CPUS_PER_TASK\n"];
    }
    return Some(writes);
  }

  /** The directive's upper bound reads back as `n - 1`: tasks are numbered 0 to `n - 1`. */
  lemma ArrayDirectiveRange(n: nat)
    requires n >= 1
    ensures var d := ArrayDirective(n);
      && "#SBATCH --array=0-" <= d
      && d[|d| - 1] == '\n'
      && DecimalValue(d[18..|d| - 1]) == n - 1
    ensures LastTask(n) == n - 1
  {
    var d := ArrayDirective(n);
    assert d[18..|d| - 1] == NatToString(n - 1);
    NatToStringRoundTrip(n - 1);
  }

  /** The highest task number, read back from the text of the array directive. */
  function LastTask(n: nat): nat
    requires n >= 1
  {
    var d := ArrayDirective(n);
    assert d[18..|d| - 1] == NatToString(n - 1);
    DecimalValue(d[18..|d| - 1])
  }

  /**
   * The subscripts bash arithmetic is modelled for: the array task variable alone,
   * or minus a decimal number.
   */
  predicate TaskArithmetic(sub: string) {
    || sub == TaskVariable
    || (&& |sub| > |TaskVariable| + 1
        && sub[..|TaskVariable| + 1] == TaskVariable + "-"
        && forall i | |TaskVariable| + 1 <= i < |sub| :: '0' <= sub[i] <= '9')
  }

  /** The value such a subscript has in task `t`. */
  function SubscriptValue(sub: string, t: nat): int
    requires TaskArithmetic(sub)
  {
    if sub == TaskVariable then t
    else
      var digits := sub[|TaskVariable| + 1..];
      assert forall i | 0 <= i < |digits| :: digits[i] == sub[|TaskVariable| + 1 + i];
      t - DecimalValue(digits)
  }

  /** The subscript written into each task's command is of that form. */
  lemma TaskSubscriptForm()
    ensures TaskArithmetic(TaskSubscript)
  {
    assert TaskSubscript[..|TaskVariable| + 1] == TaskVariable + "-";
  }

  /** The array index task `t` asks for, evaluated from the subscript in its command. */
  function TaskIndex(t: nat): int {
    TaskSubscriptForm();
    SubscriptValue(TaskSubscript, t)
  }

  /** That index is one less than that task's number. */
  lemma TaskIndexValue(t: nat)
    ensures TaskIndex(t) == t - 1
  {
    TaskSubscriptForm();
    var digits := TaskSubscript[|TaskVariable| + 1..];
    assert digits == "1";
    assert DecimalValue(digits) == 1 by {
      assert digits[..0] == "";
    }
  }

  /** Every task's command refers to `EBFILES` at that subscript. */
  lemma TaskCommandRecipe(dryRun: bool)
    ensures Contains(TaskCommand(dryRun), "${EBFILES[" + TaskSubscript + "]}")
  {
    if dryRun {
      ContainsInfix("eb ", TaskRecipe, " --robot -D\n");
    } else {
      ContainsInfix("eb ", TaskRecipe, " --robot -j $SLURM_CPUS_PER_TASK\n");
    }
  }

  /**
   * Over all tasks numbered by the directive, 0 to `n - 1`, the indices asked
   * for are exactly -1 to `n - 2`: the first task asks for index -1, and no
   * task asks for the last file's own index `n - 1`.
   */
  lemma TaskIndices(n: nat, i: int)
    requires n >= 1
    ensures (exists t | 0 <= t <= LastTask(n) :: TaskIndex(t) == i) <==> -1 <= i <= n - 2
    ensures forall t | 0 <= t <= LastTask(n) :: TaskIndex(t) != n - 1
  {
    ArrayDirectiveRange(n);
    forall t: nat
      ensures TaskIndex(t) == t - 1
    {
      TaskIndexValue(t);
    }
    if -1 <= i <= n - 2 {
      assert TaskIndex(i + 1) == i;
    }
  }

  /**
   * The element a bash array subscript selects: a negative subscript counts
   * back from the end (bash 4.3 and later).
   */
  function BashElement(i: int, n: nat): (k: int)
    requires n >= 1 && 0 <= n + i && i < n
    ensures 0 <= k < n
  {
    if i < 0 then n + i else i
  }

  /**
   * With bash's negative subscripts every file is still built by exactly one
   * of all tasks numbered by the directive: task 0 takes the last file and task
   * `t > 0` the file at `t - 1`.
   */
  lemma EachFileOnce(n: nat, k: nat)
    requires n >= 1 && k < n
    ensures forall t | 0 <= t <= LastTask(n) :: 0 <= n + TaskIndex(t) && TaskIndex(t) < n
    ensures exists t | 0 <= t <= LastTask(n) :: BashElement(TaskIndex(t), n) == k
    ensures forall t, u | 0 <= t <= LastTask(n) && 0 <= u <= LastTask(n) &&
      BashElement(TaskIndex(t), n) == k && BashElement(TaskIndex(u), n) == k :: t == u
  {
    ArrayDirectiveRange(n);
    forall t: nat
      ensures TaskIndex(t) == t - 1
    {
      TaskIndexValue(t);
    }
    if k == n - 1 {
      assert BashElement(TaskIndex(0), n) == k;
    } else {
      assert BashElement(TaskIndex(k + 1), n) == k;
    }
  }
}
