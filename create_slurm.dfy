/**
 * `generate_slurm_script` of `easybuild_create_slurm.py`: a single job that
 * hands every recipe to one EasyBuild call, which submits the builds as
 * jobs itself (or only does a dry run).  The constant header and trailer
 * lines are left out; the lines below are the ones that depend on the
 * inputs, in the order they are written.
 */
module CreateSlurm {
  import opened Wrappers
  import opened Text
  import opened Recipes
  import opened Slurm
  import ModuleSearch

  /** The EasyBuild call before its options: submit as jobs, or dry run. */
  function BaseCommand(dryRun: bool): string {
    if !dryRun then "eb ${EBFILES[@]} --robot --job" else "eb ${EBFILES[@]} --robot -D"
  }

  /** The job options that carry the configured core count and wall time, pasted in as given. */
  function JobOptions(jobCores: string, maxWalltime: string): string {
    " --job-cores=" + jobCores + " --job-max-walltime=" + maxWalltime
  }

  /** The options after them, and the redirection of EasyBuild's output to a per-job log. */
  const Trailer: string :=
    " --job-backend-config=slurm --trace --accept-eula-for=CUDA --accept-eula-for=Intel-oneAPI > logs/eb-log-{#}.log'\n"

  /** The `COMMAND=` line. */
  function CommandLine(dryRun: bool, jobCores: string, maxWalltime: string): string {
    "COMMAND='" + BaseCommand(dryRun) + JobOptions(jobCores, maxWalltime) + Trailer
  }

  /**
   * `generate_slurm_script`: nothing at all for an empty list, otherwise the
   * `EBFILES` line and the `COMMAND` line.  The core count and wall time
   * are the module-level settings, passed in.
   */
  method GenerateSlurmScript(ebFiles: seq<string>, dryRun: bool, jobCores: string, maxWalltime: string)
    returns (script: Option<seq<string>>)
    ensures script.None? <==> |ebFiles| == 0
    ensures script.Some? ==>
      script.value == [EbFilesLine(ebFiles), CommandLine(dryRun, jobCores, maxWalltime)]
  {
    if |ebFiles| == 0 {
      return None;
    }
    var writes: seq<string> := [];
    writes := writes + ["EBFILES=(" + Join(Quoted(ebFiles), ' ') + ")\n"];
    var command := BaseCommand(dryRun);
    writes := writes + ["COMMAND='" + command + JobOptions(jobCores, maxWalltime) + Trailer];
    return Some(writes);
  }

  /**
   * The command submits jobs exactly when it is not a dry run: the job
   * submission call is the only one with `--job` right after `--robot`.
   * The core count and wall time appear verbatim as option values, just
   * after the call.
   */
  lemma CommandLineShape(dryRun: bool, jobCores: string, maxWalltime: string)
    ensures var line := CommandLine(dryRun, jobCores, maxWalltime);
      && "COMMAND='" + BaseCommand(dryRun) + JobOptions(jobCores, maxWalltime) <= line
      && Contains(line, JobOptions(jobCores, maxWalltime))
    ensures ("eb ${EBFILES[@]} --robot --job" == BaseCommand(dryRun)) <==> !dryRun
  {
    var head := "COMMAND='" + BaseCommand(dryRun);
    ContainsInfix(head, JobOptions(jobCores, maxWalltime), Trailer);
  }

  /**
   * The two scripts of the pipeline fit together: a selection-only search
   * whose selected identifiers are non-empty and free of white space writes
   * a results file that `read_eb_paths` reads back as exactly those
   * identifiers, in the order of the desired names.
   */
  lemma SearchThenRead(names: seq<string>, env: Env)
    requires !env.accounting
    requires forall i | 0 <= i < |ModuleSearch.SearchRun(names, env).selected| ::
      ModuleSearch.SearchRun(names, env).selected[i] != "" && NoSpace(ModuleSearch.SearchRun(names, env).selected[i])
    ensures ReadEbPaths(Concat(ModuleSearch.SearchRun(names, env).written)) == ModuleSearch.SearchRun(names, env).selected
  {
    var r := ModuleSearch.SearchRun(names, env);
    ModuleSearch.SelectionOnlyFile(names, env);
    ReadBackResults(r.selected);
  }
}
