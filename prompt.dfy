/**
 * The disambiguation prompt `ask_user_which_module`: it shows the numbered
 * candidates, reads a number, and repeats until the operator picks a
 * candidate or answers 0.  The operator is a scripted sequence of answers,
 * each already run through `int()`: `None` stands for text that `int()`
 * rejects.  Reading past the end of the script is `input()` hitting end of
 * file, which raises and is not caught.
 */
module Prompt {
  import opened Wrappers
  import opened Text

  /** What the prompt returns, with the position of the next unread answer. */
  datatype Answer =
    | Chosen(line: string, next: nat)
    | Declined(next: nat)
    | Exhausted

  /** An answer the prompt refuses with "Invalid choice" and asks again. */
  predicate Rejected(a: Option<int>, count: nat) {
    a.None? || (a.value != 0 && (a.value < 1 || a.value > count))
  }

  /**
   * The prompt loop over the answers from position `k` on: the first answer
   * that is not rejected decides.
   */
  function AskFrom(candidates: seq<string>, script: seq<Option<int>>, k: nat): (a: Answer)
    ensures a.Chosen? ==>
      && k < a.next <= |script|
      && script[a.next - 1].Some?
      && 1 <= script[a.next - 1].value <= |candidates|
      && a.line == candidates[script[a.next - 1].value - 1]
    ensures a.Declined? ==> k < a.next <= |script| && script[a.next - 1] == Some(0)
    ensures a.Exhausted? ==> forall j | k <= j < |script| :: Rejected(script[j], |candidates|)
    ensures !a.Exhausted? ==> forall j | k <= j < a.next - 1 :: Rejected(script[j], |candidates|)
    decreases |script| - k
  {
    if k >= |script| then Exhausted
    else match script[k]
      case None => AskFrom(candidates, script, k + 1)
      case Some(n) =>
        if n == 0 then Declined(k + 1)
        else if n < 1 || n > |candidates| then AskFrom(candidates, script, k + 1)
        else Chosen(candidates[n - 1], k + 1)
  }

  /**
   * The `while True` loop of `ask_user_which_module`, reading the script from
   * position `k`.  The menu it shows each round is left out; what it shows
   * for a line is `DisplayLine`, which the returned value never goes through.
   */
  method AskUserWhichModule(candidates: seq<string>, script: seq<Option<int>>, k: nat)
    returns (a: Answer)
    ensures a == AskFrom(candidates, script, k)
  {
    var i := k;
    while i < |script|
      invariant AskFrom(candidates, script, k) == AskFrom(candidates, script, i)
      decreases |script| - i
    {
      var choice := script[i];
      if choice.Some? {
        var n := choice.value;
        if n == 0 {
          return Declined(i + 1);
        }
        if 1 <= n <= |candidates| {
          return Chosen(candidates[n - 1], i + 1);
        }
      }
      i := i + 1;
    }
    return Exhausted;
  }

  /**
   * How a candidate is shown when a path filter is given: the filter followed
   * by the last piece of the line split at the filter, which is what comes
   * after the filter's last occurrence found scanning left to right.
   */
  function DisplayLine(line: string, pathFilter: string): (shown: string)
    ensures pathFilter == [] ==> shown == line
    ensures pathFilter != [] ==>
      && |pathFilter| <= |shown| <= |pathFilter| + |line| && shown[..|pathFilter|] == pathFilter
      && line[|line| - (|shown| - |pathFilter|)..] == shown[|pathFilter|..]
      && !Contains(shown[|pathFilter|..], pathFilter)
    ensures pathFilter != [] && !Contains(line, pathFilter) ==> shown == pathFilter + line
    ensures pathFilter != [] ==>
      shown == pathFilter + Last(SplitOn(line, pathFilter))
  {
    if pathFilter == [] then line
    else
      var tail := AfterLast(line, pathFilter);
      AfterLastFree(line, pathFilter);
      AfterLastIsLastPiece(line, pathFilter);
      assert (pathFilter + tail)[|pathFilter|..] == tail;
      pathFilter + tail
  }
}
