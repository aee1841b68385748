/**
 * `validator.py`: every keyword of the table is tried on every line, so one
 * line can add several labels, in table order.  There is no generic "error"
 * check, and the fallback label is guarded by a condition that cannot hold.
 */
module Validator {
  import opened Wrappers
  import opened Text
  import opened Logs

  /** The keyword table, in the order the dictionary is iterated. */
  const Keywords: seq<(string, string)> := [
    ("Checksum verification", "Checksum failure"),
    ("Sanity check failed:", "Sanity check failure"),
    ("make check", "Make check failure")
  ]

  const Generic: string := "Other installation error"

  /** The labels of the first `k` keywords of the table that occur in the line, in table order. */
  function LabelsUpTo(line: string, k: nat): seq<string>
    requires k <= |Keywords|
  {
    if k == 0 then []
    else LabelsUpTo(line, k - 1) + (if Contains(line, Keywords[k - 1].0) then [Keywords[k - 1].1] else [])
  }

  /** The labels one line contributes. */
  function LineLabels(line: string): seq<string> {
    LabelsUpTo(line, |Keywords|)
  }

  /** The labels of all the lines, line after line, repeats included. */
  function AllLabels(lines: seq<string>): seq<string>
    decreases |lines|
  {
    if |lines| == 0 then []
    else AllLabels(lines[..|lines| - 1]) + LineLabels(lines[|lines| - 1])
  }

  /** The verdict for one log. */
  function Classify(log: LogFile): Classification {
    var labels := AllLabels(log.lines);
    Classification(ModuleNameOf(log.basename), if |labels| > 0 then Failed else Valid, Dedup(labels))
  }

  /** Adding a label to the collected ones is `Dedup` of one more label. */
  lemma DedupSnoc(s: seq<string>, x: string)
    ensures Dedup(s + [x]) == AddOnce(Dedup(s), x)
  {
    assert (s + [x])[..|s|] == s;
  }

  /**
   * Trying keyword `j` on a line adds its label to the summary so far, unless
   * it is already there, when the line contains the keyword; otherwise the
   * labels stay as they were.
   */
  lemma KeywordStep(seen: seq<string>, line: string, j: nat, summary: seq<string>)
    requires j < |Keywords|
    requires summary == Dedup(seen + LabelsUpTo(line, j))
    ensures var after := seen + LabelsUpTo(line, j + 1);
      var tag := Keywords[j].1;
      && (Contains(line, Keywords[j].0) ==>
            |after| > 0 && Dedup(after) == (if tag in summary then summary else summary + [tag]))
      && (!Contains(line, Keywords[j].0) ==> after == seen + LabelsUpTo(line, j))
  {
    if Contains(line, Keywords[j].0) {
      assert seen + LabelsUpTo(line, j + 1) == (seen + LabelsUpTo(line, j)) + [Keywords[j].1];
      DedupSnoc(seen + LabelsUpTo(line, j), Keywords[j].1);
    } else {
      assert LabelsUpTo(line, j + 1) == LabelsUpTo(line, j) + [];
    }
  }

  /** The labels of one more line follow those of the lines before it. */
  lemma AllLabelsStep(lines: seq<string>, i: nat)
    requires i < |lines|
    ensures AllLabels(lines[..i + 1]) == AllLabels(lines[..i]) + LineLabels(lines[i])
  {
    assert lines[..i + 1][..i] == lines[..i];
  }

  /**
   * The inner loop of the scan: every keyword of the table tried on one
   * line, with no early exit, on top of the labels `seen` so far.
   */
  method ScanLine(line: string, ghost seen: seq<string>, summary: seq<string>, status: Status, found: bool)
    returns (summary': seq<string>, status': Status, found': bool)
    requires summary == Dedup(seen)
    requires status == (if |seen| > 0 then Failed else Valid)
    requires found <==> status == Failed
    ensures summary' == Dedup(seen + LineLabels(line))
    ensures status' == (if |seen + LineLabels(line)| > 0 then Failed else Valid)
    ensures found' <==> status' == Failed
  {
    summary', status', found' := summary, status, found;
    assert seen + LabelsUpTo(line, 0) == seen;
    var j := 0;
    while j < |Keywords|
      invariant 0 <= j <= |Keywords|
      invariant summary' == Dedup(seen + LabelsUpTo(line, j))
      invariant status' == (if |seen + LabelsUpTo(line, j)| > 0 then Failed else Valid)
      invariant found' <==> status' == Failed
    {
      summary', status', found' := TryKeyword(line, j, seen, summary', status', found');
      j := j + 1;
    }
  }

  /** The body of the inner loop: keyword `j` tried on the line. */
  method TryKeyword(line: string, j: nat, ghost seen: seq<string>, summary: seq<string>, status: Status, found: bool)
    returns (summary': seq<string>, status': Status, found': bool)
    requires j < |Keywords|
    requires summary == Dedup(seen + LabelsUpTo(line, j))
    requires status == (if |seen + LabelsUpTo(line, j)| > 0 then Failed else Valid)
    requires found <==> status == Failed
    ensures summary' == Dedup(seen + LabelsUpTo(line, j + 1))
    ensures status' == (if |seen + LabelsUpTo(line, j + 1)| > 0 then Failed else Valid)
    ensures found' <==> status' == Failed
  {
    summary', status', found' := summary, status, found;
    KeywordStep(seen, line, j, summary);
    if Contains(line, Keywords[j].0) {
      status' := Failed;
      if Keywords[j].1 !in summary' {
        summary' := summary' + [Keywords[j].1];
      }
      found' := true;
    }
  }

  /**
   * The body of the loop over the log files: every keyword on every line,
   * then the fallback label when the log failed without a keyword match.
   */
  method ClassifyLog(log: LogFile) returns (c: Classification)
    ensures c == Classify(log)
  {
    var name := ModuleNameOf(log.basename);
    var status := Valid;
    var summary: seq<string> := [];
    var lines := log.lines;
    var found := false;
    var i := 0;
    while i < |lines|
      invariant 0 <= i <= |lines|
      invariant summary == Dedup(AllLabels(lines[..i]))
      invariant status == (if |AllLabels(lines[..i])| > 0 then Failed else Valid)
      invariant found <==> status == Failed
    {
      AllLabelsStep(lines, i);
      summary, status, found := ScanLine(lines[i], AllLabels(lines[..i]), summary, status, found);
      i := i + 1;
    }
    assert lines[..i] == lines;
    if status == Failed && !found {
      summary := summary + [Generic];
    }
    c := Classification(name, status, summary);
  }

  /** A label comes from a line exactly when the line contains its keyword. */
  lemma {:induction false} LabelsUpToMembers(line: string, k: nat, l: string)
    requires k <= |Keywords|
    ensures l in LabelsUpTo(line, k) <==>
      exists j | 0 <= j < k :: Contains(line, Keywords[j].0) && Keywords[j].1 == l
    decreases k
  {
    if k > 0 {
      LabelsUpToMembers(line, k - 1, l);
    }
  }

  /** A label is collected exactly when some line contains its keyword. */
  lemma {:induction false} AllLabelsMembers(lines: seq<string>, l: string)
    ensures l in AllLabels(lines) <==>
      exists i, j | 0 <= i < |lines| && 0 <= j < |Keywords| ::
        Contains(lines[i], Keywords[j].0) && Keywords[j].1 == l
    decreases |lines|
  {
    if |lines| > 0 {
      var init := lines[..|lines| - 1];
      AllLabelsMembers(init, l);
      LabelsUpToMembers(lines[|lines| - 1], |Keywords|, l);
      assert forall i | 0 <= i < |init| :: init[i] == lines[i];
    }
  }

  /** Some label is collected exactly when some line contains some keyword. */
  lemma AllLabelsNonEmpty(lines: seq<string>)
    ensures |AllLabels(lines)| > 0 <==>
      exists i, j | 0 <= i < |lines| && 0 <= j < |Keywords| :: Contains(lines[i], Keywords[j].0)
  {
    var s := AllLabels(lines);
    if |s| > 0 {
      AllLabelsMembers(lines, s[0]);
    }
    if exists i, j | 0 <= i < |lines| && 0 <= j < |Keywords| :: Contains(lines[i], Keywords[j].0) {
      var i, j :| 0 <= i < |lines| && 0 <= j < |Keywords| && Contains(lines[i], Keywords[j].0);
      AllLabelsMembers(lines, Keywords[j].1);
    }
  }

  /**
   * The verdict: failed exactly when some line contains some keyword, valid
   * with no labels otherwise, and the fallback label never appears.
   */
  lemma ClassifyStatus(log: LogFile)
    ensures var c := Classify(log);
      && c.name == ModuleNameOf(log.basename)
      && (c.status == Failed <==>
            exists i, j | 0 <= i < |log.lines| && 0 <= j < |Keywords| :: Contains(log.lines[i], Keywords[j].0))
      && (c.status == Valid <==> c.labels == [])
      && Generic !in c.labels
  {
    var labels := AllLabels(log.lines);
    var c := Classify(log);
    assert c.status == Failed <==>
      exists i, j | 0 <= i < |log.lines| && 0 <= j < |Keywords| :: Contains(log.lines[i], Keywords[j].0) by {
      AllLabelsNonEmpty(log.lines);
    }
    assert c.status == Valid <==> c.labels == [] by {
      DedupEmpty(labels);
    }
    assert Generic !in c.labels by {
      DedupMembers(labels, Generic);
      AllLabelsMembers(log.lines, Generic);
    }
  }

  /**
   * The labels are those of the keywords found, each once, in the order
   * they first appear.
   */
  lemma ClassifyLabels(log: LogFile)
    ensures var c := Classify(log);
      && Distinct(c.labels)
      && (forall l :: l in c.labels <==>
            exists i, j | 0 <= i < |log.lines| && 0 <= j < |Keywords| ::
              Contains(log.lines[i], Keywords[j].0) && Keywords[j].1 == l)
      && (forall l | l in c.labels :: l in AllLabels(log.lines))
      && (forall i, j | 0 <= i < j < |c.labels| ::
            FirstIndex(AllLabels(log.lines), c.labels[i]) < FirstIndex(AllLabels(log.lines), c.labels[j]))
  {
    DedupProperties(AllLabels(log.lines));
    forall l
      ensures l in Classify(log).labels <==>
        exists i, j | 0 <= i < |log.lines| && 0 <= j < |Keywords| ::
          Contains(log.lines[i], Keywords[j].0) && Keywords[j].1 == l
    {
      AllLabelsMembers(log.lines, l);
    }
  }

  /** One line containing several keywords contributes all their labels, in table order. */
  lemma LineLabelsInOrder(line: string, j: nat, k: nat)
    requires j < k < |Keywords|
    requires Contains(line, Keywords[j].0) && Contains(line, Keywords[k].0)
    ensures Keywords[j].1 in LineLabels(line) && Keywords[k].1 in LineLabels(line)
    ensures FirstIndex(LineLabels(line), Keywords[j].1) < FirstIndex(LineLabels(line), Keywords[k].1)
  {
    var s := LineLabels(line);
    var a := LabelsUpTo(line, k);
    assert Keywords[j].1 in a by {
      LabelsUpToMembers(line, j + 1, Keywords[j].1);
      LabelsUpToPrefix(line, j + 1, k);
    }
    assert Keywords[k].1 !in a by {
      LabelsDistinct();
      LabelsUpToMembers(line, k, Keywords[k].1);
    }
    assert Keywords[k].1 in s by {
      LabelsUpToMembers(line, |Keywords|, Keywords[k].1);
    }
    assert a == s[..|a|] by {
      LabelsUpToPrefix(line, k, |Keywords|);
    }
    FirstIndexBefore(s, |a|, Keywords[j].1, Keywords[k].1);
  }

  /** No two keywords of the table share a label. */
  lemma LabelsDistinct()
    ensures forall i, j | 0 <= i < j < |Keywords| :: Keywords[i].1 != Keywords[j].1
  {
  }

  /** The labels of fewer keywords are a prefix of those of more. */
  lemma {:induction false} LabelsUpToPrefix(line: string, j: nat, k: nat)
    requires j <= k <= |Keywords|
    ensures LabelsUpTo(line, j) <= LabelsUpTo(line, k)
    decreases k - j
  {
    if j < k {
      LabelsUpToPrefix(line, j, k - 1);
    }
  }

  /** The verdicts of the logs, in the order the files are listed. */
  function Classifications(logs: seq<LogFile>): (cs: seq<Classification>)
    ensures |cs| == |logs|
  {
    seq(|logs|, i requires 0 <= i < |logs| => Classify(logs[i]))
  }

  /**
   * `check_installation_logs` over the listed log files: one verdict per
   * log, sorted by module name, logs of the same module in listing order.
   */
  method CheckInstallationLogs(logs: seq<LogFile>) returns (results: seq<Classification>)
    ensures results == SortByModule(Classifications(logs))
    ensures |results| == |logs|
    ensures SortedByModule(results)
    ensures multiset(results) == multiset(Classifications(logs))
    ensures forall m :: WithModule(results, m) == WithModule(Classifications(logs), m)
  {
    var collected: seq<Classification> := [];
    var i := 0;
    while i < |logs|
      invariant 0 <= i <= |logs|
      invariant collected == Classifications(logs[..i])
    {
      var c := ClassifyLog(logs[i]);
      collected := collected + [c];
      i := i + 1;
    }
    assert logs[..i] == logs;
    results := SortByModule(collected);
    SortByModuleSorted(collected);
    forall m
      ensures WithModule(results, m) == WithModule(collected, m)
    {
      SortByModuleStable(collected, m);
    }
  }

  /** The lines `report_results` prints for one entry: a blank line only after a failed one. */
  function Block(c: Classification): seq<string> {
    [StatusLine(c)] + (if c.status == Failed then InfoLines(c.labels) + [""] else [])
  }

  /** All the lines `report_results` prints, entry after entry. */
  function Report(results: seq<Classification>): seq<string>
    decreases |results|
  {
    if |results| == 0 then []
    else Report(results[..|results| - 1]) + Block(results[|results| - 1])
  }

  /** The lines of one more entry follow those of the entries before it. */
  lemma ReportStep(results: seq<Classification>, i: nat)
    requires i < |results|
    ensures Report(results[..i + 1]) == Report(results[..i]) + Block(results[i])
  {
    assert results[..i + 1][..i] == results[..i];
  }

  /** The lines of a failed entry, appended one after the other. */
  lemma FailedBlock(before: seq<string>, c: Classification)
    requires c.status == Failed
    ensures before + [StatusLine(c)] + InfoLines(c.labels) + [""] == before + Block(c)
  {
  }

  /** `report_results`, its printed lines collected in order, colours left out. */
  method ReportResults(results: seq<Classification>) returns (out: seq<string>)
    ensures out == Report(results)
  {
    out := [];
    var i := 0;
    while i < |results|
      invariant 0 <= i <= |results|
      invariant out == Report(results[..i])
    {
      var c := results[i];
      ReportStep(results, i);
      ghost var before := out;
      out := out + [StatusLine(c)];
      if c.status != Valid {
        if |c.labels| > 0 {
          var k := 0;
          while k < |c.labels|
            invariant 0 <= k <= |c.labels|
            invariant out == before + [StatusLine(c)] + InfoLines(c.labels[..k])
          {
            InfoLinesStep(c.labels, k);
            out := out + [" Info: " + c.labels[k]];
            k := k + 1;
          }
          assert c.labels[..k] == c.labels;
        }
        out := out + [""];
        FailedBlock(before, c);
      }
      i := i + 1;
    }
    assert results[..i] == results;
  }

  /** The number of failed entries. */
  function CountFailed(results: seq<Classification>): nat
    decreases |results|
  {
    if |results| == 0 then 0
    else CountFailed(results[..|results| - 1]) + (if results[|results| - 1].status == Failed then 1 else 0)
  }

  /** A blank line follows each failed entry and no valid one. */
  lemma {:induction false} ReportBlankLines(results: seq<Classification>)
    ensures multiset(Report(results))[""] == CountFailed(results)
    decreases |results|
  {
    if |results| > 0 {
      var c := results[|results| - 1];
      ReportBlankLines(results[..|results| - 1]);
      assert multiset(InfoLines(c.labels))[""] == 0;
      assert multiset(Block(c))[""] == if c.status == Failed then 1 else 0;
    }
  }
}
