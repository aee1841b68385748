/**
 * `easybuild_validation.py`: each line of a build log gets at most one
 * label, that of the first keyword of the table it contains, or the generic
 * label when it contains no keyword but does contain "error" in any letter
 * case.  A log failed when some line got a label; its labels are kept once
 * each, in the order they first appear.
 */
module Validation {
  import opened Wrappers
  import opened Text
  import opened Logs

  /** The keyword table, in the order the dictionary is iterated. */
  const Keywords: seq<(string, string)> := [
    ("Checksum verification", "Checksum failure"),
    ("Sanity check failed:", "Sanity check failure"),
    ("make check", "Make check failure"),
    ("build failed", "Build Error")
  ]

  const Generic: string := "Other installation error"

  /** The position of the first keyword from position `k` on that occurs in the line. */
  function FirstKeyword(line: string, k: nat): (r: Option<nat>)
    requires k <= |Keywords|
    ensures r.Some? ==>
      && k <= r.value < |Keywords| && Contains(line, Keywords[r.value].0)
      && forall j | k <= j < r.value :: !Contains(line, Keywords[j].0)
    ensures r.None? ==> forall j | k <= j < |Keywords| :: !Contains(line, Keywords[j].0)
    decreases |Keywords| - k
  {
    if k == |Keywords| then None
    else if Contains(line, Keywords[k].0) then Some(k)
    else FirstKeyword(line, k + 1)
  }

  /** The label one line contributes, if any. */
  function LineLabel(line: string): Option<string> {
    match FirstKeyword(line, 0)
    case Some(j) => Some(Keywords[j].1)
    case None => if Contains(Lower(line), "error") then Some(Generic) else None
  }

  /** The labels of the lines, in line order, repeats included. */
  function LineLabels(lines: seq<string>): seq<string>
    decreases |lines|
  {
    if |lines| == 0 then []
    else
      var init := LineLabels(lines[..|lines| - 1]);
      match LineLabel(lines[|lines| - 1])
      case Some(l) => init + [l]
      case None => init
  }

  /** The verdict for one log. */
  function Classify(log: LogFile): Classification {
    var labels := LineLabels(log.lines);
    Classification(ModuleNameOf(log.basename), if |labels| > 0 then Failed else Valid, Dedup(labels))
  }

  /**
   * One more line adds its label to the summary so far, unless it is already
   * there; a line without a label leaves the labels as they were.
   */
  lemma LineStep(lines: seq<string>, i: nat, summary: seq<string>)
    requires i < |lines|
    requires summary == Dedup(LineLabels(lines[..i]))
    ensures var after := LineLabels(lines[..i + 1]);
      var l := LineLabel(lines[i]);
      && (l.Some? ==> |after| > 0 && Dedup(after) == (if l.value in summary then summary else summary + [l.value]))
      && (l.None? ==> after == LineLabels(lines[..i]))
  {
    var before := LineLabels(lines[..i]);
    assert lines[..i + 1][..i] == lines[..i];
    match LineLabel(lines[i])
    case Some(l) =>
      assert (before + [l])[..|before|] == before;
    case None =>
  }

  /**
   * The scan of one line: the keywords in table order up to the first one
   * the line contains, else the lower-cased search for "error".
   */
  method ScanLine(line: string, summary: seq<string>, status: Status)
    returns (summary': seq<string>, status': Status)
    ensures var l := LineLabel(line);
      && (l.Some? ==> summary' == (if l.value in summary then summary else summary + [l.value]) && status' == Failed)
      && (l.None? ==> summary' == summary && status' == status)
  {
    summary', status' := summary, status;
    var found := false;
    var j := 0;
    while j < |Keywords|
      invariant 0 <= j <= |Keywords|
      invariant !found && summary' == summary && status' == status
      invariant FirstKeyword(line, 0) == FirstKeyword(line, j)
    {
      if Contains(line, Keywords[j].0) {
        status' := Failed;
        if Keywords[j].1 !in summary' {
          summary' := summary' + [Keywords[j].1];
        }
        found := true;
        break;
      }
      j := j + 1;
    }
    if !found && Contains(Lower(line), "error") {
      status' := Failed;
      if Generic !in summary' {
        summary' := summary' + [Generic];
      }
    }
  }

  /** The body of the loop over the log files: the scan of one log, line by line. */
  method ClassifyLog(log: LogFile) returns (c: Classification)
    ensures c == Classify(log)
  {
    var name := ModuleNameOf(log.basename);
    var status := Valid;
    var summary: seq<string> := [];
    var lines := log.lines;
    var i := 0;
    while i < |lines|
      invariant 0 <= i <= |lines|
      invariant summary == Dedup(LineLabels(lines[..i]))
      invariant status == (if |LineLabels(lines[..i])| > 0 then Failed else Valid)
    {
      LineStep(lines, i, summary);
      summary, status := ScanLine(lines[i], summary, status);
      i := i + 1;
    }
    assert lines[..i] == lines;
    c := Classification(name, status, summary);
  }

  /** A log has labelled lines exactly when some line gets a label. */
  lemma {:induction false} LineLabelsNonEmpty(lines: seq<string>)
    ensures |LineLabels(lines)| > 0 <==> exists i | 0 <= i < |lines| :: LineLabel(lines[i]).Some?
    decreases |lines|
  {
    if |lines| > 0 {
      var init := lines[..|lines| - 1];
      LineLabelsNonEmpty(init);
      assert forall i | 0 <= i < |init| :: init[i] == lines[i];
    }
  }

  /** A label is collected exactly when some line gets it. */
  lemma {:induction false} LineLabelsMembers(lines: seq<string>, l: string)
    ensures l in LineLabels(lines) <==> exists i | 0 <= i < |lines| :: LineLabel(lines[i]) == Some(l)
    decreases |lines|
  {
    if |lines| > 0 {
      var init := lines[..|lines| - 1];
      LineLabelsMembers(init, l);
      assert forall i | 0 <= i < |init| :: init[i] == lines[i];
    }
  }

  /**
   * The verdict: failed exactly when some line gets a label, and then the
   * label list is not empty; valid with no labels otherwise.  The labels are
   * those of the lines, each once, in the order they first appear.
   */
  lemma ClassifyVerdict(log: LogFile)
    ensures var c := Classify(log);
      && c.name == ModuleNameOf(log.basename)
      && (c.status == Failed <==> exists i | 0 <= i < |log.lines| :: LineLabel(log.lines[i]).Some?)
      && (c.status == Valid <==> c.labels == [])
      && Distinct(c.labels)
      && (forall l :: l in c.labels <==> exists i | 0 <= i < |log.lines| :: LineLabel(log.lines[i]) == Some(l))
      && (forall l | l in c.labels :: l in LineLabels(log.lines))
      && (forall i, j | 0 <= i < j < |c.labels| ::
            FirstIndex(LineLabels(log.lines), c.labels[i]) < FirstIndex(LineLabels(log.lines), c.labels[j]))
  {
    var labels := LineLabels(log.lines);
    LineLabelsNonEmpty(log.lines);
    DedupProperties(labels);
    forall l
      ensures l in Classify(log).labels <==> exists i | 0 <= i < |log.lines| :: LineLabel(log.lines[i]) == Some(l)
    {
      LineLabelsMembers(log.lines, l);
    }
    if |labels| > 0 {
      assert labels[0] in Dedup(labels);
    }
  }

  /**
   * The first keyword of the table a line contains decides its label; the
   * generic label goes only to lines that contain no keyword but do contain
   * "error" in some letter case.
   */
  lemma LineLabelRule(line: string, j: nat)
    requires j < |Keywords| && Contains(line, Keywords[j].0)
    ensures exists k | 0 <= k <= j :: LineLabel(line) == Some(Keywords[k].1)
    ensures LineLabel(line) != Some(Generic)
  {
    var k := FirstKeyword(line, 0).value;
    assert LineLabel(line) == Some(Keywords[k].1);
  }

  lemma GenericRule(line: string)
    ensures LineLabel(line) == Some(Generic) <==>
      (forall j | 0 <= j < |Keywords| :: !Contains(line, Keywords[j].0)) && Contains(Lower(line), "error")
  {
    if FirstKeyword(line, 0).Some? {
      var k := FirstKeyword(line, 0).value;
      assert Keywords[k].1 != Generic;
    }
  }

  /** The verdicts of the logs, in the order the files are listed. */
  function Classifications(logs: seq<LogFile>): (cs: seq<Classification>)
    ensures |cs| == |logs|
  {
    seq(|logs|, i requires 0 <= i < |logs| => Classify(logs[i]))
  }

  /**
   * `check_installation_logs` over the listed log files: one verdict per
   * log, sorted by module name, logs of the same module in listing order.
   */
  method CheckInstallationLogs(logs: seq<LogFile>) returns (results: seq<Classification>)
    ensures results == SortByModule(Classifications(logs))
    ensures |results| == |logs|
    ensures SortedByModule(results)
    ensures multiset(results) == multiset(Classifications(logs))
    ensures forall m :: WithModule(results, m) == WithModule(Classifications(logs), m)
  {
    var collected: seq<Classification> := [];
    var i := 0;
    while i < |logs|
      invariant 0 <= i <= |logs|
      invariant collected == Classifications(logs[..i])
    {
      var c := ClassifyLog(logs[i]);
      collected := collected + [c];
      i := i + 1;
    }
    assert logs[..i] == logs;
    results := SortByModule(collected);
    SortByModuleSorted(collected);
    forall m
      ensures WithModule(results, m) == WithModule(collected, m)
    {
      SortByModuleStable(collected, m);
    }
  }

  /** The lines `report_results` prints for one entry. */
  function Block(c: Classification): seq<string> {
    [StatusLine(c)] + (if c.status == Failed then InfoLines(c.labels) else []) + [""]
  }

  /** All the lines `report_results` prints, entry after entry. */
  function Report(results: seq<Classification>): seq<string>
    decreases |results|
  {
    if |results| == 0 then []
    else Report(results[..|results| - 1]) + Block(results[|results| - 1])
  }

  /** The lines of one more entry follow those of the entries before it. */
  lemma ReportStep(results: seq<Classification>, i: nat)
    requires i < |results|
    ensures Report(results[..i + 1]) == Report(results[..i]) + Block(results[i])
  {
    assert results[..i + 1][..i] == results[..i];
  }

  /** The lines of one entry, appended one after the other. */
  lemma BlockLines(before: seq<string>, c: Classification)
    ensures var infos := if c.status == Failed && |c.labels| > 0 then InfoLines(c.labels) else [];
      before + [StatusLine(c)] + infos + [""] == before + Block(c)
  {
  }

  /** `report_results`, its printed lines collected in order, colours left out. */
  method ReportResults(results: seq<Classification>) returns (out: seq<string>)
    ensures out == Report(results)
  {
    out := [];
    var i := 0;
    while i < |results|
      invariant 0 <= i <= |results|
      invariant out == Report(results[..i])
    {
      var c := results[i];
      ReportStep(results, i);
      ghost var before := out;
      out := out + [StatusLine(c)];
      if c.status == Failed && |c.labels| > 0 {
        var k := 0;
        while k < |c.labels|
          invariant 0 <= k <= |c.labels|
          invariant out == before + [StatusLine(c)] + InfoLines(c.labels[..k])
        {
          InfoLinesStep(c.labels, k);
          out := out + [" Info: " + c.labels[k]];
          k := k + 1;
        }
        assert c.labels[..k] == c.labels;
      }
      out := out + [""];
      BlockLines(before, c);
      i := i + 1;
    }
    assert results[..i] == results;
  }

  /** Every entry, valid or failed, is followed by exactly one blank line. */
  lemma {:induction false} ReportBlankLines(results: seq<Classification>)
    ensures multiset(Report(results))[""] == |results|
    decreases |results|
  {
    if |results| > 0 {
      var c := results[|results| - 1];
      ReportBlankLines(results[..|results| - 1]);
      var infos := if c.status == Failed then InfoLines(c.labels) else [];
      assert multiset(infos)[""] == 0;
      assert multiset(Block(c))[""] == 1;
    }
  }
}
