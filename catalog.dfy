/**
 * `list_all_modules`: the names of the installed modules, read from the
 * combined output of the module listing command.  A line names a module when
 * it is not blank and holds a `/`; the name is the segment between its first
 * and second `/`.
 */
module Catalog {
  import opened Wrappers
  import opened Text
  import opened Recipes

  /** `line.split('/')[1]` for a line that holds a `/`. */
  function SecondSegment(line: string): (name: string)
    requires '/' in line
    ensures '/' !in name
  {
    Split(line, '/')[1]
  }

  /** The second segment runs from after the first `/` to the next `/` or the end. */
  lemma SecondSegmentAt(line: string, i: nat, j: nat)
    requires i < j <= |line|
    requires line[i] == '/' && '/' !in line[..i]
    requires '/' !in line[i + 1..j]
    requires j == |line| || line[j] == '/'
    ensures SecondSegment(line) == line[i + 1..j]
  {
    SplitAtFirst(line, '/', i);
    var u := line[i + 1..];
    assert u[..j - i - 1] == line[i + 1..j];
    SplitFirstPiece(u, '/', j - i - 1);
  }

  /** A line the parsing loop takes a name from. */
  predicate IsEntry(line: string) {
    '/' in line
  }

  /** The test `line.strip() and '/' in line` reduces to the `/` test. */
  lemma EntryTest(line: string)
    ensures (Strip(line) != "" && '/' in line) <==> IsEntry(line)
  {
    if '/' in line {
      var k :| 0 <= k < |line| && line[k] == '/';
      assert !IsSpace(line[k]);
    }
  }

  /** The names the parsing loop appends, in the order of the lines. */
  function Entries(lines: seq<string>): seq<string>
    decreases |lines|
  {
    if |lines| == 0 then []
    else
      var last := lines[|lines| - 1];
      Entries(lines[..|lines| - 1]) + (if IsEntry(last) then [SecondSegment(last)] else [])
  }

  /** The names of one more line follow those of the lines before it. */
  lemma EntriesStep(lines: seq<string>, i: nat)
    requires i < |lines|
    ensures Entries(lines[..i + 1]) ==
      Entries(lines[..i]) + (if IsEntry(lines[i]) then [SecondSegment(lines[i])] else [])
  {
    assert lines[..i + 1][..i] == lines[..i];
  }

  /** A name is listed exactly when some entry line carries it. */
  lemma {:induction false} EntriesMembers(lines: seq<string>, x: string)
    ensures x in Entries(lines) <==>
      exists i | 0 <= i < |lines| :: IsEntry(lines[i]) && SecondSegment(lines[i]) == x
    decreases |lines|
  {
    if |lines| > 0 {
      var init := lines[..|lines| - 1];
      EntriesMembers(init, x);
      assert forall i | 0 <= i < |init| :: init[i] == lines[i];
      var last := lines[|lines| - 1];
      if IsEntry(last) && SecondSegment(last) == x {
        assert x in Entries(lines);
      }
    }
  }

  /**
   * `list_all_modules` once the listing command has finished: `None` stands
   * for the command raising, which the `except` turns into an empty list.
   * `list(set(...))` fixes no order, so only the elements are promised.
   */
  method ListAllModules(listing: Option<ToolOutput>) returns (modules: seq<string>)
    ensures listing.None? ==> modules == []
    ensures Distinct(modules)
    ensures listing.Some? ==>
      forall x :: x in modules <==> x in Entries(Split(listing.value.stdout + listing.value.stderr, '\n'))
  {
    if listing.None? {
      return [];
    }
    var output := listing.value.stdout + listing.value.stderr;
    var lines := Split(output, '\n');
    var names: seq<string> := [];
    var i := 0;
    while i < |lines|
      invariant 0 <= i <= |lines|
      invariant names == Entries(lines[..i])
    {
      var line := lines[i];
      EntriesStep(lines, i);
      EntryTest(line);
      if Strip(line) != "" && '/' in line {
        var parts := Split(line, '/');
        names := names + [parts[1]];
      }
      i := i + 1;
    }
    assert lines[..i] == lines;
    modules := [];
    var j := 0;
    while j < |names|
      invariant 0 <= j <= |names|
      invariant Distinct(modules)
      invariant forall x :: x in modules <==> x in names[..j]
    {
      PrefixSnoc(names, j);
      if names[j] !in modules {
        DistinctSnoc(modules, names[j]);
        modules := modules + [names[j]];
      }
      j := j + 1;
    }
    assert names[..j] == names;
  }
}
