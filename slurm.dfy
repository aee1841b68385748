/**
 * What the two batch-script generators share: `read_eb_paths`, which reads
 * the results file back as its stripped, non-blank lines, and the
 * `EBFILES=(...)` line, which lists the recipe paths as a bash array.
 */
module Slurm {
  import opened Text
  import opened Recipes

  /** The text of a file written chunk by chunk. */
  function Concat(chunks: seq<string>): string
    decreases |chunks|
  {
    if |chunks| == 0 then "" else Concat(chunks[..|chunks| - 1]) + chunks[|chunks| - 1]
  }

  /**
   * Python's universal newlines when reading a text file: `\r\n` and a lone
   * `\r` both become `\n`.
   */
  function UniversalNewlines(s: string): (r: string)
    ensures '\r' !in r
    ensures '\r' !in s ==> r == s
    decreases |s|
  {
    if |s| == 0 then ""
    else if s[0] == '\r' then
      if |s| > 1 && s[1] == '\n' then "\n" + UniversalNewlines(s[2..]) else "\n" + UniversalNewlines(s[1..])
    else
      assert s == [s[0]] + s[1..];
      [s[0]] + UniversalNewlines(s[1..])
  }

  /** Text without a carriage return passes through unchanged, whatever follows it. */
  lemma {:induction false} NewlinesKeep(a: string, b: string)
    requires '\r' !in a
    ensures UniversalNewlines(a + b) == a + UniversalNewlines(b)
    decreases |a|
  {
    if |a| == 0 {
      assert a + b == b;
    } else {
      var c := a[0];
      var t := a[1..] + b;
      var u := UniversalNewlines(b);
      assert UniversalNewlines(a + b) == [c] + UniversalNewlines(t) by {
        assert a + b == [c] + t;
        NewlinesCons(c, t);
      }
      assert UniversalNewlines(t) == a[1..] + u by {
        assert '\r' !in a[1..];
        NewlinesKeep(a[1..], b);
      }
      assert [c] + (a[1..] + u) == a + u;
    }
  }

  /** A character other than a carriage return is kept as it is. */
  lemma NewlinesCons(c: char, t: string)
    requires c != '\r'
    ensures UniversalNewlines([c] + t) == [c] + UniversalNewlines(t)
  {
    assert ([c] + t)[1..] == t;
  }

  /** Lines joined by a separator that does not start with a newline do not start with one either. */
  lemma NoLeadingNewline(lines: seq<string>, sep: string)
    requires |lines| >= 1 && sep != [] && sep[0] != '\n'
    requires forall i | 0 <= i < |lines| :: '\n' !in lines[i]
    ensures JoinOn(lines, sep) == [] || JoinOn(lines, sep)[0] != '\n'
  {
    if |lines| >= 2 {
      assert JoinOn(lines, sep) == lines[0] + sep + JoinOn(lines[1..], sep);
      if lines[0] != [] {
        assert JoinOn(lines, sep)[0] == lines[0][0];
      } else {
        assert JoinOn(lines, sep)[0] == sep[0];
      }
    }
  }

  /** One line ending, followed by the rest of the text, becomes a single newline. */
  lemma NewlinesOfEnding(sep: string, rest: string)
    requires sep == "\n" || sep == "\r\n" || sep == "\r"
    requires sep == "\r" ==> rest == [] || rest[0] != '\n'
    ensures UniversalNewlines(sep + rest) == "\n" + UniversalNewlines(rest)
  {
    if sep == "\r\n" {
      assert (sep + rest)[2..] == rest;
    } else {
      assert (sep + rest)[1..] == rest;
    }
  }

  /**
   * Lines ended by `\n`, `\r\n` or a lone `\r` all read as the same lines
   * ended by `\n`.
   */
  lemma {:induction false} NewlinesOfJoin(lines: seq<string>, sep: string)
    requires sep == "\n" || sep == "\r\n" || sep == "\r"
    requires forall i | 0 <= i < |lines| :: '\r' !in lines[i] && '\n' !in lines[i]
    ensures UniversalNewlines(JoinOn(lines, sep)) == Join(lines, '\n')
    decreases |lines|
  {
    if |lines| == 1 {
      NewlinesKeep(lines[0], "");
      assert lines[0] + "" == lines[0];
    } else if |lines| >= 2 {
      NewlinesOfJoin(lines[1..], sep);
      if sep == "\r" {
        NoLeadingNewline(lines[1..], sep);
      }
      NewlinesOfJoinStep(lines[0], lines[1..], sep);
      assert [lines[0]] + lines[1..] == lines;
    }
  }

  /** When the lines after the first read as expected, so do all of them. */
  lemma NewlinesOfJoinStep(first: string, more: seq<string>, sep: string)
    requires |more| >= 1 && '\r' !in first
    requires sep == "\n" || sep == "\r\n" || sep == "\r"
    requires sep == "\r" ==> JoinOn(more, sep) == [] || JoinOn(more, sep)[0] != '\n'
    requires UniversalNewlines(JoinOn(more, sep)) == Join(more, '\n')
    ensures UniversalNewlines(JoinOn([first] + more, sep)) == Join([first] + more, '\n')
  {
    var rest := JoinOn(more, sep);
    JoinOnCons(first, more, sep);
    NewlinesOfEnding(sep, rest);
    NewlinesKeep(first, sep + rest);
    JoinCons(first, more, '\n');
    NewlineRegrouped(first, UniversalNewlines(rest));
  }

  /** A newline between two texts, grouped either way. */
  lemma NewlineRegrouped(a: string, b: string)
    ensures a + ("\n" + b) == a + ['\n'] + b
  {
  }

  /**
   * Whichever of the three line endings the results file uses, `read_eb_paths`
   * reads back its stripped, non-blank lines.
   */
  lemma ReadEbPathsOfLines(lines: seq<string>, sep: string)
    requires |lines| >= 1
    requires sep == "\n" || sep == "\r\n" || sep == "\r"
    requires forall i | 0 <= i < |lines| :: '\r' !in lines[i] && '\n' !in lines[i]
    ensures ReadEbPaths(JoinOn(lines, sep)) == NonBlankStripped(lines)
  {
    NewlinesOfJoin(lines, sep);
    SplitJoin(lines, '\n');
  }

  /** The stripped lines that are not blank, in order. */
  function NonBlankStripped(lines: seq<string>): seq<string>
    decreases |lines|
  {
    if |lines| == 0 then []
    else
      var last := Strip(lines[|lines| - 1]);
      NonBlankStripped(lines[..|lines| - 1]) + (if last != "" then [last] else [])
  }

  /**
   * `read_eb_paths` on the contents of the file: iterating a text file
   * yields its lines after newline translation; a line's own newline is
   * white space, so stripping it away is the same as splitting at it.
   */
  function ReadEbPaths(content: string): seq<string> {
    NonBlankStripped(Split(UniversalNewlines(content), '\n'))
  }

  /** A path as `strip` leaves it and the blank test lets it through: non-empty, no white space at either end. */
  predicate Trimmed(p: string) {
    p != "" && !IsSpace(p[0]) && !IsSpace(p[|p| - 1])
  }

  /** Every path read back is non-empty, with no white space at either end; there are no more paths than lines. */
  lemma {:induction false} NonBlankStrippedShape(lines: seq<string>)
    ensures |NonBlankStripped(lines)| <= |lines|
    ensures forall i | 0 <= i < |NonBlankStripped(lines)| :: Trimmed(NonBlankStripped(lines)[i])
    decreases |lines|
  {
    if |lines| > 0 {
      var init := lines[..|lines| - 1];
      NonBlankStrippedShape(init);
      var a := NonBlankStripped(init);
      var t := Strip(lines[|lines| - 1]);
      var ps := NonBlankStripped(lines);
      assert ps == a + (if t != "" then [t] else []);
      forall i | 0 <= i < |ps|
        ensures Trimmed(ps[i])
      {
        if i < |a| {
          assert ps[i] == a[i];
        } else {
          assert ps[i] == t;
        }
      }
    }
  }

  lemma ReadEbPathsShape(content: string)
    ensures forall p | p in ReadEbPaths(content) :: Trimmed(p)
  {
    NonBlankStrippedShape(Split(UniversalNewlines(content), '\n'));
  }

  /** Lines with no white space at all are read back unchanged, and a blank last piece is dropped. */
  lemma {:induction false} NonBlankStrippedOfWords(ids: seq<string>)
    requires forall i | 0 <= i < |ids| :: ids[i] != "" && NoSpace(ids[i])
    ensures NonBlankStripped(ids) == ids
    ensures NonBlankStripped(ids + [""]) == ids
    decreases |ids|
  {
    if |ids| > 0 {
      var init := ids[..|ids| - 1];
      var last := ids[|ids| - 1];
      assert NonBlankStripped(init) == init by {
        NonBlankStrippedOfWords(init);
      }
      assert Strip(last) == last;
      assert NonBlankStripped(ids) == init + [last];
      InitLast(ids);
    }
    assert (ids + [""])[..|ids|] == ids;
    assert Strip("") == "";
  }

  /** A file written one identifier per line is the identifiers joined by newlines, plus a final newline. */
  lemma {:induction false} ConcatOfLines(ids: seq<string>)
    requires |ids| >= 1
    ensures Concat(ResultLines(ids)) == Join(ids, '\n') + "\n"
    decreases |ids|
  {
    var lines := ResultLines(ids);
    if |ids| > 1 {
      var init := ids[..|ids| - 1];
      ConcatOfLines(init);
      assert lines[..|lines| - 1] == ResultLines(init);
      assert ids == init + [ids[|ids| - 1]];
      JoinSnoc(init, ids[|ids| - 1], '\n');
    }
  }

  /**
   * Reading back a file that holds non-empty, white-space-free identifiers,
   * one per line, gives exactly those identifiers in order.
   */
  lemma ReadBackResults(ids: seq<string>)
    requires forall i | 0 <= i < |ids| :: ids[i] != "" && NoSpace(ids[i])
    ensures ReadEbPaths(Concat(ResultLines(ids))) == ids
  {
    if |ids| > 0 {
      var text := Join(ids, '\n') + "\n";
      var pieces := ids + [""];
      calc {
        ReadEbPaths(Concat(ResultLines(ids)));
        { ConcatOfLines(ids); }
        ReadEbPaths(text);
        { JoinSnoc(ids, "", '\n'); assert Join(ids, '\n') + ['\n'] + "" == text; }
        ReadEbPaths(Join(pieces, '\n'));
        NonBlankStripped(Split(UniversalNewlines(Join(pieces, '\n')), '\n'));
        { LineBreakFree(ids); NoCarriageReturn(pieces); }
        NonBlankStripped(Split(Join(pieces, '\n'), '\n'));
        { LineBreakFree(ids); SplitJoin(pieces, '\n'); }
        NonBlankStripped(pieces);
        { NonBlankStrippedOfWords(ids); }
        ids;
      }
    } else {
      assert Concat(ResultLines(ids)) == "";
      assert Strip("") == "";
    }
  }

  /** Identifiers without white space, and the empty piece after the last newline, hold no line break. */
  lemma LineBreakFree(ids: seq<string>)
    requires forall i | 0 <= i < |ids| :: NoSpace(ids[i])
    ensures forall i | 0 <= i < |ids + [""]| :: '\n' !in (ids + [""])[i] && '\r' !in (ids + [""])[i]
  {
    forall i | 0 <= i < |ids + [""]|
      ensures '\n' !in (ids + [""])[i] && '\r' !in (ids + [""])[i]
    {
      assert IsSpace('\n') && IsSpace('\r');
      if i < |ids| {
        assert (ids + [""])[i] == ids[i];
      }
    }
  }

  /** Joining pieces free of `\r` gives a text free of `\r`. */
  lemma {:induction false} NoCarriageReturn(parts: seq<string>)
    requires forall i | 0 <= i < |parts| :: '\r' !in parts[i]
    ensures '\r' !in Join(parts, '\n')
    decreases |parts|
  {
    if |parts| > 1 {
      NoCarriageReturn(parts[1..]);
    }
  }

  /** Each path wrapped in double quotes. */
  function Quoted(paths: seq<string>): (qs: seq<string>)
    ensures |qs| == |paths|
  {
    seq(|paths|, i requires 0 <= i < |paths| => "\"" + paths[i] + "\"")
  }

  /** `EBFILES=(` and the quoted paths joined by single spaces, then `)` and a newline. */
  function EbFilesLine(paths: seq<string>): string {
    "EBFILES=(" + Join(Quoted(paths), ' ') + ")\n"
  }

  /** The paths read back from the array body: the texts between pairs of double quotes. */
  function Unquote(body: string): (paths: seq<string>) {
    var pieces := Split(body, '"');
    seq(|pieces| / 2, k requires 0 <= k < |pieces| / 2 => pieces[2 * k + 1])
  }

  /** The pieces of the array body between double quotes: paths and the spaces between them. */
  function Inner(paths: seq<string>): (pieces: seq<string>)
    requires |paths| >= 1
    ensures |pieces| == 2 * |paths| - 1
    decreases |paths|
  {
    if |paths| == 1 then [paths[0]] else [paths[0], " "] + Inner(paths[1..])
  }

  lemma {:induction false} InnerAt(paths: seq<string>, k: nat)
    requires |paths| >= 1 && k < |paths|
    ensures Inner(paths)[2 * k] == paths[k]
    ensures k + 1 < |paths| ==> Inner(paths)[2 * k + 1] == " "
    decreases |paths|
  {
    if k > 0 {
      InnerAt(paths[1..], k - 1);
    }
  }

  /** Joining a first piece and at least one more: the piece, the separator, the join of the rest. */
  lemma JoinCons(a: string, rest: seq<string>, sep: char)
    requires |rest| >= 1
    ensures Join([a] + rest, sep) == a + [sep] + Join(rest, sep)
  {
    assert ([a] + rest)[1..] == rest;
  }

  /** The array body is the paths and the separating spaces, joined by double quotes. */
  lemma {:induction false} QuotedBody(paths: seq<string>)
    requires |paths| >= 1
    ensures Join(Quoted(paths), ' ') == Join([""] + Inner(paths) + [""], '"')
    decreases |paths|
  {
    if |paths| == 1 {
      QuotedBodyOne(paths);
    } else {
      QuotedBody(paths[1..]);
      QuotedBodyStep(paths);
    }
  }

  /** The array body of a single path. */
  lemma QuotedBodyOne(paths: seq<string>)
    requires |paths| == 1
    ensures Join(Quoted(paths), ' ') == Join([""] + Inner(paths) + [""], '"')
  {
    var p := paths[0];
    assert Quoted(paths)[0] == "\"" + p + "\"";
    assert Inner(paths) == [p];
    JoinBracket([p], '"');
    JoinCons(p, [""], '"');
  }

  /** The array body of several paths, from that of all but the first. */
  lemma QuotedBodyStep(paths: seq<string>)
    requires |paths| >= 2
    requires Join(Quoted(paths[1..]), ' ') == Join([""] + Inner(paths[1..]) + [""], '"')
    ensures Join(Quoted(paths), ' ') == Join([""] + Inner(paths) + [""], '"')
  {
    QuotedSide(paths);
    InnerSide(paths);
  }

  /** The quoted paths joined by spaces, regrouped around the first path. */
  lemma QuotedSide(paths: seq<string>)
    requires |paths| >= 2
    requires Join(Quoted(paths[1..]), ' ') == Join([""] + Inner(paths[1..]) + [""], '"')
    ensures Join(Quoted(paths), ' ') ==
      ['"'] + (paths[0] + ['"'] + (" " + ['"'] + Join(Inner(paths[1..]) + [""], '"')))
  {
    var p := paths[0];
    var q := "\"" + p + "\"";
    var rest := paths[1..];
    var j := Join(Inner(rest) + [""], '"');
    assert Join(Quoted(rest), ' ') == ['"'] + j by {
      JoinBracket(Inner(rest), '"');
    }
    QuotedCons(paths);
    JoinCons(q, Quoted(rest), ' ');
    QuotesRegrouped(p, j);
  }

  /** The pieces joined by quotes, regrouped around the first path. */
  lemma InnerSide(paths: seq<string>)
    requires |paths| >= 2
    ensures Join([""] + Inner(paths) + [""], '"') ==
      ['"'] + (paths[0] + ['"'] + (" " + ['"'] + Join(Inner(paths[1..]) + [""], '"')))
  {
    var p := paths[0];
    var inner := Inner(paths[1..]);
    assert Join(Inner(paths) + [""], '"') == p + ['"'] + (" " + ['"'] + Join(inner + [""], '"')) by {
      assert Inner(paths) == [p, " "] + inner;
      PairSnoc(p, " ", inner, "");
      JoinCons(" ", inner + [""], '"');
      JoinCons(p, [" "] + (inner + [""]), '"');
    }
    JoinBracket(Inner(paths), '"');
  }

  /** A quoted path, a space and a quote are the quote, the path, a quote, a space and a quote. */
  lemma QuotesRegrouped(p: string, j: string)
    ensures "\"" + p + "\"" + [' '] + (['"'] + j) == ['"'] + (p + ['"'] + (" " + ['"'] + j))
  {
  }

  /** The quoted paths: the first one quoted, then the rest quoted. */
  lemma QuotedCons(paths: seq<string>)
    requires |paths| >= 1
    ensures Quoted(paths) == ["\"" + paths[0] + "\""] + Quoted(paths[1..])
  {
    var r := ["\"" + paths[0] + "\""] + Quoted(paths[1..]);
    forall i | 0 <= i < |paths|
      ensures Quoted(paths)[i] == r[i]
    {
      if i > 0 {
        assert paths[1..][i - 1] == paths[i];
      }
    }
  }

  /** Joining a sequence framed by two empty pieces: a separator in front of the join of the rest. */
  lemma JoinBracket(mid: seq<string>, sep: char)
    ensures Join([""] + mid + [""], sep) == [sep] + Join(mid + [""], sep)
  {
    assert [""] + mid + [""] == [""] + (mid + [""]);
    JoinCons("", mid + [""], sep);
  }

  /**
   * The `EBFILES` line gives back the paths, in order, when none of them
   * holds a double quote.
   */
  lemma EbFilesRoundTrip(paths: seq<string>)
    requires forall i | 0 <= i < |paths| :: '"' !in paths[i]
    ensures var line := EbFilesLine(paths);
      && "EBFILES=(" <= line
      && line[|line| - 2..] == ")\n"
      && Unquote(line[9..|line| - 2]) == paths
  {
    var line := EbFilesLine(paths);
    var body := Join(Quoted(paths), ' ');
    assert line[9..|line| - 2] == body;
    if |paths| == 0 {
      assert body == "";
    } else {
      var inner := Inner(paths);
      var pieces := [""] + inner + [""];
      assert Split(body, '"') == pieces by {
        QuotedBody(paths);
        PiecesQuoteFree(paths);
        SplitJoin(pieces, '"');
      }
      UnquoteInner(body, paths);
    }
  }

  /** Reading back a body whose quote-separated pieces are the paths and the spaces between them. */
  lemma UnquoteInner(body: string, paths: seq<string>)
    requires |paths| >= 1
    requires Split(body, '"') == [""] + Inner(paths) + [""]
    ensures Unquote(body) == paths
  {
    var inner := Inner(paths);
    forall k | 0 <= k < |paths|
      ensures Unquote(body)[k] == paths[k]
    {
      InnerAt(paths, k);
      Framed("", inner, "", 2 * k);
    }
  }

  /** No piece of the quoted array body holds a double quote when no path does. */
  lemma PiecesQuoteFree(paths: seq<string>)
    requires |paths| >= 1
    requires forall i | 0 <= i < |paths| :: '"' !in paths[i]
    ensures var pieces := [""] + Inner(paths) + [""];
      forall i | 0 <= i < |pieces| :: '"' !in pieces[i]
  {
    var inner := Inner(paths);
    var pieces := [""] + inner + [""];
    forall i | 0 <= i < |pieces|
      ensures '"' !in pieces[i]
    {
      if 0 < i < |pieces| - 1 {
        var j := i - 1;
        Framed("", inner, "", j);
        InnerAt(paths, j / 2);
      }
    }
  }

  /** The decimal digits of `n`, as `str(n)` writes them. */
  function NatToString(n: nat): (s: string)
    ensures |s| >= 1
    ensures forall i | 0 <= i < |s| :: '0' <= s[i] <= '9'
    decreases n
  {
    if n < 10 then [(48 + n) as char] else NatToString(n / 10) + [(48 + n % 10) as char]
  }

  /** The number a string of decimal digits stands for. */
  function DecimalValue(s: string): nat
    requires forall i | 0 <= i < |s| :: '0' <= s[i] <= '9'
    decreases |s|
  {
    if |s| == 0 then 0 else 10 * DecimalValue(s[..|s| - 1]) + (s[|s| - 1] as int - 48)
  }

  /** Reading the written digits gives the number back. */
  lemma {:induction false} NatToStringRoundTrip(n: nat)
    ensures DecimalValue(NatToString(n)) == n
    decreases n
  {
    if n >= 10 {
      NatToStringRoundTrip(n / 10);
      var s := NatToString(n);
      assert s[..|s| - 1] == NatToString(n / 10);
    }
  }
}
