/**
 * minigrep: command-line arguments become a query and a file path, and the
 * search keeps, in order, the lines of the file's contents that contain the
 * query. Strings are sequences of characters.
 */
module Minigrep {
  import opened Wrappers

  datatype ParserConfig = ParserConfig(query: string, filePath: string)

  /** `build`: at least three arguments (program, file, query), else the fixed error message. */
  function Build(args: seq<string>): (r: Result<ParserConfig, string>)
    ensures r.Err? <==> |args| < 3
    ensures r.Err? ==> r.error == "invalid arguments"
    ensures r.Ok? ==> r.value.filePath == args[1] && r.value.query == args[2]
  {
    if |args| < 3 then Err("invalid arguments")
    else Ok(ParserConfig(args[2], args[1]))
  }

  // -------------------------------------------------------------------------
  // Lines, as `str::lines` splits them
  // -------------------------------------------------------------------------

  /** The index of the first '\n', or |s| when there is none. */
  function NewlineIndex(s: string): (n: nat)
    ensures n <= |s|
    ensures n < |s| ==> s[n] == '\n'
    ensures forall j :: 0 <= j < n ==> s[j] != '\n'
  {
    if s == [] then 0
    else if s[0] == '\n' then 0
    else 1 + NewlineIndex(s[1..])
  }

  /** A line ended by "\r\n" loses the '\r' as well. */
  function StripCr(line: string): string {
    if |line| > 0 && line[|line| - 1] == '\r' then line[..|line| - 1] else line
  }

  /**
   * `str::lines`: split after every '\n', drop the '\n' and a '\r' right
   * before it. The text after the last '\n' is a line only when it is not
   * empty, and it keeps a trailing '\r'.
   */
  function Lines(s: string): seq<string>
    decreases |s|
  {
    if s == [] then []
    else
      var n := NewlineIndex(s);
      if n == |s| then [s]
      else [StripCr(s[..n])] + Lines(s[n + 1..])
  }

  /** A text with a '\n' splits into its first line and the lines after that '\n'. */
  lemma LinesCons(s: string)
    requires NewlineIndex(s) < |s|
    ensures Lines(s) == [StripCr(s[..NewlineIndex(s)])] + Lines(s[NewlineIndex(s) + 1..])
  {
  }

  /** No line contains a line break. */
  lemma {:induction false} LinesHaveNoNewline(s: string)
    ensures forall k, j :: 0 <= k < |Lines(s)| && 0 <= j < |Lines(s)[k]| ==> Lines(s)[k][j] != '\n'
    decreases |s|
  {
    if s != [] {
      var n := NewlineIndex(s);
      if n < |s| {
        LinesHaveNoNewline(s[n + 1..]);
        var ls := Lines(s);
        assert ls == [StripCr(s[..n])] + Lines(s[n + 1..]);
        forall k, j | 0 <= k < |ls| && 0 <= j < |ls[k]|
          ensures ls[k][j] != '\n'
        {
          if k > 0 {
            assert ls[k] == Lines(s[n + 1..])[k - 1];
          }
        }
      }
    }
  }

  /** The lines joined with '\n'. */
  function Join(lines: seq<string>): string {
    if lines == [] then ""
    else if |lines| == 1 then lines[0]
    else lines[0] + "\n" + Join(lines[1..])
  }

  /** Joining a first line in front of at least one more puts a '\n' between them. */
  lemma JoinCons(line: string, lines: seq<string>)
    requires lines != []
    ensures Join([line] + lines) == line + "\n" + Join(lines)
  {
    assert ([line] + lines)[1..] == lines;
  }

  /**
   * Without carriage returns the split loses nothing but an optional final
   * '\n': joining the lines gives back the text, or the text minus its last
   * line break.
   */
  lemma {:induction false} LinesJoin(s: string)
    requires forall j :: 0 <= j < |s| ==> s[j] != '\r'
    ensures s == Join(Lines(s)) || s == Join(Lines(s)) + "\n"
    decreases |s|
  {
    if s != [] {
      var n := NewlineIndex(s);
      if n < |s| {
        var line, rest := s[..n], s[n + 1..];
        StripCrNoCr(s, n);
        LinesCons(s);
        SplitAround(s, n);
        assert forall j :: 0 <= j < |rest| ==> rest[j] == s[n + 1 + j];
        LinesJoin(rest);
        if Lines(rest) == [] {
          assert Join(Lines(s)) == line;
          assert rest == [];
        } else {
          JoinCons(line, Lines(rest));
        }
      }
    }
  }

  /** A text is the part before position n, the '\n' at n and the part after it. */
  lemma SplitAround(s: string, n: nat)
    requires n < |s| && s[n] == '\n'
    ensures s == s[..n] + "\n" + s[n + 1..]
  {
    assert s == s[..n] + [s[n]] + s[n + 1..];
  }

  /** A prefix of a text without carriage returns loses nothing to StripCr. */
  lemma StripCrNoCr(s: string, n: nat)
    requires forall j :: 0 <= j < |s| ==> s[j] != '\r'
    requires n <= |s|
    ensures StripCr(s[..n]) == s[..n]
  {
    if n > 0 {
      assert s[..n][n - 1] == s[n - 1];
    }
  }

  // -------------------------------------------------------------------------
  // Substrings and the search
  // -------------------------------------------------------------------------

  /** The query occurs in the line starting at position i. */
  predicate OccursAt(line: string, query: string, i: int) {
    0 <= i && i + |query| <= |line| && line[i..i + |query|] == query
  }

  /** `str::contains` with a string pattern: the query is a prefix of the line or of one of its suffixes. */
  function Contains(line: string, query: string): bool
    decreases |line|
  {
    if query <= line then true
    else if line == [] then false
    else Contains(line[1..], query)
  }

  /** Contains means an occurrence at some position. */
  lemma {:induction false} ContainsIff(line: string, query: string)
    ensures Contains(line, query) <==> exists i :: OccursAt(line, query, i)
    decreases |line|
  {
    if query <= line {
      assert line[0..|query|] == query;
      assert OccursAt(line, query, 0);
    } else if line == [] {
      assert forall i :: !OccursAt(line, query, i);
    } else {
      var tail := line[1..];
      ContainsIff(tail, query);
      if Contains(tail, query) {
        var i :| OccursAt(tail, query, i);
        assert line[i + 1..i + 1 + |query|] == tail[i..i + |query|];
        assert OccursAt(line, query, i + 1);
      }
      if exists i :: OccursAt(line, query, i) {
        var i :| OccursAt(line, query, i);
        if i != 0 {
          assert tail[i - 1..i - 1 + |query|] == line[i..i + |query|];
          assert OccursAt(tail, query, i - 1);
        }
      }
    }
  }

  /** The lines containing the query, in their order. */
  function Filter(lines: seq<string>, query: string): seq<string> {
    if lines == [] then []
    else
      var last := lines[|lines| - 1];
      Filter(lines[..|lines| - 1], query) + (if Contains(last, query) then [last] else [])
  }

  /** `search`: walk the lines of `contents` and push each one that contains the query. */
  method Search(query: string, contents: string) returns (r: seq<string>)
    ensures r == Filter(Lines(contents), query)
  {
    var lines := Lines(contents);
    r := [];
    var i := 0;
    while i < |lines|
      invariant i <= |lines|
      invariant r == Filter(lines[..i], query)
    {
      var line := lines[i];
      assert lines[..i + 1][..i] == lines[..i];
      if Contains(line, query) {
        r := r + [line];
      }
      i := i + 1;
    }
    assert lines[..i] == lines;
  }

  /** Filtering a concatenation filters each part: the order of the lines is kept. */
  lemma {:induction false} FilterConcat(a: seq<string>, b: seq<string>, query: string)
    ensures Filter(a + b, query) == Filter(a, query) + Filter(b, query)
    decreases |b|
  {
    if b != [] {
      var last := b[|b| - 1];
      FilterConcat(a, b[..|b| - 1], query);
      assert (a + b)[..|a + b| - 1] == a + b[..|b| - 1];
    } else {
      assert a + b == a;
    }
  }

  /** A line is in the result exactly when it is a line of the input and contains the query. */
  lemma {:induction false} FilterMembers(lines: seq<string>, query: string, x: string)
    ensures x in Filter(lines, query) <==> x in lines && Contains(x, query)
    decreases |lines|
  {
    if lines != [] {
      var init := lines[..|lines| - 1];
      FilterMembers(init, query, x);
      assert lines == init + [lines[|lines| - 1]];
    }
  }

  /** The result is no longer than the input. */
  lemma {:induction false} FilterLength(lines: seq<string>, query: string)
    ensures |Filter(lines, query)| <= |lines|
    decreases |lines|
  {
    if lines != [] {
      FilterLength(lines[..|lines| - 1], query);
    }
  }

  /** The empty query occurs in every line, so it keeps them all. */
  lemma {:induction false} FilterEmptyQuery(lines: seq<string>)
    ensures Filter(lines, "") == lines
    decreases |lines|
  {
    if lines != [] {
      var init := lines[..|lines| - 1];
      FilterEmptyQuery(init);
      assert Contains(lines[|lines| - 1], "");
      assert lines == init + [lines[|lines| - 1]];
    }
  }

  /** When no line contains the query the result is empty. */
  lemma {:induction false} FilterNoneFound(lines: seq<string>, query: string)
    requires forall k :: 0 <= k < |lines| ==> !Contains(lines[k], query)
    ensures Filter(lines, query) == []
    decreases |lines|
  {
    if lines != [] {
      FilterNoneFound(lines[..|lines| - 1], query);
    }
  }
}
