/** Formatting a route for display: one line per hop, "A -> instruction -> B",
    then a last line naming the destination, the lines joined by newlines. */
module Display {
  import opened CampusGraph

  /** Total number of characters in the lines. */
  function TotalLength(lines: seq<string>): nat
  {
    if |lines| == 0 then 0 else |lines[0]| + TotalLength(lines[1..])
  }

  /** The lines joined with a newline between consecutive ones: the text
      starts with the first line, ends with the last, and adds exactly one
      separator character between each pair. */
  function JoinLines(lines: seq<string>): (r: string)
    ensures |lines| == 0 ==> r == ""
    ensures |lines| >= 1 ==> |r| == TotalLength(lines) + |lines| - 1
    ensures |lines| >= 1 ==> r[..|lines[0]|] == lines[0]
    ensures |lines| >= 1 ==> |lines[|lines| - 1]| <= |r|
    ensures |lines| >= 1 ==> r[|r| - |lines[|lines| - 1]|..] == lines[|lines| - 1]
  {
    if |lines| == 0 then ""
    else if |lines| == 1 then lines[0]
    else
      var tail := JoinLines(lines[1..]);
      var r := lines[0] + "\n" + tail;
      assert lines[1..][|lines| - 2] == lines[|lines| - 1];
      assert r[..|lines[0]|] == lines[0];
      assert r[|r| - |tail|..] == tail;
      r
  }

  /** The text cut at every newline; a text without one is a single line. */
  function SplitLines(text: string): (lines: seq<string>)
    ensures |lines| >= 1
  {
    if |text| == 0 then [""]
    else
      var rest := SplitLines(text[1..]);
      if text[0] == '\n' then [""] + rest
      else [[text[0]] + rest[0]] + rest[1..]
  }

  predicate NoNewline(s: string)
  {
    forall i :: 0 <= i < |s| ==> s[i] != '\n'
  }

  lemma {:induction false} SplitNoNewline(s: string, tail: string)
    requires NoNewline(s)
    ensures SplitLines(s) == [s]
    ensures SplitLines(s + "\n" + tail) == [s] + SplitLines(tail)
  {
    if |s| > 0 {
      SplitNoNewline(s[1..], tail);
      assert (s + "\n" + tail)[1..] == s[1..] + "\n" + tail;
      assert [s[0]] + s[1..] == s;
    } else {
      assert s + "\n" + tail == "\n" + tail;
      assert ("\n" + tail)[1..] == tail;
    }
  }

  /** Splitting the joined text gives back the lines, when none holds a newline. */
  lemma {:induction false} SplitJoinLines(lines: seq<string>)
    requires |lines| >= 1
    requires forall i :: 0 <= i < |lines| ==> NoNewline(lines[i])
    ensures SplitLines(JoinLines(lines)) == lines
  {
    if |lines| == 1 {
      SplitNoNewline(lines[0], "");
    } else {
      SplitJoinLines(lines[1..]);
      SplitNoNewline(lines[0], JoinLines(lines[1..]));
    }
  }

  /** The display steps: the i-th hop as "path[i] -> directions[i] -> path[i+1]",
      and the destination last. The caller supplies at least one instruction
      per hop and a non-empty path. */
  method FormatSteps(path: seq<Location>, directions: seq<string>) returns (steps: seq<string>)
    requires |path| > 0 && |directions| >= |path| - 1
    ensures |steps| == |path|
    ensures forall i :: 0 <= i < |path| - 1 ==>
              steps[i] == path[i] + " -> " + directions[i] + " -> " + path[i + 1]
    ensures steps[|path| - 1] == path[|path| - 1]
  {
    steps := [];
    var i := 0;
    while i < |path| - 1
      invariant 0 <= i <= |path| - 1
      invariant |steps| == i
      invariant forall m :: 0 <= m < i ==>
                  steps[m] == path[m] + " -> " + directions[m] + " -> " + path[m + 1]
    {
      steps := steps + [path[i] + " -> " + directions[i] + " -> " + path[i + 1]];
      i := i + 1;
    }
    steps := steps + [path[|path| - 1]];
  }

  /** The text shown for a route. When no name and no printed instruction
      holds a newline,
      it reads back as exactly one line per location: a line per hop, then
      the destination. */
  method DisplayPathAndDirections(path: seq<Location>, directions: seq<string>) returns (text: string)
    requires |path| > 0 && |directions| >= |path| - 1
    ensures (forall i :: 0 <= i < |path| ==> NoNewline(path[i])) &&
            (forall i :: 0 <= i < |path| - 1 ==> NoNewline(directions[i])) ==>
              var lines := SplitLines(text);
              && |lines| == |path|
              && (forall i :: 0 <= i < |path| - 1 ==>
                    lines[i] == path[i] + " -> " + directions[i] + " -> " + path[i + 1])
              && lines[|path| - 1] == path[|path| - 1]
  {
    var steps := FormatSteps(path, directions);
    text := JoinLines(steps);
    if (forall i :: 0 <= i < |path| ==> NoNewline(path[i])) &&
       (forall i :: 0 <= i < |path| - 1 ==> NoNewline(directions[i])) {
      forall i | 0 <= i < |steps| ensures NoNewline(steps[i]) {
        if i < |path| - 1 {
          assert NoNewline(" -> ");
          ConcatNoNewline(path[i], " -> ", directions[i], " -> ", path[i + 1]);
        }
      }
      SplitJoinLines(steps);
    }
  }

  lemma ConcatNoNewline(a: string, b: string, c: string, d: string, e: string)
    requires NoNewline(a) && NoNewline(b) && NoNewline(c) && NoNewline(d) && NoNewline(e)
    ensures NoNewline(a + b + c + d + e)
  {
  }
}
