/** The text handling of parse_result: split the engine's output into lines, drop the
    logger's lines (those starting with INFO, WARNING or ERROR) and join the rest with
    newlines into the text that is then decoded as JSON. */
module LogFilter {

  function HasPrefix(line: string, prefix: string): bool {
    |prefix| <= |line| && line[..|prefix|] == prefix
  }

  /** A line written by the logger rather than by the engine's JSON report. */
  predicate IsLogLine(line: string) {
    HasPrefix(line, "INFO") || HasPrefix(line, "WARNING") || HasPrefix(line, "ERROR")
  }

  /** The lines that are not log lines, in their original order. */
  function KeptLines(lines: seq<string>): (r: seq<string>)
    ensures |r| <= |lines|
  {
    if lines == [] then []
    else (if IsLogLine(lines[0]) then [] else [lines[0]]) + KeptLines(lines[1..])
  }

  /** Filtering distributes over concatenation: each line is kept or dropped on its own,
      and the kept lines stay in order. */
  lemma {:induction false} KeptLinesAppend(a: seq<string>, b: seq<string>)
    ensures KeptLines(a + b) == KeptLines(a) + KeptLines(b)
  {
    if a == [] {
      assert a + b == b;
    } else {
      var head := if IsLogLine(a[0]) then [] else [a[0]];
      var ka, kb := KeptLines(a[1..]), KeptLines(b);
      assert KeptLines(a + b) == head + KeptLines(a[1..] + b) by {
        assert (a + b)[0] == a[0] && (a + b)[1..] == a[1..] + b;
      }
      assert KeptLines(a[1..] + b) == ka + kb by {
        KeptLinesAppend(a[1..], b);
      }
      assert head + (ka + kb) == (head + ka) + kb;
    }
  }

  /** Exactly the non-log lines survive, each as often as it occurs. */
  lemma {:induction false} KeptLinesCount(lines: seq<string>, l: string)
    ensures multiset(KeptLines(lines))[l] == if IsLogLine(l) then 0 else multiset(lines)[l]
  {
    if lines != [] {
      KeptLinesCount(lines[1..], l);
      assert lines == [lines[0]] + lines[1..];
    }
  }

  /** The line boundaries of Python's str.splitlines. */
  predicate IsLineBreak(c: char) {
    c in {'\n', '\r', '\U{0B}', '\U{0C}', '\U{1C}', '\U{1D}', '\U{1E}', '\U{85}', '\U{2028}', '\U{2029}'}
  }

  predicate NoBreaks(line: string) {
    forall i :: 0 <= i < |line| ==> !IsLineBreak(line[i])
  }

  /** Position of the first line boundary in `s`, or |s| if there is none. */
  function FirstBreak(s: string): (k: nat)
    ensures k <= |s|
    ensures k < |s| ==> IsLineBreak(s[k])
    ensures NoBreaks(s[..k])
  {
    if s == [] then 0
    else if IsLineBreak(s[0]) then 0
    else
      var k := FirstBreak(s[1..]);
      assert s[..k + 1] == [s[0]] + s[1..][..k];
      k + 1
  }

  /** str.splitlines: "\r\n" counts as one boundary and a final boundary adds no empty line. */
  function SplitLines(s: string): (lines: seq<string>)
    ensures forall l :: l in lines ==> NoBreaks(l)
    decreases |s|
  {
    if s == [] then []
    else
      var k := FirstBreak(s);
      if k == |s| then
        assert s[..k] == s;
        [s]
      else
        var width := if s[k] == '\r' && k + 1 < |s| && s[k + 1] == '\n' then 2 else 1;
        [s[..k]] + SplitLines(s[k + width..])
  }

  /** "\n".join(lines) */
  function JoinLines(lines: seq<string>): string {
    if lines == [] then ""
    else if |lines| == 1 then lines[0]
    else lines[0] + "\n" + JoinLines(lines[1..])
  }

  /** The text that parse_result hands to the JSON decoder. */
  function JsonText(output: string): string {
    JoinLines(KeptLines(SplitLines(output)))
  }

  lemma {:induction false} FirstBreakNone(s: string)
    requires NoBreaks(s)
    ensures FirstBreak(s) == |s|
  {
    if s != [] {
      assert !IsLineBreak(s[0]);
      FirstBreakNone(s[1..]);
    }
  }

  lemma {:induction false} FirstBreakAfter(a: string, b: string)
    requires NoBreaks(a)
    ensures FirstBreak(a + "\n" + b) == |a|
  {
    if a != [] {
      assert (a + "\n" + b)[1..] == a[1..] + "\n" + b;
      FirstBreakAfter(a[1..], b);
    }
  }

  /** Joining lines that hold no line boundary, the last one non-empty, and splitting the
      result gives the lines back. */
  lemma {:induction false} SplitJoin(lines: seq<string>)
    requires forall l :: l in lines ==> NoBreaks(l)
    requires lines != [] ==> lines[|lines| - 1] != ""
    ensures SplitLines(JoinLines(lines)) == lines
  {
    if |lines| == 1 {
      assert lines[0] in lines;
      FirstBreakNone(lines[0]);
    } else if |lines| > 1 {
      var s := JoinLines(lines);
      var rest := lines[1..];
      assert lines[0] in lines;
      assert forall l :: l in rest ==> l in lines;
      FirstBreakAfter(lines[0], JoinLines(rest));
      assert s[|lines[0]|] == '\n';
      assert s[..|lines[0]|] == lines[0];
      assert s[|lines[0]| + 1..] == JoinLines(rest);
      SplitJoin(rest);
    }
  }

  /** A line boundary as str.splitlines consumes it: "\r\n" or one boundary character. */
  predicate IsSeparator(sep: string) {
    sep == "\r\n" || (|sep| == 1 && IsLineBreak(sep[0]))
  }

  lemma {:induction false} FirstBreakAt(a: string, sep: string, b: string)
    requires NoBreaks(a) && IsSeparator(sep)
    ensures FirstBreak(a + sep + b) == |a|
  {
    if a != [] {
      assert (a + sep + b)[1..] == a[1..] + sep + b;
      FirstBreakAt(a[1..], sep, b);
    }
  }

  /** One step of SplitLines: the first line, then the lines after its separator. */
  lemma SplitLinesStep(s: string, k: nat, width: nat)
    requires k == FirstBreak(s) && k < |s|
    requires width == if s[k] == '\r' && k + 1 < |s| && s[k + 1] == '\n' then 2 else 1
    ensures k + width <= |s|
    ensures SplitLines(s) == [s[..k]] + SplitLines(s[k + width..])
  {
  }

  lemma SliceThree(s: string, i: nat, j: nat)
    requires i <= j <= |s|
    ensures s == s[..i] + s[i..j] + s[j..]
  {
  }

  /** A line, a separator and the rest of the text split into that line and the lines
      of the rest, provided a lone "\r" is not followed by "\n". */
  lemma SplitAt(a: string, sep: string, rest: string)
    requires NoBreaks(a) && IsSeparator(sep)
    requires sep == "\r" && rest != "" ==> rest[0] != '\n'
    ensures SplitLines(a + sep + rest) == [a] + SplitLines(rest)
  {
    var s := a + sep + rest;
    var k := |a|;
    FirstBreakAt(a, sep, rest);
    assert s[..k] == a && s[k..k + |sep|] == sep && s[k + |sep|..] == rest;
    assert |sep| == if s[k] == '\r' && k + 1 < |s| && s[k + 1] == '\n' then 2 else 1 by {
      if sep == "\r" && k + 1 < |s| {
        assert s[k + 1] == rest[0];
      }
    }
    SplitLinesStep(s, k, |sep|);
  }

  /** Output that ends with a newline, as printed output does, splits into the same
      lines: the final boundary adds no empty line. */
  lemma {:induction false} SplitJoinTerminated(lines: seq<string>)
    requires lines != []
    requires forall l :: l in lines ==> NoBreaks(l)
    ensures SplitLines(JoinLines(lines) + "\n") == lines
  {
    var t := JoinLines(lines) + "\n";
    assert NoBreaks(lines[0]) by {
      assert lines[0] in lines;
    }
    if |lines| == 1 {
      assert t == lines[0] + "\n" + "";
      SplitAt(lines[0], "\n", "");
    } else {
      var rest := lines[1..];
      var u := JoinLines(rest) + "\n";
      assert t == lines[0] + "\n" + u;
      assert SplitLines(t) == [lines[0]] + SplitLines(u) by {
        SplitAt(lines[0], "\n", u);
      }
      assert SplitLines(u) == rest by {
        assert forall l :: l in rest ==> l in lines;
        SplitJoinTerminated(rest);
      }
      assert lines == [lines[0]] + rest;
    }
  }

  /** The text made of each line followed by its separator. */
  function Rebuild(lines: seq<string>, seps: seq<string>): string
    requires |lines| == |seps|
  {
    if lines == [] then "" else lines[0] + seps[0] + Rebuild(lines[1..], seps[1..])
  }

  /** `lines` and `seps` cut `s` the way str.splitlines does: every line is free of
      boundaries and followed by a whole separator, except that the last line may end the
      text without one (and is then not empty), and a lone "\r" is never followed by the
      "\n" that would have made it "\r\n". */
  predicate IsSplitting(s: string, lines: seq<string>, seps: seq<string>) {
    |seps| == |lines|
    && (forall k :: 0 <= k < |lines| ==> NoBreaks(lines[k]))
    && (forall k :: 0 <= k < |seps| - 1 ==> IsSeparator(seps[k]))
    && (seps != [] ==> IsSeparator(seps[|seps| - 1]) || (seps[|seps| - 1] == "" && lines[|lines| - 1] != ""))
    && (forall k :: 0 <= k < |seps| - 1 && seps[k] == "\r" ==> lines[k + 1] != "" || seps[k + 1] != "\n")
    && s == Rebuild(lines, seps)
  }

  /** What follows a lone "\r" separator never starts with "\n". */
  lemma SplittingStart(s: string, lines: seq<string>, seps: seq<string>)
    requires IsSplitting(s, lines, seps)
    requires lines != [] && (lines[0] != "" || seps[0] != "\n")
    ensures s != "" && s[0] != '\n'
  {
    assert s == lines[0] + seps[0] + Rebuild(lines[1..], seps[1..]);
    assert lines[0] != "" ==> s[0] == lines[0][0];
    assert lines[0] == "" ==> seps[0] != "";
  }

  /** A line and its separator put in front of a splitting give a splitting. */
  lemma SplittingCons(a: string, sep: string, rest: string, tail: seq<string>, seps: seq<string>)
    requires NoBreaks(a) && IsSeparator(sep)
    requires IsSplitting(rest, tail, seps)
    requires sep == "\r" && rest != "" ==> rest[0] != '\n'
    ensures IsSplitting(a + sep + rest, [a] + tail, [sep] + seps)
  {
    var lines, seps' := [a] + tail, [sep] + seps;
    assert lines[1..] == tail && seps'[1..] == seps;
  }

  /** Dropping the first line and its separator from a splitting leaves a splitting. */
  lemma SplittingTail(s: string, lines: seq<string>, seps: seq<string>)
    requires IsSplitting(s, lines, seps) && lines != []
    ensures IsSplitting(Rebuild(lines[1..], seps[1..]), lines[1..], seps[1..])
  {
    forall j | 0 <= j < |lines| - 1 ensures NoBreaks(lines[1..][j]) {
      assert lines[1..][j] == lines[j + 1];
    }
  }

  /** The separators that SplitLines consumes between the lines of `s`. */
  lemma {:induction false} SplitLinesSeparators(s: string) returns (seps: seq<string>)
    ensures IsSplitting(s, SplitLines(s), seps)
    decreases |s|
  {
    if s == [] {
      seps := [];
    } else {
      var k := FirstBreak(s);
      if k == |s| {
        assert s[..k] == s;
        seps := [""];
      } else {
        var width := if s[k] == '\r' && k + 1 < |s| && s[k + 1] == '\n' then 2 else 1;
        var rest := s[k + width..];
        var sep := s[k..k + width];
        SplitLinesStep(s, k, width);
        assert s == s[..k] + sep + rest by {
          SliceThree(s, k, k + width);
        }
        assert IsSeparator(sep) by {
          assert width == 2 ==> sep == "\r\n";
        }
        assert sep == "\r" && rest != "" ==> rest[0] != '\n' by {
          assert sep == "\r" ==> width == 1;
        }
        var seps' := SplitLinesSeparators(rest);
        SplittingCons(s[..k], sep, rest, SplitLines(rest), seps');
        seps := [sep] + seps';
      }
    }
  }

  /** The lines of every text are the pieces of that text: some separators put between
      them give the text back. */
  lemma SplitLinesPieces(s: string)
    ensures exists seps :: IsSplitting(s, SplitLines(s), seps)
  {
    var seps := SplitLinesSeparators(s);
  }

  /** Conversely, every way of cutting a text as str.splitlines does yields its lines, so
      SplitLines is the one such splitting. */
  lemma {:induction false} SplittingUnique(s: string, lines: seq<string>, seps: seq<string>)
    requires IsSplitting(s, lines, seps)
    ensures lines == SplitLines(s)
    decreases |lines|
  {
    if lines != [] {
      var rest := Rebuild(lines[1..], seps[1..]);
      assert s == lines[0] + seps[0] + rest;
      if seps[0] == "" {
        assert |seps| == 1;
        assert rest == "" && s == lines[0];
        FirstBreakNone(s);
        assert s[..|s|] == s;
      } else {
        assert SplitLines(s) == [lines[0]] + SplitLines(rest) by {
          assert NoBreaks(lines[0]) && IsSeparator(seps[0]);
          assert seps[0] == "\r" && rest != "" ==> rest[0] != '\n' by {
            if seps[0] == "\r" && rest != "" {
              SplittingTail(s, lines, seps);
              SplittingStart(rest, lines[1..], seps[1..]);
            }
          }
          SplitAt(lines[0], seps[0], rest);
        }
        assert lines[1..] == SplitLines(rest) by {
          SplittingTail(s, lines, seps);
          SplittingUnique(rest, lines[1..], seps[1..]);
        }
        assert lines == [lines[0]] + lines[1..];
      }
    }
  }

  /** The decoder sees exactly the non-log lines of the output, in their original order,
      whenever the last of them is not empty. */
  lemma JsonTextLines(output: string)
    requires var kept := KeptLines(SplitLines(output)); kept != [] ==> kept[|kept| - 1] != ""
    ensures SplitLines(JsonText(output)) == KeptLines(SplitLines(output))
  {
    SplitJoin(KeptLines(SplitLines(output)));
  }
}
