/**
  The line-based config store of discbot.py: `GoogleBot.config` read as a list
  of lines, `readConfig` (first line mentioning the lower-cased parameter),
  `writeConfig` (every such line rewritten, the file always written back), the
  `-s` argument parsing of `configCommand`, `safeCast` and the clamp applied to
  the result counts.
 */
module DiscbotConfig {
  import opened Wrappers
  import opened Strings
  import opened Py

  /** Index of the first line at or after `from` that contains `key`, or |lines| when none does. */
  function FirstMatching(lines: seq<string>, key: string, from: nat): (k: nat)
    requires from <= |lines|
    ensures from <= k <= |lines|
    ensures k < |lines| ==> Contains(lines[k], key)
    ensures forall i :: from <= i < k ==> !Contains(lines[i], key)
    decreases |lines| - from
  {
    if from == |lines| then |lines|
    else if Contains(lines[from], key) then from
    else FirstMatching(lines, key, from + 1)
  }

  /**
    `readConfig(parameter)` on the lines of the file: -1 when no line contains the
    lower-cased parameter, otherwise `int` of the first such line after its first
    |parameter|+2 characters; None stands for the ValueError `int` raises.
   */
  function ReadValue(lines: seq<string>, parameter: string): (r: Option<int>)
    ensures !Mentions(lines, parameter) ==> r == Some(-1)
    ensures Mentions(lines, parameter) ==>
      var k := FirstMatching(lines, ToLower(parameter), 0);
      k < |lines| && r == Int(SliceFrom(lines[k], |parameter| + 2))
  {
    MentionsFirstMatching(lines, parameter);
    var k := FirstMatching(lines, ToLower(parameter), 0);
    if k == |lines| then Some(-1) else Int(SliceFrom(lines[k], |parameter| + 2))
  }

  /** The line `writeConfig` writes for `parameter`, spelled as given. */
  function ConfigLine(parameter: string, value: int): string
  {
    parameter + ": " + IntToDecimal(value) + "\n"
  }

  /** The lines after `writeConfig(parameter, value)`. */
  function Rewritten(lines: seq<string>, parameter: string, value: int): (out: seq<string>)
    ensures |out| == |lines|
    ensures forall i :: 0 <= i < |lines| && !Contains(lines[i], ToLower(parameter)) ==> out[i] == lines[i]
    ensures forall i :: 0 <= i < |lines| && Contains(lines[i], ToLower(parameter)) ==> out[i] == ConfigLine(parameter, value)
  {
    seq(|lines|, i requires 0 <= i < |lines| =>
      if Contains(lines[i], ToLower(parameter)) then ConfigLine(parameter, value) else lines[i])
  }

  /** Some line contains the lower-cased parameter. */
  predicate Mentions(lines: seq<string>, parameter: string)
  {
    exists i :: 0 <= i < |lines| && Contains(lines[i], ToLower(parameter))
  }

  /** Some line mentions the parameter exactly when the scan for the first such line stops inside the file. */
  lemma MentionsFirstMatching(lines: seq<string>, parameter: string)
    ensures Mentions(lines, parameter) <==> FirstMatching(lines, ToLower(parameter), 0) < |lines|
  {
  }

  /** A lower-case parameter is found by `readConfig` in every line `writeConfig` writes for it. */
  lemma LineMentionsParameter(parameter: string, value: int)
    requires ToLower(parameter) == parameter
    ensures Contains(ConfigLine(parameter, value), ToLower(parameter))
  {
    assert OccursAt(ConfigLine(parameter, value), parameter, 0);
    OccurrenceFound(ConfigLine(parameter, value), parameter, 0);
  }

  /** What `readConfig` cuts from a written line is the rendered value and its line break. */
  lemma ValueOfConfigLine(parameter: string, value: int)
    ensures SliceFrom(ConfigLine(parameter, value), |parameter| + 2) == IntToDecimal(value) + "\n"
  {
    var line := ConfigLine(parameter, value);
    assert line[|parameter| + 2..] == IntToDecimal(value) + "\n";
  }

  /** Rewriting keeps the first mentioning line where it was, when the new lines mention the key too. */
  lemma RewriteKeepsFirstMatch(lines: seq<string>, parameter: string, value: int)
    requires Mentions(lines, parameter)
    requires Contains(ConfigLine(parameter, value), ToLower(parameter))
    ensures var k := FirstMatching(lines, ToLower(parameter), 0);
      k < |lines| && FirstMatching(Rewritten(lines, parameter, value), ToLower(parameter), 0) == k
  {
    var key := ToLower(parameter);
    var out := Rewritten(lines, parameter, value);
    var k := FirstMatching(lines, key, 0);
    assert k < |lines|;
    assert Contains(out[k], key);
    assert forall i :: 0 <= i < k ==> out[i] == lines[i];
  }

  /**
    Writing a lower-case parameter that some line mentions and reading it back
    gives the value written.
   */
  lemma WriteThenRead(lines: seq<string>, parameter: string, value: int)
    requires ToLower(parameter) == parameter && Mentions(lines, parameter)
    ensures ReadValue(Rewritten(lines, parameter, value), parameter) == Some(value)
  {
    LineMentionsParameter(parameter, value);
    RewriteKeepsFirstMatch(lines, parameter, value);
    var k := FirstMatching(lines, ToLower(parameter), 0);
    var out := Rewritten(lines, parameter, value);
    assert out[k] == ConfigLine(parameter, value);
    ValueOfConfigLine(parameter, value);
    IntOfRenderedLine(value);
  }

  /** A written line holds its only line break at its end when the parameter holds none. */
  lemma ConfigLineShaped(parameter: string, value: int)
    requires '\n' !in parameter
    ensures var line := ConfigLine(parameter, value);
      |line| > 0 && line[|line| - 1] == '\n' && forall j :: 0 <= j < |line| - 1 ==> line[j] != '\n'
  {
    var digits := NatToDecimal(if value < 0 then -value else value);
    assert IntToDecimal(value) == digits || IntToDecimal(value) == "-" + digits;
    assert forall j :: 0 <= j < |digits| ==> IsDigit(digits[j]);
  }

  /** Rewriting keeps the shape `readlines()` gives when the parameter holds no line break. */
  lemma RewrittenShaped(lines: seq<string>, parameter: string, value: int)
    requires LineShaped(lines) && '\n' !in parameter
    ensures LineShaped(Rewritten(lines, parameter, value))
  {
    ConfigLineShaped(parameter, value);
  }

  /**
    The round trip through the file: `writeConfig` writes the rewritten lines as one
    text, and the next `readConfig` reads that text back with `readlines()`. For a
    lower-case parameter without a line break this gives the value written.
   */
  lemma WriteThenReadFile(lines: seq<string>, parameter: string, value: int)
    requires ToLower(parameter) == parameter && Mentions(lines, parameter)
    requires LineShaped(lines) && '\n' !in parameter
    ensures ReadValue(ReadLines(Concat(Rewritten(lines, parameter, value))), parameter) == Some(value)
  {
    RewrittenShaped(lines, parameter, value);
    ReadLinesConcat(Rewritten(lines, parameter, value));
    WriteThenRead(lines, parameter, value);
  }

  /** `-s 3\n 7` names the parameter `3\n`, which the line `text_results: 3\n` mentions. */
  lemma NewlineParameterWritten()
    ensures ToLower("3\n") == "3\n" && Mentions(["text_results: 3\n"], "3\n")
    ensures Rewritten(["text_results: 3\n"], "3\n", 7) == ["3\n: 7\n"]
  {
    var line := "text_results: 3\n";
    assert ToLower("3\n") == "3\n" by {
      assert ToLower("3\n")[0] == '3' && ToLower("3\n")[1] == '\n';
    }
    assert OccursAt(line, "3\n", 14) by {
      assert line[14..16] == "3\n";
    }
    OccurrenceFound(line, "3\n", 14);
    assert Contains([line][0], ToLower("3\n"));
    assert IntToDecimal(7) == "7";
    assert ConfigLine("3\n", 7) == "3\n: 7\n";
  }

  /** `readlines()` cuts the written text after both of its line breaks. */
  lemma NewlineTextSplits(text: string)
    requires text == "3\n: 7\n"
    ensures ReadLines(text) == ["3\n", ": 7\n"]
  {
    var lines := ["3\n", ": 7\n"];
    assert LineShaped(lines);
    assert Concat(lines) == text by {
      assert Concat(lines) == "3\n" + Concat([": 7\n"]);
      assert Concat([": 7\n"]) == ": 7\n" + Concat([]);
    }
    ReadLinesConcat(lines);
  }

  /** `readConfig("3\n")` stops at the bare `3\n` line and raises on the empty text after it. */
  lemma NewlineParameterRaises()
    ensures ReadValue(["3\n", ": 7\n"], "3\n").None?
  {
    assert ToLower("3\n") == "3\n" by {
      assert ToLower("3\n")[0] == '3' && ToLower("3\n")[1] == '\n';
    }
    assert OccursAt("3\n", "3\n", 0);
    OccurrenceFound("3\n", "3\n", 0);
    assert SliceFrom("3\n", 4) == "";
    assert Strip("") == "";
  }

  /**
    A parameter ending in a line break is written as two lines. The next `readlines()`
    splits them, and `readConfig` raises, although the written list alone reads back.
   */
  lemma NewlineParameterSplits()
    ensures var written := Rewritten(["text_results: 3\n"], "3\n", 7);
      && ReadValue(written, "3\n") == Some(7)
      && ReadValue(ReadLines(Concat(written)), "3\n").None?
  {
    var lines := ["text_results: 3\n"];
    NewlineParameterWritten();
    WriteThenRead(lines, "3\n", 7);
    var written := ["3\n: 7\n"];
    assert Concat(written) == "3\n: 7\n" by {
      assert Concat(written) == "3\n: 7\n" + Concat([]);
    }
    NewlineTextSplits(Concat(written));
    NewlineParameterRaises();
  }

  /** `safeCast(value, int, default)` on text: `int(value)`, or the default where that raises. */
  function SafeCast(value: string, default: int): (r: int)
    ensures Int(value).Some? ==> r == Int(value).value
    ensures Int(value).None? ==> r == default
  {
    Int(value).GetOr(default)
  }

  /**
    The parameter and value the `-s` option of `configCommand` names: the word
    after `-s`, and the rest of the text cast to an integer with 1 as default.
   */
  function SetRequest(command: string): (r: (string, int))
    ensures ' ' !in r.0
  {
    var setSection := SliceFrom(command, IndexOf(command, "-s"));
    var paramSection := SliceFrom(setSection, IndexOf(setSection, " ") + 1);
    ParameterWord(paramSection);
    var parameter := SliceTo(paramSection, IndexOf(paramSection, " "));
    var value := SliceFrom(paramSection, IndexOf(paramSection, " ") + 1);
    (parameter, SafeCast(value, 1))
  }

  /** The text before the first space holds no space, and so does a space-free text cut by one. */
  lemma ParameterWord(section: string)
    ensures ' ' !in SliceTo(section, IndexOf(section, " "))
  {
    var k := IndexOf(section, " ");
    IndexOfCharAbsent(section, ' ');
    if k != -1 {
      forall i | 0 <= i < k ensures section[i] != ' ' {
        OccursAtChar(section, ' ', i);
      }
    }
  }

  /** `-s` is found where it first stands when no dash comes before it. */
  lemma DashSAt(pre: string, rest: string)
    requires '-' !in pre
    ensures IndexOf(pre + "-s" + rest, "-s") == |pre|
  {
    var c := pre + "-s" + rest;
    assert c[|pre|..|pre| + 2] == "-s";
    forall i | 0 <= i < |pre| ensures !OccursAt(c, "-s", i) {
      assert c[i] == pre[i];
    }
    FirstOccurrence(c, "-s", 0, |pre|);
  }

  /** The parameter section of `-s` is what follows its first space. */
  lemma SetSectionWords(pre: string, rest: string)
    requires '-' !in pre
    ensures var command := pre + "-s " + rest;
      var setSection := SliceFrom(command, IndexOf(command, "-s"));
      SliceFrom(setSection, IndexOf(setSection, " ") + 1) == rest
  {
    var command := pre + "-s " + rest;
    assert command == pre + "-s" + (" " + rest);
    DashSAt(pre, " " + rest);
    var setSection := "-s " + rest;
    assert SliceFrom(command, |pre|) == setSection;
    assert setSection == "-s" + [' '] + rest;
    IndexOfChar(setSection, ' ', 2);
    assert SliceFrom(setSection, 3) == rest;
  }

  /** A parameter section splits at its first space into the parameter and the value. */
  lemma ParamWords(parameter: string, value: string)
    requires ' ' !in parameter
    ensures var paramSection := parameter + " " + value;
      && SliceTo(paramSection, IndexOf(paramSection, " ")) == parameter
      && SliceFrom(paramSection, IndexOf(paramSection, " ") + 1) == value
  {
    var paramSection := parameter + " " + value;
    assert paramSection == parameter + [' '] + value;
    IndexOfChar(paramSection, ' ', |parameter|);
    assert SliceTo(paramSection, |parameter|) == parameter;
    assert SliceFrom(paramSection, |parameter| + 1) == value;
  }

  /** `... -s <parameter> <value>` names that parameter and the value cast with `safeCast`. */
  lemma SetRequestWords(pre: string, parameter: string, value: string)
    requires '-' !in pre && ' ' !in parameter
    ensures SetRequest(pre + "-s " + parameter + " " + value) == (parameter, SafeCast(value, 1))
  {
    var command := pre + "-s " + parameter + " " + value;
    assert command == pre + "-s " + (parameter + " " + value);
    SetSectionWords(pre, parameter + " " + value);
    ParamWords(parameter, value);
    SetRequestOfSection(command, parameter + " " + value);
  }

  /** The request is read off the parameter section alone. */
  lemma SetRequestOfSection(command: string, paramSection: string)
    requires var setSection := SliceFrom(command, IndexOf(command, "-s"));
      SliceFrom(setSection, IndexOf(setSection, " ") + 1) == paramSection
    ensures SetRequest(command) == (SliceTo(paramSection, IndexOf(paramSection, " ")),
      SafeCast(SliceFrom(paramSection, IndexOf(paramSection, " ") + 1), 1))
  {
  }

  /** Without a value after the parameter, the parameter loses its last character and doubles as the value. */
  lemma SetRequestNoValue(pre: string, parameter: string)
    requires '-' !in pre && ' ' !in parameter && |parameter| > 0
    ensures SetRequest(pre + "-s " + parameter) == (parameter[..|parameter| - 1], SafeCast(parameter, 1))
  {
    SetSectionWords(pre, parameter);
    IndexOfCharAbsent(parameter, ' ');
  }

  /** `safeCast` turns a value that is not an integer into 1. */
  lemma SetRequestDefault(command: string)
    ensures var paramSection := SliceFrom(SliceFrom(command, IndexOf(command, "-s")), IndexOf(SliceFrom(command, IndexOf(command, "-s")), " ") + 1);
      Int(SliceFrom(paramSection, IndexOf(paramSection, " ") + 1)).None? ==> SetRequest(command).1 == 1
  {
  }

  /** The clamp `linkSearch` and `imageSearch` apply to a count read from the config: below 1 is 3, above 10 is 10. */
  function ResultCount(n: int): (r: int)
    ensures 1 <= r <= 10
    ensures 1 <= n <= 10 ==> r == n
    ensures n < 1 ==> r == 3
    ensures n > 10 ==> r == 10
  {
    if n < 1 then 3 else if n > 10 then 10 else n
  }

  /** The text of a help file for a topic, fenced; None when the file is missing. */
  function HelpText(docs: map<string, string>, path: string): Option<string>
  {
    if path in docs then Some("```\n" + docs[path] + "\n```") else None
  }

  function TopicPath(topic: string): string
  {
    "help/" + topic + ".help"
  }

  /** `GoogleBot.config` as the list of its lines, and a count of the times it was written. */
  class ConfigFile {
    var lines: seq<string>
    ghost var writes: nat

    constructor (contents: seq<string>)
      ensures lines == contents && writes == 0
    {
      lines := contents;
      writes := 0;
    }

    /** `readConfig`: the scan stops at the first line that mentions the parameter. */
    method Read(parameter: string) returns (r: Option<int>)
      ensures r == ReadValue(lines, parameter)
      ensures !Mentions(lines, parameter) ==> r == Some(-1)
    {
      var key := ToLower(parameter);
      r := Some(-1);
      var i := 0;
      while i < |lines|
        invariant 0 <= i <= |lines|
        invariant forall j :: 0 <= j < i ==> !Contains(lines[j], key)
      {
        if Contains(lines[i], key) {
          r := Int(SliceFrom(lines[i], |parameter| + 2));
          assert FirstMatching(lines, key, 0) == i;
          return;
        }
        i := i + 1;
      }
      assert FirstMatching(lines, key, 0) == |lines|;
    }

    /** `writeConfig`: every line mentioning the parameter is replaced, and the file is written back. */
    method Write(parameter: string, value: int) returns (success: bool)
      modifies this
      ensures lines == Rewritten(old(lines), parameter, value)
      ensures success <==> Mentions(old(lines), parameter)
      ensures writes == old(writes) + 1
    {
      var key := ToLower(parameter);
      var newLines: seq<string> := [];
      success := false;
      var i := 0;
      while i < |lines|
        invariant 0 <= i <= |lines| && |newLines| == i
        invariant forall j :: 0 <= j < i ==> newLines[j] == Rewritten(lines, parameter, value)[j]
        invariant success <==> exists j :: 0 <= j < i && Contains(lines[j], key)
      {
        if Contains(lines[i], key) {
          newLines := newLines + [ConfigLine(parameter, value)];
          success := true;
        } else {
          newLines := newLines + [lines[i]];
        }
        i := i + 1;
      }
      assert newLines == Rewritten(lines, parameter, value);
      lines := newLines;
      writes := writes + 1;
    }

    /**
      `configCommand`: the help file for `-?`; for `-s`/`-set` a write and a report
      of it; otherwise the file contents. None stands for a missing help file.
     */
    method Command(command: string, docs: map<string, string>) returns (reply: Option<string>)
      modifies this
      ensures Contains(command, "-?") ==> reply == HelpText(docs, TopicPath("config")) && lines == old(lines) && writes == old(writes)
      ensures !Contains(command, "-?") && Contains(command, "-s") ==>
        var (parameter, value) := SetRequest(command);
        && lines == Rewritten(old(lines), parameter, value) && writes == old(writes) + 1
        && reply == Some((if Mentions(old(lines), parameter) then "```Set \"" else "```Failed to set \"")
                         + parameter + "\" to value \"" + IntToDecimal(value) + "\"```")
      ensures !Contains(command, "-?") && !Contains(command, "-s") ==>
        reply == Some("Contents of config file:\n```" + Concat(lines) + "```") && lines == old(lines) && writes == old(writes)
    {
      if Contains(command, "-?") {
        reply := HelpText(docs, TopicPath("config"));
      } else if Contains(command, "-s") || Contains(command, "-set") {
        // `-set` contains `-s`, so the second test adds nothing.
        ContainsPrefixPart(command, "-s", "et");
        assert "-s" + "et" == "-set";
        var (parameter, value) := SetRequest(command);
        var result := Write(parameter, value);
        if result {
          reply := Some("```Set \"" + parameter + "\" to value \"" + IntToDecimal(value) + "\"```");
        } else {
          reply := Some("```Failed to set \"" + parameter + "\" to value \"" + IntToDecimal(value) + "\"```");
        }
      } else {
        reply := Some("Contents of config file:\n```" + Concat(lines) + "```");
      }
    }
  }

  /** A parameter written in upper case is no longer found after it is set: the line is rewritten as typed. */
  lemma UpperCaseSetLosesLine()
    ensures Rewritten(["text_results: 3\n"], "TEXT_RESULTS", 5) == ["TEXT_RESULTS: 5\n"]
    ensures ReadValue(["TEXT_RESULTS: 5\n"], "TEXT_RESULTS") == Some(-1)
  {
    var key := ToLower("TEXT_RESULTS");
    assert key == "text_results";
    assert OccursAt("text_results: 3\n", key, 0);
    OccurrenceFound("text_results: 3\n", key, 0);
    assert IntToDecimal(5) == [DigitChar(5)] == "5";
    assert ConfigLine("TEXT_RESULTS", 5) == "TEXT_RESULTS: 5\n";
    AbsentLead("TEXT_RESULTS: 5\n", key);
  }
}
