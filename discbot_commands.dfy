/**
  The message handling of discbot.py with the Discord client, the network and
  the files peeled off: `handleMessage` routing, the `commandParser` prefix chain,
  `versionCommand`, `changelogCommand`, `rollCommand`, `helpCommand` and the
  prefix table of `imageSearch`. Files the commands read are a map from path to
  contents; the random draw is a function of the die size.
 */
module DiscbotCommands {
  import opened Wrappers
  import opened Strings
  import opened Py
  import DiscbotConfig

  /** Where `handleMessage` sends a message. */
  datatype Route = Ignore | RunCommand | SearchImages | SearchLinks

  /** `handleMessage`: only messages from others that start with the bot's mention and a space are handled. */
  function HandleMessage(content: string, fromBot: bool, mention: string): (r: Route)
    ensures r != Ignore <==> !fromBot && StartsWith(content, mention + " ")
    ensures r == RunCommand <==> !fromBot && StartsWith(content, mention + " !")
  {
    var address := mention + " ";
    if fromBot then Ignore
    else if StartsWith(content, address) then
      if StartsWith(content, mention + " !") then RunCommand
      else if StartsWith(content, mention + " image ") || StartsWith(content, mention + " picture ")
           || StartsWith(content, mention + " images ") || StartsWith(content, mention + " pictures ") then SearchImages
      else SearchLinks
    else Ignore
  }

  /** A message of the bot itself is never handled, whatever it says. */
  lemma OwnMessagesIgnored(content: string, mention: string)
    ensures HandleMessage(content, true, mention) == Ignore
  {
  }

  /** Where `commandParser` sends the text after the first `!`. */
  datatype Command =
    | Version(command: string)
    | Changelog(command: string)
    | Config(command: string)
    | Roll(command: string)
    | Help(command: string)
    | Unknown(reply: string)

  /**
   * `content[content.find(c) + 1:]`: the text after the first `c`, or all of it.
   * `commandParser` cuts at `!`; the searches cut their `rawInput` at a space.
   */
  function AfterFirst(content: string, c: char): (t: string)
    ensures |t| <= |content| && t == content[|content| - |t|..]
    ensures c !in content ==> t == content
  {
    IndexOfCharAbsent(content, c);
    SliceFrom(content, IndexOf(content, [c]) + 1)
  }

  /** The prefix chain of `commandParser`, tried in the order version, changelog, config, roll, help. */
  function ParseCommand(content: string): (c: Command)
    ensures c.Unknown? ==> c.reply == "Command \"" + AfterFirst(content, '!') + "\" not recognized"
  {
    var command := AfterFirst(content, '!');
    if StartsWith(command, "version") then Version(command)
    else if StartsWith(command, "changelog") then Changelog(command)
    else if StartsWith(command, "config") then Config(command)
    else if StartsWith(command, "roll") then Roll(command)
    else if StartsWith(command, "help") then Help(command)
    else Unknown("Command \"" + command + "\" not recognized")
  }

  /** Everything after the first `!` is the command, arguments included. */
  lemma CommandAfterBang(pre: string, rest: string)
    requires '!' !in pre
    ensures AfterFirst(pre + "!" + rest, '!') == rest
  {
    var c := pre + "!" + rest;
    assert c == pre + ['!'] + rest;
    IndexOfChar(c, '!', |pre|);
    assert c[..|pre|] == pre;
  }

  /** An unknown command is echoed whole, arguments included. */
  lemma UnknownEchoesArguments(pre: string, rest: string)
    requires '!' !in pre
    requires !StartsWith(rest, "version") && !StartsWith(rest, "changelog") && !StartsWith(rest, "config")
    requires !StartsWith(rest, "roll") && !StartsWith(rest, "help")
    ensures ParseCommand(pre + "!" + rest) == Unknown("Command \"" + rest + "\" not recognized")
  {
    CommandAfterBang(pre, rest);
  }

  /** `versionCommand`: the first line of the changelog, stripped and fenced; None when a file is missing. */
  function VersionReply(command: string, docs: map<string, string>): (r: Option<string>)
    ensures !Contains(command, "-?") ==> (r.Some? <==> "changelog.txt" in docs)
    ensures !Contains(command, "-?") && r.Some? ==> StartsWith(r.value, "```")
  {
    if Contains(command, "-?") then DiscbotConfig.HelpText(docs, DiscbotConfig.TopicPath("version"))
    else if "changelog.txt" in docs then Some("```" + Strip(ReadLine(docs["changelog.txt"])) + "```")
    else None
  }

  /** The version reply is the first line of the changelog without its line break, fenced. */
  lemma VersionShowsFirstLine(command: string, docs: map<string, string>, line: string, rest: string)
    requires !Contains(command, "-?")
    requires "changelog.txt" in docs && docs["changelog.txt"] == line + "\n" + rest
    requires '\n' !in line && |line| > 0 && !IsSpace(line[0]) && !IsSpace(line[|line| - 1])
    ensures VersionReply(command, docs) == Some("```" + line + "```")
  {
    var text := line + "\n" + rest;
    assert text == line + ['\n'] + rest;
    assert text[..|line|] == line;
    IndexOfChar(text, '\n', |line|);
    assert text[..|line| + 1] == line + "\n";
    StripLine(line);
  }

  /** `-full` contains `-f`, so the second test of the full option adds nothing. */
  lemma FullHasDashF(command: string)
    ensures Contains(command, "-full") ==> Contains(command, "-f")
  {
    ContainsPrefixPart(command, "-f", "ull");
    assert "-f" + "ull" == "-full";
  }

  /** A line ends the latest section when it starts with `v` and does not contain the stripped first line. */
  predicate EndsSection(lines: seq<string>, i: int)
    requires 0 <= i < |lines|
  {
    !Contains(lines[i], Strip(lines[0])) && StartsWith(lines[i], "v")
  }

  /** Index of the first line at or after `from` that ends the section, or |lines|. */
  function SectionEnd(lines: seq<string>, from: nat): (k: nat)
    requires from <= |lines|
    ensures from <= k <= |lines|
    ensures k < |lines| ==> EndsSection(lines, k)
    ensures forall i :: from <= i < k ==> !EndsSection(lines, i)
    decreases |lines| - from
  {
    if from == |lines| then |lines|
    else if EndsSection(lines, from) then from
    else SectionEnd(lines, from + 1)
  }

  /** The reply of the changelog loop: the lines before the section end, fenced; the closing fence only when an end was found. */
  function Section(lines: seq<string>): (r: string)
    ensures |lines| > 0 ==> StartsWith(r, "```" + lines[0])
  {
    var k := SectionEnd(lines, 0);
    var r := "```" + Concat(lines[..k]) + (if k < |lines| then "```" else "");
    assert |lines| > 0 ==> StartsWith(r, "```" + lines[0]) by {
      if |lines| > 0 {
        FirstLineKept(lines);
        assert lines[..k][1..] == lines[1..k];
        FenceLeads(lines[0], Concat(lines[1..k]), if k < |lines| then "```" else "");
      }
    }
    r
  }

  /** A fenced text starts with the fence and its own first part. */
  lemma FenceLeads(a: string, b: string, c: string)
    ensures StartsWith("```" + (a + b) + c, "```" + a)
  {
    assert ("```" + (a + b) + c)[..3 + |a|] == "```" + a;
  }


  /** The first line always belongs to the section: it contains its own stripped text. */
  lemma FirstLineKept(lines: seq<string>)
    requires |lines| > 0
    ensures SectionEnd(lines, 0) >= 1
  {
    StripIsInside(lines[0]);
  }

  /** Without a later version header, the section runs to the end of the file and is never closed. */
  lemma SectionUnclosed(lines: seq<string>)
    requires forall i :: 0 <= i < |lines| ==> !EndsSection(lines, i)
    ensures Section(lines) == "```" + Concat(lines)
  {
    SectionAt(lines, |lines|);
    assert lines[..|lines|] == lines;
  }

  /** One more line of the list adds that line to the concatenation. */
  lemma ConcatStep(lines: seq<string>, i: nat)
    requires i < |lines|
    ensures Concat(lines[..i + 1]) == Concat(lines[..i]) + lines[i]
  {
    ConcatAppend(lines[..i], [lines[i]]);
    assert lines[..i + 1] == lines[..i] + [lines[i]];
    assert Concat([lines[i]]) == lines[i] + Concat([]);
  }

  /** The section as the lines before the first ending line, and the closing fence when there is one. */
  lemma SectionAt(lines: seq<string>, k: nat)
    requires k <= |lines|
    requires k < |lines| ==> EndsSection(lines, k)
    requires forall j :: 0 <= j < k ==> !EndsSection(lines, j)
    ensures Section(lines) == "```" + Concat(lines[..k]) + (if k < |lines| then "```" else "")
  {
  }

  /** The loop of `changelogCommand` over the lines of the changelog, stopping at the next version header. */
  method ChangelogSection(lines: seq<string>) returns (msg: string)
    ensures msg == Section(lines)
  {
    msg := "```";
    var i := 0;
    while i < |lines|
      invariant 0 <= i <= |lines|
      invariant forall j :: 0 <= j < i ==> !EndsSection(lines, j)
      invariant msg == "```" + Concat(lines[..i])
    {
      if EndsSection(lines, i) {
        SectionAt(lines, i);
        msg := msg + "```";
        return;
      }
      ConcatStep(lines, i);
      msg := msg + lines[i];
      i := i + 1;
    }
    SectionAt(lines, |lines|);
  }

  /**
    `changelogCommand`: help for `-?`, the whole file for `-f`/`-full`, otherwise the latest
    section; the `-full` test never decides anything the `-f` test has not.
   */
  function ChangelogReply(command: string, docs: map<string, string>): (r: Option<string>)
    ensures !Contains(command, "-?") ==> (r.Some? <==> "changelog.txt" in docs)
    ensures !Contains(command, "-?") && "changelog.txt" in docs && !Contains(command, "-f")
      ==> r == Some(Section(ReadLines(docs["changelog.txt"])))
  {
    FullHasDashF(command);
    if Contains(command, "-?") then DiscbotConfig.HelpText(docs, DiscbotConfig.TopicPath("changelog"))
    else if "changelog.txt" !in docs then None
    else if Contains(command, "-f") || Contains(command, "-full") then Some("```" + docs["changelog.txt"] + "```")
    else Some(Section(ReadLines(docs["changelog.txt"])))
  }

  /** The largest die `rollCommand` rolls: `sys.maxsize` on a 64-bit build. */
  const MaxSize: nat := 9223372036854775807

  /** A digit token of value 1 makes `randrange(1, 1)` raise ValueError. */
  predicate UnitDie(token: string)
  {
    IsDigitString(token) && DecimalValue(token) == 1
  }

  /** The die a digit token names: 0 becomes 2, values above `sys.maxsize` become `sys.maxsize`. */
  function DieSize(token: string): (n: nat)
    requires IsDigitString(token)
    ensures !UnitDie(token) ==> n >= 2
    ensures n <= MaxSize
    ensures DecimalValue(token) == 0 ==> n == 2
    ensures 1 <= DecimalValue(token) <= MaxSize ==> n == DecimalValue(token)
    ensures DecimalValue(token) > MaxSize ==> n == MaxSize
  {
    var v := DecimalValue(token);
    if v < 1 then 2 else if v > MaxSize then MaxSize else v
  }

  /** How the die is written in the reply: the token as typed unless it was replaced. */
  function DieText(token: string): string
    requires IsDigitString(token)
  {
    var v := DecimalValue(token);
    if v < 1 then "2" else if v > MaxSize then NatToDecimal(MaxSize) else token
  }

  /** The text naming the die is read back as the size rolled. */
  lemma DieTextNamesSize(token: string)
    requires IsDigitString(token)
    ensures AllDigits(DieText(token)) && DecimalValue(DieText(token)) == DieSize(token)
  {
    var v := DecimalValue(token);
    if v < 1 {
      assert DecimalValue("2") == 10 * DecimalValue("") + 2;
    } else if v > MaxSize {
      DecimalValueOfRendering(MaxSize);
    }
  }

  /** The reply for a roll of an n-sided die written as `text`, with the draw `rng(n)` of `randrange(1, n)`. */
  function RollLine(n: int, text: string, rng: int -> int): string
  {
    "You rolled a " + IntToDecimal(rng(n)) + " on a " + text + "-sided die."
  }

  /** Index of the last digit token, or -1. */
  function LastDie(tokens: seq<string>): (k: int)
    ensures -1 <= k < |tokens|
    ensures k >= 0 ==> IsDigitString(tokens[k])
    ensures forall j :: k < j < |tokens| ==> !IsDigitString(tokens[j])
    decreases |tokens|
  {
    if |tokens| == 0 then -1
    else if IsDigitString(tokens[|tokens| - 1]) then |tokens| - 1
    else LastDie(tokens[..|tokens| - 1])
  }

  /** Some digit token has the value 1, seen from the end. */
  predicate HasUnitDie(tokens: seq<string>)
    decreases |tokens|
  {
    |tokens| > 0 && (UnitDie(tokens[|tokens| - 1]) || HasUnitDie(tokens[..|tokens| - 1]))
  }

  /** The reply after the loop has seen `tokens`: each digit token overwrites it. */
  function ScanMessage(tokens: seq<string>, rng: int -> int): (m: string)
    ensures m == "" <==> LastDie(tokens) == -1
    decreases |tokens|
  {
    if |tokens| == 0 then ""
    else
      var t := tokens[|tokens| - 1];
      if IsDigitString(t) then RollLine(DieSize(t), DieText(t), rng) else ScanMessage(tokens[..|tokens| - 1], rng)
  }

  /** What the token loop of `rollCommand` ends with: None for the ValueError of a unit die. */
  function RollOutcome(tokens: seq<string>, rng: int -> int): (r: Option<string>)
    ensures r.None? <==> HasUnitDie(tokens)
    ensures r.Some? && LastDie(tokens) == -1 ==> r.value == RollLine(6, "6", rng)
  {
    if HasUnitDie(tokens) then None
    else
      var msg := ScanMessage(tokens, rng);
      Some(if |msg| == 0 then RollLine(6, "6", rng) else msg)
  }

  /** One more token: the scan takes its roll when it is a digit token, and fails when it is a unit die. */
  lemma ScanStep(tokens: seq<string>, i: nat, rng: int -> int)
    requires i < |tokens|
    ensures HasUnitDie(tokens[..i + 1]) <==> UnitDie(tokens[i]) || HasUnitDie(tokens[..i])
    ensures ScanMessage(tokens[..i + 1], rng)
      == if IsDigitString(tokens[i]) then RollLine(DieSize(tokens[i]), DieText(tokens[i]), rng)
         else ScanMessage(tokens[..i], rng)
  {
    assert tokens[..i + 1][..i] == tokens[..i];
    assert tokens[..i + 1][i] == tokens[i];
  }

  /** The token loop of `rollCommand`: each digit token rolls again and the last one stands. */
  method RollScan(tokens: seq<string>, rng: int -> int) returns (r: Option<string>)
    ensures r == RollOutcome(tokens, rng)
  {
    var msg := "";
    var i := 0;
    while i < |tokens|
      invariant 0 <= i <= |tokens|
      invariant !HasUnitDie(tokens[..i])
      invariant msg == ScanMessage(tokens[..i], rng)
    {
      ScanStep(tokens, i, rng);
      if IsDigitString(tokens[i]) {
        if DecimalValue(tokens[i]) == 1 {
          UnitDieFails(tokens, i);
          return None;
        }
        msg := RollLine(DieSize(tokens[i]), DieText(tokens[i]), rng);
      }
      i := i + 1;
    }
    assert tokens[..i] == tokens;
    if |msg| == 0 {
      msg := RollLine(6, "6", rng);
    }
    r := Some(msg);
  }

  /** The reply the loop leaves is that of the last digit token. */
  lemma {:induction false} ScanMessageIsLast(tokens: seq<string>, rng: int -> int)
    ensures var k := LastDie(tokens);
      ScanMessage(tokens, rng) == if k == -1 then "" else RollLine(DieSize(tokens[k]), DieText(tokens[k]), rng)
    decreases |tokens|
  {
    if |tokens| > 0 && !IsDigitString(tokens[|tokens| - 1]) {
      var front := tokens[..|tokens| - 1];
      ScanMessageIsLast(front, rng);
      var k := LastDie(front);
      if k != -1 {
        assert front[k] == tokens[k];
      }
    }
  }

  /** A unit die anywhere is found by the scan. */
  lemma {:induction false} UnitDieFails(tokens: seq<string>, i: int)
    requires 0 <= i < |tokens| && UnitDie(tokens[i])
    ensures HasUnitDie(tokens)
    decreases |tokens|
  {
    if i < |tokens| - 1 {
      var front := tokens[..|tokens| - 1];
      assert front[i] == tokens[i];
      UnitDieFails(front, i);
    }
  }

  /** Without a unit die anywhere, the scan finds none. */
  lemma {:induction false} NoUnitDie(tokens: seq<string>)
    requires forall i :: 0 <= i < |tokens| ==> !UnitDie(tokens[i])
    ensures !HasUnitDie(tokens)
    decreases |tokens|
  {
    if |tokens| > 0 {
      NoUnitDie(tokens[..|tokens| - 1]);
    }
  }

  /** `rollCommand`: help for `-?`, otherwise the token loop over the words of the command. */
  method RollCommand(command: string, docs: map<string, string>, rng: int -> int) returns (reply: Option<string>)
    ensures Contains(command, "-?") ==> reply == DiscbotConfig.HelpText(docs, DiscbotConfig.TopicPath("roll"))
    ensures !Contains(command, "-?") ==> reply == RollOutcome(Words(command), rng)
  {
    if Contains(command, "-?") {
      reply := DiscbotConfig.HelpText(docs, DiscbotConfig.TopicPath("roll"));
    } else {
      reply := RollScan(Words(command), rng);
    }
  }

  /** The last digit token decides the die when no token names a unit die. */
  lemma LastTokenDecides(a: seq<string>, t: string, b: seq<string>, rng: int -> int)
    requires IsDigitString(t) && !UnitDie(t)
    requires forall i :: 0 <= i < |a| ==> !UnitDie(a[i])
    requires forall i :: 0 <= i < |b| ==> !IsDigitString(b[i])
    ensures RollOutcome(a + [t] + b, rng) == Some(RollLine(DieSize(t), DieText(t), rng))
  {
    var tokens := a + [t] + b;
    assert tokens[|a|] == t;
    assert forall i :: |a| < i < |tokens| ==> tokens[i] == b[i - |a| - 1];
    assert LastDie(tokens) == |a|;
    ScanMessageIsLast(tokens, rng);
    NoUnitDie(tokens);
  }

  /** With no digit token the reply is a roll of a six-sided die. */
  lemma NoDigitsRollsSix(tokens: seq<string>, rng: int -> int)
    requires forall i :: 0 <= i < |tokens| ==> !IsDigitString(tokens[i])
    ensures RollOutcome(tokens, rng) == Some(RollLine(6, "6", rng))
  {
    ScanMessageIsLast(tokens, rng);
    NoUnitDie(tokens);
  }

  /** Any token of value 1, wherever it stands, ends the command with an error. */
  lemma UnitDieErrs(tokens: seq<string>, i: int, rng: int -> int)
    requires 0 <= i < |tokens| && UnitDie(tokens[i])
    ensures RollOutcome(tokens, rng) == None
  {
    UnitDieFails(tokens, i);
  }

  /** `!roll 0` rolls a two-sided die and says so. */
  lemma ZeroRollsTwo(rng: int -> int)
    ensures RollOutcome(["roll", "0"], rng) == Some(RollLine(2, "2", rng))
  {
    assert !IsDigitString("roll") by { assert !IsDigit("roll"[0]); }
    assert DecimalValue("0") == 10 * DecimalValue("") + 0;
    assert !UnitDie("0");
    LastTokenDecides(["roll"], "0", [], rng);
    assert ["roll"] + ["0"] + [] == ["roll", "0"];
  }

  /**
    `helpCommand`: the file for `-?`; otherwise the file of the topic after the
    first space when it exists, and the overview when there is no topic or no file.
   */
  function HelpReply(command: string, docs: map<string, string>): (r: Option<string>)
    ensures !Contains(command, "-?") && IndexOf(command, " ") == -1 ==> r == DiscbotConfig.HelpText(docs, "overview.help")
  {
    if Contains(command, "-?") then DiscbotConfig.HelpText(docs, DiscbotConfig.TopicPath("help"))
    else
      var space := IndexOf(command, " ");
      var topicPath := DiscbotConfig.TopicPath(SliceFrom(command, space + 1));
      var path := if space != -1 && topicPath in docs then topicPath else "overview.help";
      DiscbotConfig.HelpText(docs, path)
  }

  /** `help <topic>` shows the topic's file when it exists and the overview otherwise. */
  lemma HelpTopic(topic: string, docs: map<string, string>)
    requires !Contains("help " + topic, "-?")
    ensures var path := DiscbotConfig.TopicPath(topic);
      HelpReply("help " + topic, docs) == DiscbotConfig.HelpText(docs, if path in docs then path else "overview.help")
  {
    var command := "help " + topic;
    assert command == "help" + [' '] + topic;
    IndexOfChar(command, ' ', 4);
    assert SliceFrom(command, 5) == topic;
  }

  /**
    The prefix table of `imageSearch`: the search term and the number of images
    to send; None stands for the UnboundLocalError raised when no prefix matches.
   */
  function ImageRequest(rawInput: string, imageResults: int): (r: Option<(string, int)>)
    ensures r.Some? ==> r.value.1 == 1 || r.value.1 == imageResults
    ensures r.Some? ==> |r.value.0| < |rawInput| && r.value.0 == rawInput[|rawInput| - |r.value.0|..]
  {
    if StartsWith(rawInput, "image of ") then Some((rawInput[9..], 1))
    else if StartsWith(rawInput, "image ") then Some((rawInput[6..], 1))
    else if StartsWith(rawInput, "picture of ") then Some((rawInput[11..], 1))
    else if StartsWith(rawInput, "picture ") then Some((rawInput[8..], 1))
    else if StartsWith(rawInput, "images of ") then Some((rawInput[10..], imageResults))
    else if StartsWith(rawInput, "images ") then Some((rawInput[7..], imageResults))
    else if StartsWith(rawInput, "pictures of ") then Some((rawInput[12..], imageResults))
    else if StartsWith(rawInput, "pictures ") then Some((rawInput[9..], imageResults))
    else None
  }

  /** After `mention + " "`, with no space in the mention, the search input is the rest. */
  lemma AfterAddress(mention: string, rest: string)
    requires ' ' !in mention
    ensures AfterFirst(mention + " " + rest, ' ') == rest
  {
    var c := mention + " " + rest;
    assert c == mention + [' '] + rest;
    assert c[..|mention|] == mention;
    IndexOfChar(c, ' ', |mention|);
  }

  /** A message that starts with the address and a word gives a search input that starts with the word. */
  lemma AddressedWord(content: string, mention: string, word: string)
    requires ' ' !in mention
    requires StartsWith(content, mention + " " + word)
    ensures StartsWith(AfterFirst(content, ' '), word)
  {
    var k := |mention| + 1;
    var rest := content[k..];
    assert content[..k] == (mention + " " + word)[..k] == mention + " ";
    assert content == mention + " " + rest;
    AfterAddress(mention, rest);
    assert rest[..|word|] == (mention + " " + word)[k..];
  }

  /** Each of the four image words starts a prefix row, so the request is bound. */
  lemma ImageWordMatches(rawInput: string, imageResults: int)
    requires StartsWith(rawInput, "image ") || StartsWith(rawInput, "picture ")
          || StartsWith(rawInput, "images ") || StartsWith(rawInput, "pictures ")
    ensures ImageRequest(rawInput, imageResults).Some?
  {
  }

  /** `handleMessage` sends a message to the image search only after one of the four image words. */
  lemma RoutedImageWord(content: string, mention: string)
    requires HandleMessage(content, false, mention) == SearchImages
    ensures || StartsWith(content, mention + " image ") || StartsWith(content, mention + " picture ")
            || StartsWith(content, mention + " images ") || StartsWith(content, mention + " pictures ")
  {
  }

  /**
   * A message routed to the image search always matches one of the prefixes, so the
   * `realInput` of `imageSearch` is always bound when the mention holds no space.
   */
  lemma RoutedImageRequest(content: string, mention: string, imageResults: int)
    requires HandleMessage(content, false, mention) == SearchImages
    requires ' ' !in mention
    ensures ImageRequest(AfterFirst(content, ' '), imageResults).Some?
  {
    RoutedImageWord(content, mention);
    if StartsWith(content, mention + " image ") {
      AddressedWord(content, mention, "image ");
    } else if StartsWith(content, mention + " picture ") {
      AddressedWord(content, mention, "picture ");
    } else if StartsWith(content, mention + " images ") {
      AddressedWord(content, mention, "images ");
    } else {
      AddressedWord(content, mention, "pictures ");
    }
    ImageWordMatches(AfterFirst(content, ' '), imageResults);
  }

  /** A row of the reference table: a prefix and whether it asks for the configured number of images. */
  datatype PrefixRule = PrefixRule(prefix: string, plural: bool)

  const ImagePrefixes: seq<PrefixRule> := [
    PrefixRule("image of ", false), PrefixRule("image ", false),
    PrefixRule("picture of ", false), PrefixRule("picture ", false),
    PrefixRule("images of ", true), PrefixRule("images ", true),
    PrefixRule("pictures of ", true), PrefixRule("pictures ", true)]

  /** The first rule whose prefix starts the input decides: the rest of the input and 1 or the configured count. */
  function FirstPrefix(rules: seq<PrefixRule>, rawInput: string, imageResults: int): Option<(string, int)>
    decreases |rules|
  {
    if |rules| == 0 then None
    else if StartsWith(rawInput, rules[0].prefix) then
      Some((rawInput[|rules[0].prefix|..], if rules[0].plural then imageResults else 1))
    else FirstPrefix(rules[1..], rawInput, imageResults)
  }

  /** No matching row means no request; a request comes from a matching row with no matching row above it. */
  lemma {:induction false} FirstPrefixSpec(rules: seq<PrefixRule>, rawInput: string, imageResults: int)
    ensures var r := FirstPrefix(rules, rawInput, imageResults);
      && ((forall i :: 0 <= i < |rules| ==> !StartsWith(rawInput, rules[i].prefix)) ==> r == None)
      && (r.Some? ==> exists i :: (0 <= i < |rules| && StartsWith(rawInput, rules[i].prefix)
            && (forall j :: 0 <= j < i ==> !StartsWith(rawInput, rules[j].prefix))
            && r.value == (rawInput[|rules[i].prefix|..], if rules[i].plural then imageResults else 1)))
    decreases |rules|
  {
    if |rules| > 0 && !StartsWith(rawInput, rules[0].prefix) {
      var tail := rules[1..];
      FirstPrefixSpec(tail, rawInput, imageResults);
      var r := FirstPrefix(rules, rawInput, imageResults);
      if r.Some? {
        var i :| 0 <= i < |tail| && StartsWith(rawInput, tail[i].prefix)
          && (forall j :: 0 <= j < i ==> !StartsWith(rawInput, tail[j].prefix))
          && r.value == (rawInput[|tail[i].prefix|..], if tail[i].plural then imageResults else 1);
        assert rules[i + 1] == tail[i];
        assert forall j :: 1 <= j < i + 1 ==> rules[j] == tail[j - 1];
      } else {
        assert forall i :: 0 <= i < |tail| ==> tail[i] == rules[i + 1];
      }
    } else if |rules| > 0 {
      assert FirstPrefix(rules, rawInput, imageResults).Some?;
    }
  }

  /** The `elif` chain of `imageSearch` is the table read from the top. */
  lemma ImageRequestIsTable(rawInput: string, imageResults: int)
    ensures ImageRequest(rawInput, imageResults) == FirstPrefix(ImagePrefixes, rawInput, imageResults)
  {
    var t, raw, n := ImagePrefixes, rawInput, imageResults;
    PluralRows(raw, n);
    FirstPrefixStep(t, 3, raw, n);
    FirstPrefixStep(t, 2, raw, n);
    FirstPrefixStep(t, 1, raw, n);
    FirstPrefixStep(t, 0, raw, n);
    assert t[0..] == t;
  }

  /** The lower half of the table holds the plural words. */
  lemma PluralRows(rawInput: string, imageResults: int)
    ensures FirstPrefix(ImagePrefixes[4..], rawInput, imageResults)
      == if StartsWith(rawInput, "images of ") then Some((rawInput[10..], imageResults))
         else if StartsWith(rawInput, "images ") then Some((rawInput[7..], imageResults))
         else if StartsWith(rawInput, "pictures of ") then Some((rawInput[12..], imageResults))
         else if StartsWith(rawInput, "pictures ") then Some((rawInput[9..], imageResults))
         else None
  {
    var t, raw, n := ImagePrefixes, rawInput, imageResults;
    FirstPrefixStep(t, 7, raw, n);
    FirstPrefixStep(t, 6, raw, n);
    FirstPrefixStep(t, 5, raw, n);
    FirstPrefixStep(t, 4, raw, n);
    assert t[8..] == [];
  }

  /** The table is read one row at a time. */
  lemma FirstPrefixStep(rules: seq<PrefixRule>, k: nat, rawInput: string, imageResults: int)
    requires k < |rules|
    ensures FirstPrefix(rules[k..], rawInput, imageResults)
      == if StartsWith(rawInput, rules[k].prefix)
         then Some((rawInput[|rules[k].prefix|..], if rules[k].plural then imageResults else 1))
         else FirstPrefix(rules[k + 1..], rawInput, imageResults)
  {
    assert rules[k..][0] == rules[k];
    assert rules[k..][1..] == rules[k + 1..];
  }

  /** `images of <term>` searches for `term` with the configured count: the `of` form is tried before the bare form. */
  lemma ImagesOf(term: string, imageResults: int)
    ensures ImageRequest("images of " + term, imageResults) == Some((term, imageResults))
  {
    var s := "images of " + term;
    assert s[..9] != "image of " by { assert s[5] == 's'; }
    assert s[..6] != "image " by { assert s[5] == 's'; }
    assert s[0] == 'i';
    assert s[..10] == "images of ";
    assert s[10..] == term;
  }

  /** Singular words send one image, the `of` being dropped. */
  lemma PictureOf(term: string, imageResults: int)
    ensures ImageRequest("picture of " + term, imageResults) == Some((term, 1))
  {
    var s := "picture of " + term;
    assert s[0] == 'p';
    assert s[..11] == "picture of ";
    assert s[11..] == term;
  }

  /** The number of images the config asks for, clamped; None when `readConfig` raises. */
  function ConfiguredImages(lines: seq<string>): (r: Option<int>)
    ensures r.Some? ==> 1 <= r.value <= 10
  {
    match DiscbotConfig.ReadValue(lines, "IMAGE_RESULTS")
    case None => None
    case Some(v) => Some(DiscbotConfig.ResultCount(v))
  }
}
