/**
  The command side of bot.js: `commandParser`, which cuts a message into a verb
  and its arguments and picks a handler, and `rollCommand`, which picks the size
  of the die and words the reply around a random draw.
 */
module BotCommands {
  import opened Wrappers
  import opened Strings
  import opened Js
  import BotConfig

  /** The user id the `latex` command forwards to. */
  const LatexBot := "<@!646523630309605396>"

  /**
    Where `commandParser` sends a command. Handlers that fetch pages or whose body
    is empty in bot.js are named with the arguments they receive; the replies the
    parser builds itself are `Reply`.
   */
  datatype Handler =
    | Version(args: seq<string>)
    | Changelog(args: seq<string>)
    | Config(args: seq<string>)
    | Roll(args: seq<string>)
    | Help(args: seq<string>)
    | Wolfram(args: seq<string>)
    | Noaa
    | Meme
    | Reply(text: string)

  /**
    The `switch (command)` of `commandParser`, fall-through cases included. The parser
    replies itself exactly for `latex` and for an unknown verb; every other handler
    that takes arguments receives them unchanged.
   */
  function HandlerFor(command: string, args: seq<string>): (h: Handler)
    ensures h.Reply? <==> command == "latex" || !IsKnownVerb(command)
    ensures (h.Version? || h.Changelog? || h.Config? || h.Roll? || h.Help? || h.Wolfram?) ==> h.args == args
  {
    match command
    case "version" => Version(args)
    case "changelog" => Changelog(args)
    case "config" => Config(args)
    case "roll" => Roll(args)
    case "help" => Help(args)
    case "w" => Wolfram(args)
    case "wa" => Wolfram(args)
    case "latex" => Reply(LatexBot + " !" + command + " " + Join(args, " "))
    case "nhc" => Noaa
    case "noaa" => Noaa
    case "meme" => Meme
    case _ => Reply("Command \"" + command + "\" not recognized")
  }

  /**
    The verb and arguments `commandParser` cuts from `content`: the verb is the
    second space-separated word without its first character, the arguments are
    the words after it. None stands for the TypeError thrown when there is no
    second word.
   */
  function Command(content: string): (r: Option<(string, seq<string>)>)
    ensures r.None? <==> ' ' !in content
  {
    SplitSingle(content, ' ');
    var words := Split(content, ' ');
    if |words| < 2 then None
    else Some((SubstringFrom(words[1], 1), words[2..]))
  }

  /** `commandParser(content)`: the handler picked for the verb and its arguments. */
  function Dispatch(content: string): (r: Option<Handler>)
    ensures r.None? <==> ' ' !in content
    ensures r.Some? ==> r.value == HandlerFor(Command(content).value.0, Command(content).value.1)
  {
    match Command(content)
    case None => None
    case Some((command, args)) => Some(HandlerFor(command, args))
  }

  /** The verb and arguments of `<mention> <!verb> <tail>` are `verb` and the words of `tail`. */
  lemma CommandWords(mention: string, word: string, tail: string)
    requires ' ' !in mention && ' ' !in word && |word| >= 1
    ensures Command(mention + " " + word + " " + tail) == Some((word[1..], Split(tail, ' ')))
  {
    var content := mention + " " + word + " " + tail;
    assert content == mention + [' '] + (word + [' '] + tail);
    SplitAfter(mention, ' ', word + [' '] + tail);
    SplitAfter(word, ' ', tail);
    var words := Split(content, ' ');
    assert words == [mention] + ([word] + Split(tail, ' '));
    assert words[1] == word && words[2..] == Split(tail, ' ');
  }

  /** A command with nothing after the verb has no arguments. */
  lemma CommandBare(mention: string, word: string)
    requires ' ' !in mention && ' ' !in word && |word| >= 1
    ensures Command(mention + " " + word) == Some((word[1..], []))
  {
    var content := mention + " " + word;
    assert content == mention + [' '] + word;
    SplitAfter(mention, ' ', word);
    SplitNone(word, ' ');
    var words := Split(content, ' ');
    assert words == [mention, word];
    assert words[1] == word && words[2..] == [];
  }

  /** `w` and `wa` reach the same handler, and so do `nhc` and `noaa`. */
  lemma Aliases(args: seq<string>)
    ensures HandlerFor("w", args) == HandlerFor("wa", args) == Wolfram(args)
    ensures HandlerFor("nhc", args) == HandlerFor("noaa", args) == Noaa
  {
  }

  predicate IsKnownVerb(command: string)
  {
    command in {"version", "changelog", "config", "roll", "help", "w", "wa", "latex", "nhc", "noaa", "meme"}
  }

  /** Every verb outside the table gets exactly the fixed "not recognized" reply. */
  lemma UnknownVerb(command: string, args: seq<string>)
    requires !IsKnownVerb(command)
    ensures HandlerFor(command, args) == Reply("Command \"" + command + "\" not recognized")
  {
  }

  /** `latex` forwards the rest of the message, spacing included, after a mention of the LaTeX bot. */
  lemma LatexForwardsTail(mention: string, tail: string)
    requires ' ' !in mention
    ensures Dispatch(mention + " !latex " + tail) == Some(Reply(LatexBot + " !latex " + tail))
  {
    CommandWords(mention, "!latex", tail);
    assert mention + " " + "!latex" + " " + tail == mention + " !latex " + tail;
    assert "!latex"[1..] == "latex";
    JoinSplit(tail, ' ');
    assert HandlerFor("latex", Split(tail, ' ')) == Reply(LatexBot + " !latex " + Join(Split(tail, ' '), " "));
  }

  /**
    The die size `rollCommand` uses: None for `-?` (the reply is then empty);
    otherwise the `parseInt` of the first argument raised to at least 2, or 6
    when it does not parse.
   */
  function DieSides(args: seq<string>): (r: Option<int>)
    ensures r.None? <==> |args| > 0 && args[0] == "-?"
    ensures r.Some? ==> r.value >= 2
    ensures r.Some? && ParseInt(BotConfig.ArgText(args, 0)).None? ==> r.value == 6
    ensures r.Some? && ParseInt(BotConfig.ArgText(args, 0)).Some? ==>
      var n := ParseInt(BotConfig.ArgText(args, 0)).value;
      r.value == if n < 2 then 2 else n
  {
    if |args| > 0 && args[0] == "-?" then None
    else
      match ParseInt(BotConfig.ArgText(args, 0))
      case None => Some(6)
      case Some(n) => Some(if n < 2 then 2 else n)
  }

  /**
    `randomNumber(min, max)` for the draw `u` of `Math.random()`: the floor of u*(max-min)+min,
    which lies in [min, max) when min < max.
   */
  function RandomNumber(min: int, max: int, u: real): (r: int)
    requires 0.0 <= u < 1.0
    ensures min < max ==> min <= r < max
    ensures min == max ==> r == min
  {
    var span := (max - min) as real;
    assert min < max ==> 0.0 <= u * span < span by {
      if min < max {
        assert u * span <= 1.0 * span - (1.0 - u) * span;
      }
    }
    (u * span + min as real).Floor
  }

  /** A roll of an n-sided die lands in [1, n-1]: the top face is never rolled. */
  lemma RollRange(n: int, u: real)
    requires n >= 2 && 0.0 <= u < 1.0
    ensures 1 <= RandomNumber(1, n, u) <= n - 1
  {
    var span := (n - 1) as real;
    assert 0.0 <= u * span < span by {
      assert u * span <= 1.0 * span - (1.0 - u) * span;
    }
  }

  /** Every face from 1 to n-1 is rolled by some draw. */
  lemma RollReaches(n: int, k: int)
    requires n >= 2 && 1 <= k <= n - 1
    ensures var u := (k - 1) as real / (n - 1) as real;
      0.0 <= u < 1.0 && RandomNumber(1, n, u) == k
  {
    var span := (n - 1) as real;
    var u := (k - 1) as real / span;
    assert u * span == (k - 1) as real;
  }

  /** The sentence reporting face `k` of an n-sided die. */
  function RollSentence(k: int, n: int): string
  {
    "You rolled a " + IntToDecimal(k) + " on a " + IntToDecimal(n) + "-sided die."
  }

  /** The sentence reporting the draw `u` on an n-sided die: it names a face in [1, n-1]. */
  function RollText(n: int, u: real): (r: string)
    requires 0.0 <= u < 1.0
    ensures n >= 2 ==> exists k :: 1 <= k <= n - 1 && r == RollSentence(k, n)
  {
    RollSentence(RandomNumber(1, n, u), n)
  }

  /**
    The reply of `rollCommand` for the draw `u`: empty exactly for `-?`, and otherwise
    a face in [1, sides-1] of the die `DieSides` picks.
   */
  function RollReply(args: seq<string>, u: real): (r: string)
    requires 0.0 <= u < 1.0
    ensures r == "" <==> |args| > 0 && args[0] == "-?"
    ensures DieSides(args).Some? ==>
      exists k :: 1 <= k <= DieSides(args).value - 1 && r == RollSentence(k, DieSides(args).value)
  {
    match DieSides(args)
    case None => ""
    case Some(n) => RollText(n, u)
  }

  /** A 2-sided die, which `!roll 1` and `!roll 0` ask for, always shows 1. */
  lemma RollSmallDie(u: real)
    requires 0.0 <= u < 1.0
    ensures RollText(2, u) == "You rolled a 1 on a 2-sided die."
  {
    RollRange(2, u);
    assert NatToDecimal(1) == "1";
    assert NatToDecimal(2) == "2";
  }
}
