/**
  The `message` handler of bot.js as a decision: from the text of a message,
  whether the bot is its first mention, the author's id and the config, to the
  one thing the bot does with it.
 */
module BotRouting {
  import opened Wrappers
  import opened Strings
  import opened Js
  import BotConfig

  /** RIGHT SINGLE QUOTATION MARK, the one character the handler sanitizes away. */
  const Apostrophe: char := '\U{2019}'

  /** The author whose messages about a store get a shopping cart. */
  const StoreAuthor := "181967094185852929"

  const Robot := "\U{1F916}"
  const Imp := "\U{1F47F}"
  const Heart := "\U{2764}"
  const Cursing := "\U{1F92C}"
  const Cart := "\U{1F6D2}"

  /** The regional-indicator letters F, U, C, K, E, L, O, N, reacted in this order. */
  const LetterChain: seq<string> := [
    "\U{1F1EB}", "\U{1F1FA}", "\U{1F1E8}", "\U{1F1F0}",
    "\U{1F1EA}", "\U{1F1F1}", "\U{1F1F4}", "\U{1F1F3}"]

  /** What the bot does with one message. */
  datatype Action =
    | RunCommand(content: string)
    | SearchImages(content: string)
    | SearchLinks(content: string)
    | Send(text: string)
    | React(glyphs: seq<string>)
    | LogIgnored(content: string)
    | Nothing

  /** `content.replace("’", "")`: only the first such quotation mark is removed. */
  function Sanitize(content: string): (t: string)
    ensures Apostrophe !in content ==> t == content
  {
    IndexOfCharAbsent(content, Apostrophe);
    ReplaceFirst(content, [Apostrophe], "")
  }

  /** The first quotation mark goes, every later one stays. */
  lemma SanitizeFirstOnly(a: string, b: string)
    requires Apostrophe !in a
    ensures Sanitize(a + [Apostrophe] + b) == a + b
  {
    ReplaceFirstChar(a, Apostrophe, b, "");
  }

  /** `content.substring(content.search(" ") + 1)`: the text after the first space, or all of it. */
  function AfterFirstSpace(content: string): string
  {
    SubstringFrom(content, IndexOf(content, " ") + 1)
  }

  /** A mention followed by a space is cut off whole. */
  lemma AfterMention(mention: string, text: string)
    requires ' ' !in mention
    ensures AfterFirstSpace(mention + " " + text) == text
  {
    var s := mention + " " + text;
    assert s[..|mention|] == mention;
    IndexOfChar(s, ' ', |mention|);
    assert s[|mention| + 1..] == text;
  }

  /** Text with no space is passed on whole. */
  lemma AfterNoSpace(content: string)
    requires ' ' !in content
    ensures AfterFirstSpace(content) == content
  {
    IndexOfCharAbsent(content, ' ');
  }

  predicate AsksForImages(text: string)
  {
    StartsWith(text, "image ") || StartsWith(text, "images ")
    || StartsWith(text, "picture ") || StartsWith(text, "pictures ")
  }

  /** A message whose first mention is the bot: a command, an image search or a link search. */
  function MentionAction(content: string): (a: Action)
    ensures a.RunCommand? || a.SearchImages? || a.SearchLinks?
    ensures a.RunCommand? <==> StartsWith(AfterFirstSpace(content), "!")
    ensures a.SearchImages? <==> !StartsWith(AfterFirstSpace(content), "!") && AsksForImages(AfterFirstSpace(content))
  {
    var text := AfterFirstSpace(content);
    if StartsWith(text, "!") then RunCommand(content)
    else if AsksForImages(text) then SearchImages(content)
    else SearchLinks(content)
  }

  /**
    The hard-coded reactions, as the `else if` chain of the handler: at most one fires.
    Some glyph is sent exactly when a keyword occurs, and it is one glyph or the letter chain.
   */
  function Reaction(lower: string, authorId: string, shortHate: bool): (r: seq<string>)
    ensures r != [] <==>
      || Contains(lower, "good bot") || Contains(lower, "reee") || Contains(lower, "george russell")
      || Contains(lower, "elon") || Contains(lower, "musk") || Contains(lower, "elomg")
      || (authorId == StoreAuthor && Contains(lower, "store"))
    ensures |r| <= 1 || r == LetterChain
  {
    if Contains(lower, "good bot") then [Robot]
    else if Contains(lower, "reee") then [Imp]
    else if Contains(lower, "george russell") then [Heart]
    else if Contains(lower, "elon") || Contains(lower, "musk") || Contains(lower, "elomg") then
      (if shortHate then [Cursing] else LetterChain)
    else if authorId == StoreAuthor && Contains(lower, "store") then [Cart]
    else []
  }

  /** The canned replies used when `spam` is on: a message is sent for the two exact texts only. */
  function SpamReply(content: string): (a: Action)
    ensures a.Send? || a == Nothing
    ensures a.Send? <==> content == "How was your run?" || content == "69"
  {
    if content == "How was your run?" then Send("I just got back from my run")
    else if content == "69" then Send("Nice")
    else Nothing
  }

  /** The handler as a whole. */
  function Route(content: string, mentionsBot: bool, authorId: string, s: BotConfig.Settings): (a: Action)
    ensures mentionsBot ==> a == MentionAction(Sanitize(content))
    ensures a.React? ==> !mentionsBot && !s.spam && s.emojispam && a.glyphs != []
  {
    var c := Sanitize(content);
    if mentionsBot then MentionAction(c)
    else if s.spam then SpamReply(c)
    else if s.emojispam then
      var glyphs := Reaction(ToLower(c), authorId, s.shortHate);
      if glyphs == [] then Nothing else React(glyphs)
    else if s.debug then LogIgnored(c)
    else Nothing
  }

  /** A rule of the reference table: any keyword fires it, for one author or for all. */
  datatype ReactionRule = ReactionRule(keywords: seq<string>, author: Option<string>, glyphs: seq<string>)

  /** The reactions as a table, in the order the handler tries them. */
  function Rules(shortHate: bool): seq<ReactionRule>
  {
    [ ReactionRule(["good bot"], None, [Robot]),
      ReactionRule(["reee"], None, [Imp]),
      ReactionRule(["george russell"], None, [Heart]),
      ReactionRule(["elon", "musk", "elomg"], None, if shortHate then [Cursing] else LetterChain),
      ReactionRule(["store"], Some(StoreAuthor), [Cart]) ]
  }

  predicate AnyContained(lower: string, keywords: seq<string>)
    decreases |keywords|
  {
    |keywords| > 0 && (Contains(lower, keywords[0]) || AnyContained(lower, keywords[1..]))
  }

  predicate Fires(rule: ReactionRule, lower: string, authorId: string)
  {
    (rule.author.None? || rule.author.value == authorId) && AnyContained(lower, rule.keywords)
  }

  /** The glyphs of the first rule that fires, or none. */
  function FirstMatch(rules: seq<ReactionRule>, lower: string, authorId: string): seq<string>
    decreases |rules|
  {
    if |rules| == 0 then []
    else if Fires(rules[0], lower, authorId) then rules[0].glyphs
    else FirstMatch(rules[1..], lower, authorId)
  }

  /** When no rule fires, `FirstMatch` answers nothing. */
  lemma {:induction false} FirstMatchNone(rules: seq<ReactionRule>, lower: string, authorId: string)
    requires forall i :: 0 <= i < |rules| ==> !Fires(rules[i], lower, authorId)
    ensures FirstMatch(rules, lower, authorId) == []
    decreases |rules|
  {
    if |rules| > 0 {
      assert !Fires(rules[0], lower, authorId);
      var tail := rules[1..];
      assert forall i :: 0 <= i < |tail| ==> tail[i] == rules[i + 1];
      FirstMatchNone(tail, lower, authorId);
    }
  }

  /** When rule `i` is the earliest that fires, `FirstMatch` answers its glyphs. */
  lemma {:induction false} FirstMatchAt(rules: seq<ReactionRule>, i: nat, lower: string, authorId: string)
    requires i < |rules| && Fires(rules[i], lower, authorId)
    requires forall j :: 0 <= j < i ==> !Fires(rules[j], lower, authorId)
    ensures FirstMatch(rules, lower, authorId) == rules[i].glyphs
    decreases i
  {
    if i > 0 {
      assert !Fires(rules[0], lower, authorId);
      var tail := rules[1..];
      assert tail[i - 1] == rules[i];
      assert forall j :: 0 <= j < i - 1 ==> tail[j] == rules[j + 1];
      FirstMatchAt(tail, i - 1, lower, authorId);
    }
  }

  /** A rule with one keyword fires exactly when its keyword occurs. */
  lemma SingleKeyword(lower: string, k: string)
    ensures AnyContained(lower, [k]) <==> Contains(lower, k)
  {
    assert [k][1..] == [];
  }

  /** The `else if` chain reacts exactly as the first firing rule of the table. */
  lemma ReactionIsFirstMatch(lower: string, authorId: string, shortHate: bool)
    ensures Reaction(lower, authorId, shortHate) == FirstMatch(Rules(shortHate), lower, authorId)
  {
    var rules := Rules(shortHate);
    RulesFire(lower, authorId, shortHate);
    FirstMatchStep(rules, lower, authorId);
    FirstMatchStep(rules[1..], lower, authorId);
    FirstMatchStep(rules[2..], lower, authorId);
    FirstMatchStep(rules[3..], lower, authorId);
    FirstMatchStep(rules[4..], lower, authorId);
    assert rules[1..][1..] == rules[2..];
    assert rules[2..][1..] == rules[3..];
    assert rules[3..][1..] == rules[4..];
    assert rules[4..][1..] == [];
  }

  /** Each rule of the table fires on exactly the condition of its branch of the chain. */
  lemma RulesFire(lower: string, authorId: string, shortHate: bool)
    ensures var rules := Rules(shortHate);
      && (Fires(rules[0], lower, authorId) <==> Contains(lower, "good bot"))
      && (Fires(rules[1], lower, authorId) <==> Contains(lower, "reee"))
      && (Fires(rules[2], lower, authorId) <==> Contains(lower, "george russell"))
      && (Fires(rules[3], lower, authorId)
          <==> Contains(lower, "elon") || Contains(lower, "musk") || Contains(lower, "elomg"))
      && (Fires(rules[4], lower, authorId) <==> authorId == StoreAuthor && Contains(lower, "store"))
  {
    SingleKeyword(lower, "good bot");
    SingleKeyword(lower, "reee");
    SingleKeyword(lower, "george russell");
    SingleKeyword(lower, "store");
    SingleKeyword(lower, "elomg");
    assert ["elon", "musk", "elomg"][1..] == ["musk", "elomg"];
    assert ["musk", "elomg"][1..] == ["elomg"];
  }

  /** One step of `FirstMatch`: the head rule if it fires, otherwise the rest of the table. */
  lemma FirstMatchStep(rules: seq<ReactionRule>, lower: string, authorId: string)
    requires |rules| > 0
    ensures FirstMatch(rules, lower, authorId)
      == if Fires(rules[0], lower, authorId) then rules[0].glyphs else FirstMatch(rules[1..], lower, authorId)
  {
  }

  /** With `spam` on, a message that does not mention the bot never gets a reaction, whatever the emoji settings. */
  lemma SpamShadowsEmoji(content: string, authorId: string, s: BotConfig.Settings, emojispam: bool, shortHate: bool)
    requires s.spam
    ensures Route(content, false, authorId, s) == Route(content, false, authorId, s.(emojispam := emojispam, shortHate := shortHate))
    ensures !Route(content, false, authorId, s).React?
  {
  }

  /** The elon rule reacts once under `shortHate`, otherwise with the eight letters in order. */
  lemma ElonReactions(lower: string, authorId: string, shortHate: bool)
    requires Contains(lower, "elon")
    requires !Contains(lower, "good bot") && !Contains(lower, "reee") && !Contains(lower, "george russell")
    ensures shortHate ==> Reaction(lower, authorId, shortHate) == [Cursing]
    ensures !shortHate ==> Reaction(lower, authorId, shortHate) == LetterChain && |LetterChain| == 8
  {
  }

  /** Only the one author ever gets the shopping cart, and only for a message mentioning a store. */
  lemma CartOnlyForStoreAuthor(lower: string, authorId: string, shortHate: bool)
    ensures Reaction(lower, authorId, shortHate) == [Cart] ==> authorId == StoreAuthor && Contains(lower, "store")
  {
  }

  /** Addressing the bot with `<mention> !verb ...` reaches the command path with the whole sanitized text. */
  lemma MentionCommand(mention: string, text: string, authorId: string, s: BotConfig.Settings)
    requires ' ' !in mention && Apostrophe !in mention + " " + text
    requires StartsWith(text, "!")
    ensures Route(mention + " " + text, true, authorId, s) == RunCommand(mention + " " + text)
  {
    AfterMention(mention, text);
  }
}
