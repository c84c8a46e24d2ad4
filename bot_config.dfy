/**
  The `!config` command of bot.js: the in-memory configuration object, the
  validation of `!config <key> <value>`, the listing printed by `!config` and
  `!config read`, and the rewrite of config.json that follows every accepted
  command (counted by a ghost field, since the file itself is not modelled).
 */
module BotConfig {
  import opened Wrappers
  import opened Strings
  import opened Js

  /** The configuration values bot.js reads from config.json. */
  datatype Settings = Settings(
    textResults: int,
    imageResults: int,
    notifyConnection: bool,
    debug: bool,
    spam: bool,
    emojispam: bool,
    nhcFromGithub: bool,
    shortHate: bool,
    memeSubreddit: string)

  /** What one `!config` command does: the settings after it, its reply, whether config.json is rewritten. */
  datatype ConfigOutcome = ConfigOutcome(settings: Settings, reply: string, persisted: bool)

  /** The text of `args[i]` as JavaScript renders it: past the end it is `undefined`. */
  function ArgText(args: seq<string>, i: nat): string
  {
    if i < |args| then args[i] else "undefined"
  }

  /** Keys holding a result count. */
  predicate IsCountKey(key: string)
  {
    key == "text_results" || key == "image_results"
  }

  /** Keys holding an on/off switch. */
  predicate IsSwitchKey(key: string)
  {
    || key == "notify_connection" || key == "debug" || key == "spam"
    || key == "emojispam" || key == "nhc_from_github" || key == "shortHate"
  }

  /** A requested result count forced into [1, 10]. */
  function ClampResults(n: int): (r: int)
    ensures 1 <= r <= 10
    ensures 1 <= n <= 10 ==> r == n
    ensures n > 10 ==> r == 10
    ensures n < 1 ==> r == 1
  {
    if n > 10 then 10 else if n < 1 then 1 else n
  }

  /** How a template literal renders a boolean. */
  function BoolText(b: bool): string
  {
    if b then "true" else "false"
  }

  /** The value of the count field named by `key`. */
  function Count(s: Settings, key: string): int
    requires IsCountKey(key)
  {
    if key == "text_results" then s.textResults else s.imageResults
  }

  /** The value of the switch named by `key`. */
  function Switch(s: Settings, key: string): bool
    requires IsSwitchKey(key)
  {
    match key
    case "notify_connection" => s.notifyConnection
    case "debug" => s.debug
    case "spam" => s.spam
    case "emojispam" => s.emojispam
    case "nhc_from_github" => s.nhcFromGithub
    case _ => s.shortHate
  }

  /** `s` with the count field named by `key` set to `n`; every other field as in `s`. */
  function WithCount(s: Settings, key: string, n: int): (r: Settings)
    requires IsCountKey(key)
    ensures Count(r, key) == n
    ensures forall k :: IsCountKey(k) && k != key ==> Count(r, k) == Count(s, k)
    ensures r.(textResults := s.textResults, imageResults := s.imageResults) == s
  {
    if key == "text_results" then s.(textResults := n) else s.(imageResults := n)
  }

  /** `s` with the switch named by `key` set to `b`; every other field as in `s`. */
  function WithSwitch(s: Settings, key: string, b: bool): (r: Settings)
    requires IsSwitchKey(key)
    ensures Switch(r, key) == b
    ensures forall k :: IsSwitchKey(k) && k != key ==> Switch(r, k) == Switch(s, k)
    ensures r.textResults == s.textResults && r.imageResults == s.imageResults
    ensures r.memeSubreddit == s.memeSubreddit
  {
    match key
    case "notify_connection" => s.(notifyConnection := b)
    case "debug" => s.(debug := b)
    case "spam" => s.(spam := b)
    case "emojispam" => s.(emojispam := b)
    case "nhc_from_github" => s.(nhcFromGithub := b)
    case _ => s.(shortHate := b)
  }

  /** Setting a switch to the value it already has changes nothing. */
  lemma WithSwitchTwice(s: Settings, key: string, b: bool)
    requires IsSwitchKey(key)
    ensures WithSwitch(WithSwitch(s, key, b), key, b) == WithSwitch(s, key, b)
  {
    match key
    case "notify_connection" =>
    case "debug" =>
    case "spam" =>
    case "emojispam" =>
    case "nhc_from_github" =>
    case _ =>
  }

  /** The lines of the listing, one `key: value` per configuration field, in the order bot.js prints them. */
  function ListingLines(s: Settings): (lines: seq<string>)
    ensures |lines| == 9
  {
    [ "text_results: " + IntToDecimal(s.textResults),
      "image_results: " + IntToDecimal(s.imageResults),
      "notify_connection: " + BoolText(s.notifyConnection),
      "spam: " + BoolText(s.spam),
      "nhc_from_github: " + BoolText(s.nhcFromGithub),
      "emojispam: " + BoolText(s.emojispam),
      "memeSubreddit: " + s.memeSubreddit,
      "shortHate: " + BoolText(s.shortHate),
      "debug: " + BoolText(s.debug) ]
  }

  /** The reply to `!config` and `!config read`: a code block headed "Current config values". */
  function Listing(s: Settings): string
  {
    "```Current config values\n" + Join(ListingLines(s), "\n") + "```"
  }

  /**
    The effect of `!config` with arguments `args` on settings `s`. A count key
    takes the `parseInt` of its value clamped into [1, 10]; a switch key takes
    exactly "true" or "false"; `read` or no argument lists the settings. Every
    rejected command leaves the settings as they were and skips the file write.
    No command touches the meme subreddit, and a count it changes ends up in [1, 10].
   */
  function ConfigEffect(s: Settings, args: seq<string>): (r: ConfigOutcome)
    ensures r.settings.memeSubreddit == s.memeSubreddit
    ensures r.settings.textResults == s.textResults || 1 <= r.settings.textResults <= 10
    ensures r.settings.imageResults == s.imageResults || 1 <= r.settings.imageResults <= 10
  {
    if |args| > 0 && IsCountKey(args[0]) then
      match ParseInt(ArgText(args, 1))
      case None =>
        ConfigOutcome(s, "Cannot parse '" + ArgText(args, 1) + "' for config item '" + args[0] + "'", false)
      case Some(n) =>
        var v := ClampResults(n);
        ConfigOutcome(WithCount(s, args[0], v),
          "Changed config item '" + args[0] + "' to value '" + IntToDecimal(v) + "'", true)
    else if |args| > 0 && IsSwitchKey(args[0]) then
      var value := ArgText(args, 1);
      if value == "true" || value == "false" then
        ConfigOutcome(WithSwitch(s, args[0], value == "true"),
          "Changed config item '" + args[0] + "' to value '" + BoolText(value == "true") + "'", true)
      else
        ConfigOutcome(s, "Invlaid option " + value + " for config item " + args[0], false)
    else if |args| == 0 || args[0] == "read" then
      ConfigOutcome(s, Listing(s), true)
    else
      ConfigOutcome(s, "Config item '" + args[0] + "' not recognized", false)
  }

  /**
    A command is written back exactly when it lists the settings, sets a count to
    a parseable value or sets a switch to "true" or "false"; a command that is not
    written back leaves the settings as they were.
   */
  lemma ConfigPersisted(s: Settings, args: seq<string>)
    ensures var r := ConfigEffect(s, args);
      && (!r.persisted ==> r.settings == s)
      && (r.persisted <==>
        || |args| == 0 || args[0] == "read"
        || (IsCountKey(args[0]) && ParseInt(ArgText(args, 1)).Some?)
        || (IsSwitchKey(args[0]) && (ArgText(args, 1) == "true" || ArgText(args, 1) == "false")))
  {
  }

  /** A parseable count is stored clamped into [1, 10], nothing else changes, and the file is rewritten. */
  lemma SetCount(s: Settings, args: seq<string>, n: int)
    requires |args| > 0 && IsCountKey(args[0]) && ParseInt(ArgText(args, 1)) == Some(n)
    ensures var r := ConfigEffect(s, args);
      && r.persisted
      && r.settings == WithCount(s, args[0], ClampResults(n))
      && r.reply == "Changed config item '" + args[0] + "' to value '" + IntToDecimal(ClampResults(n)) + "'"
  {
  }

  /** An unparseable count is reported, changes nothing and is not written. */
  lemma SetCountUnparseable(s: Settings, args: seq<string>)
    requires |args| > 0 && IsCountKey(args[0]) && ParseInt(ArgText(args, 1)).None?
    ensures ConfigEffect(s, args)
      == ConfigOutcome(s, "Cannot parse '" + ArgText(args, 1) + "' for config item '" + args[0] + "'", false)
  {
  }

  /** A switch given exactly "true" or "false" takes that value and nothing else changes. */
  lemma SetSwitchLiteral(s: Settings, args: seq<string>)
    requires |args| >= 2 && IsSwitchKey(args[0]) && (args[1] == "true" || args[1] == "false")
    ensures var r := ConfigEffect(s, args);
      && r.persisted
      && r.settings == WithSwitch(s, args[0], args[1] == "true")
      && r.reply == "Changed config item '" + args[0] + "' to value '" + args[1] + "'"
  {
  }

  /** Any other switch value, "True" and "FALSE" included, is rejected with no change and no write. */
  lemma SetSwitchInvalid(s: Settings, args: seq<string>)
    requires |args| > 0 && IsSwitchKey(args[0]) && ArgText(args, 1) != "true" && ArgText(args, 1) != "false"
    ensures ConfigEffect(s, args)
      == ConfigOutcome(s, "Invlaid option " + ArgText(args, 1) + " for config item " + args[0], false)
  {
  }

  /** `read`, or no argument at all, replies with the listing and changes nothing. */
  lemma ReadLists(s: Settings, args: seq<string>)
    requires |args| == 0 || args[0] == "read"
    ensures ConfigEffect(s, args) == ConfigOutcome(s, Listing(s), true)
  {
  }

  /** An unknown key, `-?` included, is reported, changes nothing and is not written. */
  lemma UnknownKey(s: Settings, args: seq<string>)
    requires |args| > 0 && !IsCountKey(args[0]) && !IsSwitchKey(args[0]) && args[0] != "read"
    ensures ConfigEffect(s, args)
      == ConfigOutcome(s, "Config item '" + args[0] + "' not recognized", false)
  {
  }

  /** The `-?` block is empty, so the request falls through the key chain and is reported as an unknown key. */
  lemma ConfigHelpFallsThrough(s: Settings, args: seq<string>)
    requires |args| > 0 && args[0] == "-?"
    ensures ConfigEffect(s, args) == ConfigOutcome(s, "Config item '-?' not recognized", false)
  {
    UnknownKey(s, args);
  }

  /** Setting a count to the decimal text of any value stores that value clamped into [1, 10]. */
  lemma SetCountRendered(s: Settings, key: string, v: int)
    requires IsCountKey(key)
    ensures ConfigEffect(s, [key, IntToDecimal(v)]).settings == WithCount(s, key, ClampResults(v))
  {
    ParseIntRendering(v);
    SetCount(s, [key, IntToDecimal(v)], v);
  }

  /** A switch set to the text of a boolean holds that boolean afterwards, and nothing else changes. */
  lemma SetSwitchRendered(s: Settings, key: string, b: bool)
    requires IsSwitchKey(key)
    ensures ConfigEffect(s, [key, BoolText(b)]).settings == WithSwitch(s, key, b)
  {
    SetSwitchLiteral(s, [key, BoolText(b)]);
  }

  /** Any `!config` command, repeated, has the same effect and the same reply the second time. */
  lemma ConfigIdempotent(s: Settings, args: seq<string>)
    ensures ConfigEffect(ConfigEffect(s, args).settings, args) == ConfigEffect(s, args)
  {
    if |args| > 0 && IsCountKey(args[0]) && ParseInt(ArgText(args, 1)).Some? {
      var n := ParseInt(ArgText(args, 1)).value;
      SetCount(s, args, n);
      var after := WithCount(s, args[0], ClampResults(n));
      SetCount(after, args, n);
      assert WithCount(after, args[0], ClampResults(n)) == after;
    } else if |args| > 0 && IsSwitchKey(args[0]) && (ArgText(args, 1) == "true" || ArgText(args, 1) == "false") {
      SetSwitchLiteral(s, args);
      var after := WithSwitch(s, args[0], args[1] == "true");
      SetSwitchLiteral(after, args);
      WithSwitchTwice(s, args[0], args[1] == "true");
    } else {
      ConfigPersisted(s, args);
    }
  }

  /** The listing shows the `text_results` line first, ended by a line break. */
  lemma ListingShowsTextResults(s: Settings)
    ensures Contains(Listing(s), "text_results: " + IntToDecimal(s.textResults) + "\n")
  {
    var lines := ListingLines(s);
    var head := "```Current config values\n";
    var piece := lines[0] + "\n";
    var rest := Join(lines[1..], "\n") + "```";
    assert Join(lines, "\n") == lines[0] + "\n" + Join(lines[1..], "\n");
    assert Listing(s) == head + piece + rest;
    ContainsMiddle(head, piece, rest);
  }

  /** After `!config text_results <v>` for v in [1, 10], `!config read` lists `text_results: <v>`. */
  lemma SetThenReadTextResults(s: Settings, v: int)
    requires 1 <= v <= 10
    ensures var after := ConfigEffect(s, ["text_results", IntToDecimal(v)]).settings;
      Contains(ConfigEffect(after, ["read"]).reply, "text_results: " + IntToDecimal(v) + "\n")
  {
    SetCountRendered(s, "text_results", v);
    var after := ConfigEffect(s, ["text_results", IntToDecimal(v)]).settings;
    assert after.textResults == v;
    ReadLists(after, ["read"]);
    ListingShowsTextResults(after);
  }

  /**
    The live configuration object of bot.js. Its fields are updated one at a time
    by `ConfigCommand`; `writes` counts the rewrites of config.json.
   */
  class BotSettings {
    var textResults: int
    var imageResults: int
    var notifyConnection: bool
    var debug: bool
    var spam: bool
    var emojispam: bool
    var nhcFromGithub: bool
    var shortHate: bool
    var memeSubreddit: string
    ghost var writes: nat

    function Snapshot(): Settings
      reads this
    {
      Settings(textResults, imageResults, notifyConnection, debug, spam, emojispam,
               nhcFromGithub, shortHate, memeSubreddit)
    }

    /** The object as it stands after config.json has been loaded. */
    constructor (loaded: Settings)
      ensures Snapshot() == loaded && writes == 0
    {
      textResults, imageResults := loaded.textResults, loaded.imageResults;
      notifyConnection, debug, spam := loaded.notifyConnection, loaded.debug, loaded.spam;
      emojispam, nhcFromGithub := loaded.emojispam, loaded.nhcFromGithub;
      shortHate, memeSubreddit := loaded.shortHate, loaded.memeSubreddit;
      writes := 0;
    }

    /** `configCommand(args)`: validates, updates the named field, rewrites config.json, replies. */
    method ConfigCommand(args: seq<string>) returns (reply: string)
      modifies this
      ensures var out := ConfigEffect(old(Snapshot()), args);
        && Snapshot() == out.settings && reply == out.reply
        && writes == old(writes) + (if out.persisted then 1 else 0)
    {
      if |args| > 0 && (args[0] == "text_results" || args[0] == "image_results") {
        var parsed := ParseInt(ArgText(args, 1));
        if parsed.None? {
          return "Cannot parse '" + ArgText(args, 1) + "' for config item '" + args[0] + "'";
        }
        var potentialResults := parsed.value;
        if potentialResults > 10 {
          potentialResults := 10;
        } else if potentialResults < 1 {
          potentialResults := 1;
        }
        SetCountField(args[0], potentialResults);
        reply := "Changed config item '" + args[0] + "' to value '" + IntToDecimal(potentialResults) + "'";
      } else if |args| > 0 && IsSwitchKey(args[0]) {
        var newValue: bool;
        var value := ArgText(args, 1);
        if value == "true" {
          newValue := true;
        } else if value == "false" {
          newValue := false;
        } else {
          return "Invlaid option " + value + " for config item " + args[0];
        }
        SetSwitchField(args[0], newValue);
        reply := "Changed config item '" + args[0] + "' to value '" + BoolText(newValue) + "'";
      } else if |args| == 0 || args[0] == "read" {
        reply := Listing(Snapshot());
      } else {
        return "Config item '" + args[0] + "' not recognized";
      }
      writes := writes + 1;
    }

    /** The assignment to the count field named by `key`. */
    method SetCountField(key: string, n: int)
      requires IsCountKey(key)
      modifies this
      ensures Snapshot() == WithCount(old(Snapshot()), key, n) && writes == old(writes)
    {
      if key == "text_results" {
        textResults := n;
      } else {
        imageResults := n;
      }
    }

    /** The assignment to the switch field named by `key`. */
    method SetSwitchField(key: string, b: bool)
      requires IsSwitchKey(key)
      modifies this
      ensures Snapshot() == WithSwitch(old(Snapshot()), key, b) && writes == old(writes)
    {
      if key == "notify_connection" {
        notifyConnection := b;
      } else if key == "debug" {
        debug := b;
      } else if key == "spam" {
        spam := b;
      } else if key == "emojispam" {
        emojispam := b;
      } else if key == "nhc_from_github" {
        nhcFromGithub := b;
      } else {
        shortHate := b;
      }
    }
  }
}
