/**
 * How the bot answers one incoming chat message: the command tests, the
 * parsing of a /get command's arguments, the conversation step over the
 * pending reply, and the answer each step sends.
 */
module Dispatch {
  import opened PyStr
  import opened Text
  import opened Session
  import Delivery

  const BotHandle := "@usconstitutionbot"
  const StartCommand := "/start"
  const GetPrefix := "/get"
  const AmendmentWord := "AMD"

  /** The parts of an incoming message the dispatch looks at. `isGroup`
      stands for the chat being a group; `replyFromId` is the sender of the
      message this one replies to, if any. */
  datatype ChatMessage = ChatMessage(
    text: Option<string>,
    isGroup: bool,
    chatTitle: Option<string>,
    fromUsername: Option<string>,
    fromFirstName: Option<string>,
    fromLastName: Option<string>,
    newMemberIds: seq<string>,
    replyFromId: Option<string>)

  /** What the bot does with a message. */
  datatype Action =
    | Greet(toGroup: bool)
    | Ignore
    | Prompt
    | Lookup(passage: string, isAmendment: bool, fromPendingReply: bool)
    | Help
    | Unrecognized

  /** The pending reply after a message, and the action taken. */
  datatype Step = Step(replyTo: Option<string>, action: Action)

  // ---------------------------------------------------------------------
  // Command tests
  // ---------------------------------------------------------------------

  /** is_get_command: the lower-cased text starts with "/get". */
  predicate IsGetCommand(text: string) {
    GetPrefix <= Lower(text)
  }

  /** is_command(word): the lower-cased, stripped text is exactly "/word",
      or, with all whitespace removed, it starts with "/word@usconstitutionbot"
      or "@usconstitutionbot/word". */
  predicate IsCommand(text: string, word: string) {
    var cmd := Strip(Lower(text));
    var shortCmd := Concat(Split(cmd));
    var slashWord := "/" + word;
    cmd == slashWord || slashWord + BotHandle <= shortCmd || BotHandle + slashWord <= shortCmd
  }

  /** The command test in plain terms: the stripped lower-case text is the
      command itself, or the lower-case text with all its whitespace removed
      starts with the command addressed to the bot, either way round. */
  lemma IsCommandSpec(text: string, word: string)
    ensures IsCommand(text, word) <==>
      var bare := RemoveSpace(Lower(text));
      || Strip(Lower(text)) == "/" + word
      || "/" + word + BotHandle <= bare
      || BotHandle + ("/" + word) <= bare
  {
    ConcatSplit(Strip(Lower(text)));
    RemoveSpaceOfStrip(Lower(text));
  }

  /** "/getAmd 1" is not the bare /get command but a /get command with
      arguments. */
  lemma GetAmdIsNotBareGet(t: string)
    requires t == "/getAmd 1"
    ensures !IsCommand(t, "get") && IsGetCommand(t)
  {
    var l := Lower(t);
    assert l[..4] == "/get";
    assert l[0] == '/' && l[8] == '1';
    StripUnchanged(l);
    IsCommandSpec(t, "get");
  }

  /** Blanks between the command and the bot's handle do not matter: a
      text reading "/word", then any run of whitespace, then
      "@usconstitutionbot" is the bare command. */
  lemma BlanksBeforeHandle(text: string, word: string, gap: string)
    requires forall i :: 0 <= i < |word| ==> !IsSpace(word[i])
    requires AllSpace(gap)
    requires Strip(Lower(text)) == "/" + word + gap + BotHandle
    ensures IsCommand(text, word)
  {
    var w := "/" + word;
    assert forall i :: 0 <= i < |w| ==> !IsSpace(w[i]);
    HandleHasNoBlank();
    RemoveBlanksBetween(Strip(Lower(text)), w, gap, BotHandle);
    RemoveSpaceOfStrip(Lower(text));
    IsCommandSpec(text, word);
  }

  lemma HandleHasNoBlank()
    ensures forall i :: 0 <= i < |BotHandle| ==> !IsSpace(BotHandle[i])
  {
  }

  lemma LowerKeepsSpace(s: string, i: nat)
    requires i < |s|
    ensures IsSpace(s[i]) ==> Lower(s)[i] == s[i]
  {
  }

  /** A /get command starts with four non-blank characters whose lower-case
      form is "/get"; the first of them is the slash itself. */
  lemma GetCommandShape(text: string)
    requires IsGetCommand(text)
    ensures |text| >= 4 && text[0] == '/'
    ensures forall i :: 0 <= i < 4 ==> !IsSpace(text[i]) && Lower(text)[i] == GetPrefix[i]
  {
    assert Lower(text)[..4] == GetPrefix;
    forall i | 0 <= i < 4
      ensures !IsSpace(text[i]) && Lower(text)[i] == GetPrefix[i]
    {
      assert Lower(text)[i] == Lower(text)[..4][i];
      LowerKeepsSpace(text, i);
    }
  }

  /** The first word of a /get command has at least four characters, and
      the three after the slash lower-case to "get". */
  lemma GetCommandWord(text: string)
    requires IsGetCommand(text)
    ensures Split(text) != [] && Split(text)[0] == LeadingWord(text)
    ensures |Split(text)[0]| >= 4
    ensures Lower(Split(text)[0][1..])[..3] == "get"
  {
    GetCommandShape(text);
    SplitSpec(text);
    LeadingWordSpec(text);
    var w := LeadingWord(text);
    LeadingWordCovers(text, 4);
    var tail := w[1..];
    forall i | 0 <= i < 3
      ensures Lower(tail)[i] == "get"[i]
    {
      assert tail[i] == w[i + 1] == text[i + 1];
      assert Lower(text)[i + 1] == GetPrefix[i + 1];
    }
  }

  // ---------------------------------------------------------------------
  // The arguments of a /get command
  // ---------------------------------------------------------------------

  /** A stripped, non-empty string has a first word. */
  lemma StrippedHasWord(s: string)
    requires s != [] && !IsSpace(s[0])
    ensures Split(s) != [] && Split(s)[0] == LeadingWord(s)
  {
    SplitSpec(s);
  }

  /** The /get branch for a text with arguments: the command word is the
      first word; the passage is what follows it, stripped. Without a
      passage, the command word without its slash becomes the pending reply
      and the user is asked for a passage. Otherwise the lookup is an
      amendment lookup exactly when the first passage word is "amd" in any
      case, and for the four-letter command that word is dropped when more
      text follows it. */
  function ParseGetArguments(text: string): (s: Step)
    requires IsGetCommand(text)
    ensures s.action.Prompt? || s.action.Lookup?
    ensures s.action.Lookup? ==> s.replyTo.None? && !s.action.fromPendingReply
  {
    GetCommandWord(text);
    var firstWord := Split(text)[0];
    ArgumentsStep(firstWord, Slice(text, |firstWord| + 1, |text|))
  }

  /** The /get step for the command word and the text after it and the
      blank that ends it. */
  function ArgumentsStep(firstWord: string, arguments: string): (s: Step)
    requires firstWord != []
    ensures s.action.Prompt? || s.action.Lookup?
    ensures s.action.Lookup? ==> s.replyTo.None? && !s.action.fromPendingReply
  {
    var passage := Strip(arguments);
    if passage == [] then
      Step(Clip(Some(firstWord[1..])), Prompt)
    else
      StripSpec(arguments);
      StrippedHasWord(passage);
      var firstPassageWord := Upper(Split(passage)[0]);
      var rest := Slice(passage, |firstPassageWord| + 1, |passage|);
      var p := if |firstWord| == 4 && Strip(rest) != [] then rest else passage;
      Step(None, Lookup(p, firstPassageWord == AmendmentWord, false))
  }

  /** The /get rules for a command word `w` followed by a blank and the
      arguments `arg`: a prompt exactly when the arguments are blank, and it
      awaits the command word without its slash; otherwise the lookup is an
      amendment lookup exactly when the first argument word upper-cases to
      "AMD", and it is of the whole stripped arguments when they are one
      word or the command word is longer than "/get". */
  lemma {:induction false} GetArgumentsSpec(text: string, w: string, g: char, arg: string)
    requires IsGetCommand(text)
    requires forall i :: 0 <= i < |w| ==> !IsSpace(w[i])
    requires IsSpace(g) && text == w + [g] + arg
    ensures |w| >= 4
    ensures var s := ParseGetArguments(text);
      && (s.action.Prompt? <==> AllSpace(arg))
      && (s.action.Prompt? ==> s.replyTo == Clip(Some(w[1..])))
      && (s.action.Lookup? ==> (s.action.isAmendment <==> Upper(LeadingWord(Strip(arg))) == AmendmentWord))
      && (s.action.Lookup? && (|w| != 4 || LeadingWord(Strip(arg)) == Strip(arg)) ==> s.action.passage == Strip(arg))
  {
    GetArgumentsWord(text, w, g, arg);
    StripSpec(arg);
    if !AllSpace(arg) {
      StrippedHasWord(Strip(arg));
    }
  }

  /** The four-letter command drops the first argument word when more than
      blanks follow it; otherwise the passage is the whole stripped
      arguments. */
  lemma {:induction false} GetArgumentsDrop(text: string, w: string, g: char, arg: string, v: string, h: char, r: string)
    requires IsGetCommand(text)
    requires forall i :: 0 <= i < |w| ==> !IsSpace(w[i])
    requires IsSpace(g) && text == w + [g] + arg
    requires forall i :: 0 <= i < |v| ==> !IsSpace(v[i])
    requires IsSpace(h) && Strip(arg) == v + [h] + r
    ensures var s := ParseGetArguments(text);
      && s.action.Lookup?
      && s.action.passage == if |w| == 4 && !AllSpace(r) then r else Strip(arg)
  {
    GetArgumentsWord(text, w, g, arg);
    DropFirstWord(w, arg, v, h, r);
  }

  lemma {:induction false} DropFirstWord(w: string, arg: string, v: string, h: char, r: string)
    requires w != []
    requires forall i :: 0 <= i < |v| ==> !IsSpace(v[i])
    requires IsSpace(h) && Strip(arg) == v + [h] + r
    ensures var s := ArgumentsStep(w, arg);
      && s.action.Lookup?
      && s.action.passage == if |w| == 4 && !AllSpace(r) then r else Strip(arg)
  {
    var p := Strip(arg);
    StripSpec(arg);
    StrippedHasWord(p);
    WordBeforeBlank(p, v, [h] + r);
    SliceAfter(v + [h], r);
    assert Split(p)[0] == v && Slice(p, |Upper(v)| + 1, |p|) == r;
    StripSpec(r);
  }

  /** A /get command word alone prompts, awaiting the word without its slash. */
  lemma {:induction false} GetWithoutArguments(text: string)
    requires IsGetCommand(text)
    requires forall i :: 0 <= i < |text| ==> !IsSpace(text[i])
    ensures ParseGetArguments(text) == Step(Clip(Some(text[1..])), Prompt)
  {
    GetCommandWord(text);
    LeadingWordOf(text, []);
    assert text + [] == text;
    assert Slice(text, |text| + 1, |text|) == [];
    StripSpec([]);
  }

  /** A command word followed by a blank is the first word, and the
      arguments are what follows the blank. */
  lemma {:induction false} GetArgumentsWord(text: string, w: string, g: char, arg: string)
    requires IsGetCommand(text)
    requires forall i :: 0 <= i < |w| ==> !IsSpace(w[i])
    requires IsSpace(g) && text == w + [g] + arg
    ensures Split(text) != [] && Split(text)[0] == w && |w| >= 4
    ensures Slice(text, |w| + 1, |text|) == arg
    ensures ParseGetArguments(text) == ArgumentsStep(w, arg)
  {
    GetCommandWord(text);
    WordBeforeBlank(text, w, [g] + arg);
    SliceAfter(w + [g], arg);
  }

  lemma WordBeforeBlank(text: string, w: string, tail: string)
    requires forall i :: 0 <= i < |w| ==> !IsSpace(w[i])
    requires tail != [] && IsSpace(tail[0])
    requires text == w + tail
    ensures LeadingWord(text) == w
  {
    LeadingWordOf(w, tail);
  }

  lemma SliceAfter(a: string, b: string)
    ensures Slice(a + b, |a|, |a + b|) == b
  {
    assert (a + b)[|a|..] == b;
  }
  /** "/get amd 1": the four-letter command with "amd" first looks up
      amendment 1. */
  lemma GetAmendmentArgument(t: string)
    requires t == "/get amd 1"
    ensures IsGetCommand(t)
    ensures ParseGetArguments(t) == Step(None, Lookup("1", true, false))
  {
    GetAmendmentCommand(t);
    AmendmentPassage(Slice(t, 5, 10));
  }

  lemma GetAmendmentCommand(t: string)
    requires t == "/get amd 1"
    ensures IsGetCommand(t)
    ensures Split(t)[0] == "/get" && Strip(Slice(t, 5, 10)) == "amd 1"
  {
    assert Lower(t)[..4] == "/get";
    LeadingWordOf("/get", " amd 1");
    assert t == "/get" + " amd 1";
    SplitSpec(t);
    var arg := Slice(t, 5, 10);
    assert arg == "amd 1";
    StripUnchanged(arg);
  }

  lemma AmendmentPassage(p: string)
    requires p == "amd 1"
    ensures Upper(Split(p)[0]) == "AMD"
    ensures Slice(p, 4, 5) == "1" && Strip(Slice(p, 4, 5)) == "1"
  {
    SplitSpec(p);
    LeadingWordOf("amd", " 1");
    assert p == "amd" + " 1";
    UpperAmd("amd");
    PassageAfterAmd(p);
  }

  lemma UpperAmd(w: string)
    requires w == "amd"
    ensures Upper(w) == "AMD"
  {
    assert Upper(w)[0] == 'A' && Upper(w)[1] == 'M' && Upper(w)[2] == 'D';
  }

  lemma PassageAfterAmd(p: string)
    requires p == "amd 1"
    ensures Slice(p, 4, 5) == "1" && Strip(Slice(p, 4, 5)) == "1"
  {
    var rest := Slice(p, 4, 5);
    assert rest == "1";
    StripUnchanged(rest);
  }

  /** "/getAmd 1": only the first word of the passage decides an amendment
      lookup, so this one looks up article 1. */
  lemma GetAmdLooksUpArticle(t: string)
    requires t == "/getAmd 1"
    ensures IsGetCommand(t)
    ensures ParseGetArguments(t) == Step(None, Lookup("1", false, false))
  {
    assert Lower(t)[..4] == "/get";
    var w, rest := "/getAmd", " 1";
    assert t == w + rest;
    LeadingWordOf(w, rest);
    SplitSpec(t);
    var arg := Slice(t, 8, 9);
    assert arg == "1";
    StripUnchanged(arg);
    SplitSpec(arg);
    LeadingWordOf(arg, []);
    assert arg + [] == arg;
    assert Upper(arg) == "1";
  }

  // ---------------------------------------------------------------------
  // The conversation step
  // ---------------------------------------------------------------------

  /** One message, in the order MainPage.post tries its branches. The
      pending reply before the message is `replyTo`; `firstContact` stands
      for a record that has never sent anything. */
  function Transition(replyTo: Option<string>, firstContact: bool, msg: ChatMessage, botId: string): Step {
    if firstContact || msg.text == Some(StartCommand) then
      if msg.isGroup && msg.newMemberIds != [] && botId !in msg.newMemberIds then Step(replyTo, Ignore)
      else Step(None, Greet(msg.isGroup))
    else if msg.text.None? then
      Step(replyTo, Ignore)
    else
      var text := Strip(msg.text.value);
      if IsCommand(text, "get") then Step(Clip(Some("get")), Prompt)
      else if IsGetCommand(text) then ParseGetArguments(text)
      else if IsCommand(text, "help") then Step(None, Help)
      else if replyTo.Some? && "get" <= replyTo.value then
        Step(None, Lookup(text, Upper(replyTo.value[3..]) == AmendmentWord, true))
      else if msg.isGroup && !Contains(text, BotHandle) && msg.replyFromId != Some(botId) then
        Step(None, Ignore)
      else
        Step(None, Unrecognized)
  }

  /** The /get branch of MainPage.post on a chat record: the pending reply
      is cleared first, then set to the command word when no passage
      follows. */
  method GetWithArguments(user: User, text: string) returns (action: Action)
    requires IsGetCommand(text)
    modifies user`replyTo
    ensures Step(user.replyTo, action) == ParseGetArguments(text)
    ensures user.Valid()
  {
    user.AwaitReply(None);
    ArgumentsOfCommand(text);
    var words := Split(text);
    var firstWord := words[0];
    var arguments := Slice(text, |firstWord| + 1, |text|);
    var passage := Strip(arguments);
    if passage == [] {
      ArgumentsPrompt(firstWord, arguments);
      user.AwaitReply(Some(firstWord[1..]));
      return Prompt;
    }
    action := LookupArguments(firstWord, arguments);
  }

  /** ParseGetArguments splits off the first word and hands on the rest. */
  lemma ArgumentsOfCommand(text: string)
    requires IsGetCommand(text)
    ensures Split(text) != [] && |Split(text)[0]| >= 4
    ensures ParseGetArguments(text) == ArgumentsStep(Split(text)[0], Slice(text, |Split(text)[0]| + 1, |text|))
  {
    GetCommandWord(text);
  }

  /** Blank arguments prompt, awaiting the command word without its slash. */
  lemma ArgumentsPrompt(firstWord: string, arguments: string)
    requires firstWord != [] && Strip(arguments) == []
    ensures ArgumentsStep(firstWord, arguments) == Step(Clip(Some(firstWord[1..])), Prompt)
  {
  }

  /** The lookup half of the /get branch: the first passage word decides
      an amendment lookup, and the four-letter command drops it when more
      text follows. */
  method LookupArguments(firstWord: string, arguments: string) returns (action: Action)
    requires firstWord != [] && Strip(arguments) != []
    ensures ArgumentsStep(firstWord, arguments) == Step(None, action)
  {
    var passage := Strip(arguments);
    StripSpec(arguments);
    StrippedHasWord(passage);
    var firstPassageWord := Upper(Split(passage)[0]);
    var rest := Slice(passage, |firstPassageWord| + 1, |passage|);
    if |firstWord| == 4 && Strip(rest) != [] {
      passage := rest;
    }
    action := Lookup(passage, firstPassageWord == AmendmentWord, false);
  }

  /** MainPage.post on a chat record: the same branches, updating the
      record's pending reply through await_reply as it goes. */
  method Post(user: User, msg: ChatMessage, botId: string) returns (action: Action)
    modifies user`replyTo
    ensures Step(user.replyTo, action) == Transition(old(user.replyTo), old(user.lastSent).None?, msg, botId)
    ensures old(user.Valid()) ==> user.Valid()
  {
    if user.lastSent.None? || msg.text == Some(StartCommand) {
      if msg.isGroup && msg.newMemberIds != [] && botId !in msg.newMemberIds {
        return Ignore;
      }
      user.AwaitReply(None);
      return Greet(msg.isGroup);
    }
    if msg.text.None? {
      return Ignore;
    }
    var text := Strip(msg.text.value);
    if IsCommand(text, "get") {
      user.AwaitReply(Some("get"));
      action := Prompt;
    } else if IsGetCommand(text) {
      action := GetWithArguments(user, text);
    } else if IsCommand(text, "help") {
      user.AwaitReply(None);
      action := Help;
    } else if user.replyTo.Some? && "get" <= user.replyTo.value {
      var isAmendment := Upper(user.replyTo.value[3..]) == AmendmentWord;
      user.AwaitReply(None);
      action := Lookup(text, isAmendment, true);
    } else {
      user.AwaitReply(None);
      if msg.isGroup && !Contains(text, BotHandle) && msg.replyFromId != Some(botId) {
        return Ignore;
      }
      action := Unrecognized;
    }
  }

  /** MainPage.post as the program runs it: the record comes from
      update_profile (with the group's title as its first name in a group),
      which always builds a fresh one, so the step starts from an empty
      pending reply and a set last-sent time. */
  method HandleMessage(msg: ChatMessage, botId: string, now: nat) returns (user: User, action: Action)
    ensures fresh(user)
    ensures Step(user.replyTo, action) == Transition(Some(""), false, msg, botId)
    ensures msg.isGroup ==> user.username.None? && user.firstName == msg.chatTitle && user.lastName.None?
    ensures !msg.isGroup ==>
      user.username == msg.fromUsername && user.firstName == msg.fromFirstName && user.lastName == msg.fromLastName
  {
    if msg.isGroup {
      user := UpdateProfile(None, msg.chatTitle, None, now);
    } else {
      user := UpdateProfile(msg.fromUsername, msg.fromFirstName, msg.fromLastName, now);
    }
    action := Post(user, msg, botId);
  }

  // ---------------------------------------------------------------------
  // Properties of the step
  // ---------------------------------------------------------------------

  /** The pending reply never exceeds 1500 characters. */
  lemma ReplyToStaysBounded(replyTo: Option<string>, firstContact: bool, msg: ChatMessage, botId: string)
    requires Bounded(replyTo)
    ensures Bounded(Transition(replyTo, firstContact, msg, botId).replyTo)
  {
    ClipIdempotent(Some("get"));
    if msg.text.Some? && IsGetCommand(Strip(msg.text.value)) {
      var text := Strip(msg.text.value);
      GetCommandWord(text);
      ClipIdempotent(Some(Split(text)[0][1..]));
    }
  }

  /** A prompt leaves a pending reply holding the command word without its
      slash, whose first three letters are "get" in some case mix. */
  lemma PromptAwaitsGet(replyTo: Option<string>, firstContact: bool, msg: ChatMessage, botId: string)
    requires Transition(replyTo, firstContact, msg, botId).action.Prompt?
    ensures var r := Transition(replyTo, firstContact, msg, botId).replyTo;
      r.Some? && |r.value| >= 3 && Lower(r.value)[..3] == "get"
  {
    var text := Strip(msg.text.value);
    assert !firstContact && msg.text.Some? && msg.text != Some(StartCommand);
    if IsCommand(text, "get") {
      BareGetAwaited("get");
    } else {
      assert IsGetCommand(text);
      assert Transition(replyTo, firstContact, msg, botId) == ParseGetArguments(text);
      ParseGetPrompt(text);
    }
  }

  /** The bare /get command awaits "get" itself. */
  lemma BareGetAwaited(w: string)
    requires w == "get"
    ensures Clip(Some(w)) == Some(w) && Lower(w)[..3] == "get"
  {
    assert Lower(w)[..3] == [LowerChar('g'), LowerChar('e'), LowerChar('t')];
  }

  /** Every step other than a prompt or an ignored message leaves nothing
      pending; an ignored message either keeps the pending reply as it was
      or clears it. */
  lemma OnlyPromptLeavesPending(replyTo: Option<string>, firstContact: bool, msg: ChatMessage, botId: string)
    ensures var s := Transition(replyTo, firstContact, msg, botId);
      && (s.action.Greet? || s.action.Lookup? || s.action.Help? || s.action.Unrecognized? ==> s.replyTo.None?)
      && (s.action.Ignore? ==> s.replyTo.None? || s.replyTo == replyTo)
  {
    if !firstContact && msg.text != Some(StartCommand) && msg.text.Some? {
      var text := Strip(msg.text.value);
      if !IsCommand(text, "get") && IsGetCommand(text) {
        assert Transition(replyTo, firstContact, msg, botId) == ParseGetArguments(text);
      }
    }
  }

  /** The prompt of a /get command without a passage awaits the command
      word, whose first three letters are "get" in some case mix. */
  lemma ParseGetPrompt(text: string)
    requires IsGetCommand(text)
    ensures var s := ParseGetArguments(text);
      s.action.Prompt? ==> s.replyTo.Some? && |s.replyTo.value| >= 3 && Lower(s.replyTo.value)[..3] == "get"
  {
    GetCommandWord(text);
    var c := Split(text)[0][1..];
    var r := Clip(Some(c)).value;
    assert r[..3] == c[..3];
    assert Lower(r)[..3] == Lower(c)[..3];
  }

  /** The /get and /help commands win over a pending reply: the step is the
      same whatever was pending. */
  lemma CommandsPreemptPendingReply(r1: Option<string>, r2: Option<string>, msg: ChatMessage, botId: string)
    requires msg.text.Some? && msg.text.value != StartCommand
    requires var text := Strip(msg.text.value);
      IsCommand(text, "get") || IsGetCommand(text) || IsCommand(text, "help")
    ensures Transition(r1, false, msg, botId) == Transition(r2, false, msg, botId)
  {
  }

  /** A plain message that is neither /start nor a command. */
  predicate PlainText(msg: ChatMessage) {
    && msg.text.Some? && msg.text.value != StartCommand
    && var text := Strip(msg.text.value);
       !IsCommand(text, "get") && !IsGetCommand(text) && !IsCommand(text, "help")
  }

  /** A prompt followed by a plain message: the message, stripped, is looked
      up (as an amendment exactly when the prompt came from a command word
      "getamd" in any case) and the pending reply is cleared, provided the
      command word started with lower-case "get". */
  lemma PromptThenPassage(replyTo: Option<string>, m1: ChatMessage, m2: ChatMessage, botId: string)
    requires Transition(replyTo, false, m1, botId).action == Prompt
    requires var r := Transition(replyTo, false, m1, botId).replyTo; r.Some? && "get" <= r.value
    requires PlainText(m2)
    ensures var r := Transition(replyTo, false, m1, botId).replyTo;
      Transition(r, false, m2, botId) ==
        Step(None, Lookup(Strip(m2.text.value), Upper(r.value[3..]) == AmendmentWord, true))
  {
    PendingReplyConsumed(Transition(replyTo, false, m1, botId).replyTo, m2, botId);
  }

  /** Any pending reply starting with lower-case "get", however it was
      stored, is consumed by the plain message that follows: the message,
      stripped, is looked up (as an amendment exactly when the rest of the
      reply upper-cases to "AMD") and the pending reply is cleared. */
  lemma PendingReplyConsumed(replyTo: Option<string>, msg: ChatMessage, botId: string)
    requires replyTo.Some? && "get" <= replyTo.value
    requires PlainText(msg)
    ensures Transition(replyTo, false, msg, botId) ==
      Step(None, Lookup(Strip(msg.text.value), Upper(replyTo.value[3..]) == AmendmentWord, true))
  {
  }

  /** A pending reply that does not start with lower-case "get" is never
      consumed: the plain message that follows is treated as unrecognized
      (or ignored in a group), and the pending reply is cleared. */
  lemma UnconsumedPendingReply(replyTo: Option<string>, msg: ChatMessage, botId: string)
    requires replyTo.Some? && !("get" <= replyTo.value)
    requires PlainText(msg)
    ensures Transition(replyTo, false, msg, botId).action in {Ignore, Unrecognized}
    ensures Transition(replyTo, false, msg, botId).replyTo == None
  {
  }

  /** A plain message with nothing pending is ignored exactly in a group,
      when it neither names the bot nor replies to it; otherwise it is
      answered as unrecognized. Both clear the pending reply. */
  lemma IgnoredExactlyInGroups(replyTo: Option<string>, msg: ChatMessage, botId: string)
    requires replyTo.None? || !("get" <= replyTo.value)
    requires PlainText(msg)
    ensures var s := Transition(replyTo, false, msg, botId);
      && s.replyTo == None
      && (s.action == Ignore <==>
            msg.isGroup && !Contains(Strip(msg.text.value), BotHandle) && msg.replyFromId != Some(botId))
      && (s.action != Ignore ==> s.action == Unrecognized)
  {
  }

  /** As the program runs, every message starts from an empty pending
      reply, so no message is ever looked up as the answer to a prompt. */
  lemma FreshRecordNeverAnswersPrompt(msg: ChatMessage, botId: string)
    ensures var s := Transition(Some(""), false, msg, botId);
      s.action.Lookup? ==> !s.action.fromPendingReply
  {
    assert !("get" <= "");
  }

  // ---------------------------------------------------------------------
  // The answer sent
  // ---------------------------------------------------------------------

  /** The text of an answer: a template (the user's or group's name filled
      in is not modelled), the error text of a failed fetch, or a found
      passage's header and the page fragment it comes from. */
  datatype ReplyBody =
    | WelcomeText(toGroup: bool)
    | AskForPassage
    | HelpText
    | UnrecognizedText
    | NoResultsText
    | PassageText(text: string)
    | FoundPassage(header: string, fragment: string)

  datatype Reply = Reply(body: ReplyBody, opts: Delivery.SendOptions)

  function WithKeyboard(msgType: Delivery.MsgType): Delivery.SendOptions {
    Delivery.Defaults(msgType).(customKeyboard := Some(Delivery.TryKeyboard))
  }

  /** The send_message call each action makes, if any. `fetch` is the page
      download of the lookup; an exception while reading the passage sends
      nothing. A lookup answering a prompt also removes the keyboard. */
  function Answer(action: Action, fetch: string -> FetchOutcome): Option<Reply> {
    match action
    case Greet(toGroup) => Some(Reply(WelcomeText(toGroup), WithKeyboard(Delivery.Welcome)))
    case Ignore => None
    case Prompt => Some(Reply(AskForPassage, Delivery.Defaults(Delivery.Message).(forceReply := true)))
    case Help => Some(Reply(HelpText, WithKeyboard(Delivery.Message)))
    case Unrecognized => Some(Reply(UnrecognizedText, WithKeyboard(Delivery.Message)))
    case Lookup(passage, isAmendment, fromPendingReply) =>
      match GetPassage(passage, isAmendment, fetch)
      case Empty =>
        Some(Reply(NoResultsText, Delivery.Defaults(Delivery.Message).(hideKeyboard := fromPendingReply)))
      case Raised => None
      case FetchError(text) =>
        Some(Reply(PassageText(text), Delivery.Defaults(Delivery.Passage).(hideKeyboard := fromPendingReply)))
      case Extracted(fragment, _, header) =>
        Some(Reply(FoundPassage(header, fragment), Delivery.Defaults(Delivery.Passage).(hideKeyboard := fromPendingReply)))
  }

  /** Every record posted for an answer: a prompt forces a reply; a passage
      (found or not fetched) goes out as Markdown; the welcome, help and
      unrecognized answers carry the inline-mode keyboard; a lookup removes
      the keyboard exactly when it answers a prompt; link previews are
      always off. */
  lemma AnswerHeaders(action: Action, fetch: string -> FetchOutcome, p: Delivery.Payload)
    requires Answer(action, fetch).Some? && Delivery.HeadersFor(p, Answer(action, fetch).value.opts)
    ensures action == Prompt ==> p.replyMarkup == Some(Delivery.ForceReply)
    ensures action.Greet? || action == Help || action == Unrecognized ==>
      p.replyMarkup == Some(Delivery.Custom(Delivery.TryKeyboard)) && p.parseMode == None
    ensures Answer(action, fetch).value.body.FoundPassage? || Answer(action, fetch).value.body.PassageText? ==>
      p.parseMode == Some(Delivery.MarkdownMode)
    ensures action.Lookup? ==>
      (p.replyMarkup == Some(Delivery.RemoveKeyboard) <==> action.fromPendingReply)
    ensures p.disableWebPagePreview
  {
  }

  /** A lookup answers nothing exactly when the page came without a problem
      and the passage does not start with a digit; when the page lacks the
      passage marker the answer is the no-results text. */
  lemma LookupAnswers(passage: string, isAmendment: bool, fromPendingReply: bool, fetch: string -> FetchOutcome)
    requires fetch(SourceUrl(isAmendment)).Fetched?
    ensures var a := Answer(Lookup(passage, isAmendment, fromPendingReply), fetch);
      var html := fetch(SourceUrl(isAmendment)).html;
      && (a.None? <==> MarkerSlice(html).Some? && (passage == [] || !('0' <= passage[0] <= '9')))
      && (a.Some? && a.value.body == NoResultsText <==> forall j :: !OccursAt(html, PassageMarker, j))
  {
    GetPassageOutcomes(passage, isAmendment, fetch);
  }
}
