/**
 * Outbound messages: keyboards, the request record built for one message,
 * the split of long texts into chunks, the classification of the chat
 * service's answer, and what happens to one message once it is posted.
 */
module Delivery {
  import opened PyStr
  import opened Session

  // ---------------------------------------------------------------------
  // Keyboards
  // ---------------------------------------------------------------------

  datatype InlineButton = InlineButton(text: string, switchInlineQuery: string)

  datatype Keyboard =
    | ReplyKeyboard(keyboard: seq<seq<string>>, oneTimeKeyboard: bool)
    | InlineKeyboard(inlineKeyboard: seq<seq<InlineButton>>)

  /** The rows of a keyboard read one after another. */
  function Flatten(rows: seq<seq<string>>): seq<string> {
    if rows == [] then [] else rows[0] + Flatten(rows[1..])
  }

  lemma {:induction false} FlattenAppend(a: seq<seq<string>>, b: seq<seq<string>>)
    ensures Flatten(a + b) == Flatten(a) + Flatten(b)
  {
    if a != [] {
      assert (a + b)[1..] == a[1..] + b;
      FlattenAppend(a[1..], b);
    } else {
      assert a + b == b;
    }
  }

  /** build_buttons: one row per menu item, in menu order, so reading the
      rows back gives the menu. */
  method BuildButtons(menu: seq<string>) returns (buttons: seq<seq<string>>)
    ensures |buttons| == |menu|
    ensures forall i :: 0 <= i < |menu| ==> buttons[i] == [menu[i]]
    ensures Flatten(buttons) == menu
  {
    buttons := [];
    for i := 0 to |menu|
      invariant |buttons| == i
      invariant forall j :: 0 <= j < i ==> buttons[j] == [menu[j]]
      invariant Flatten(buttons) == menu[..i]
    {
      FlattenAppend(buttons, [[menu[i]]]);
      assert Flatten([[menu[i]]]) == [menu[i]];
      assert menu[..i + 1] == menu[..i] + [menu[i]];
      buttons := buttons + [[menu[i]]];
    }
    assert menu[..|menu|] == menu;
  }

  /** build_keyboard: a one-time reply keyboard with the rows as given. */
  function BuildKeyboard(buttons: seq<seq<string>>): (k: Keyboard)
    ensures k.ReplyKeyboard? && k.keyboard == buttons && k.oneTimeKeyboard
  {
    ReplyKeyboard(buttons, true)
  }

  /** build_inline_switch_keyboard: a single row holding a single button
      that switches to inline mode with `query` typed in. */
  function InlineSwitchKeyboard(text: string, query: string): (k: Keyboard)
    ensures k.InlineKeyboard? && |k.inlineKeyboard| == 1 && |k.inlineKeyboard[0]| == 1
    ensures k.inlineKeyboard[0][0].text == text && k.inlineKeyboard[0][0].switchInlineQuery == query
  {
    InlineKeyboard([[InlineButton(text, query)]])
  }

  /** The keyboard attached to the welcome, help and unrecognized answers. */
  const TryKeyboard := InlineSwitchKeyboard("Try inline mode", "3:2")

  // ---------------------------------------------------------------------
  // The request record of one message
  // ---------------------------------------------------------------------

  datatype MsgType = Message | Passage | Result | Welcome | Promo

  /** The keyword arguments of send_message. */
  datatype SendOptions = SendOptions(
    msgType: MsgType,
    forceReply: bool,
    isMarkdown: bool,
    disableWebPagePreview: bool,
    customKeyboard: Option<Keyboard>,
    hideKeyboard: bool)

  /** send_message's defaults for a given message type. */
  function Defaults(msgType: MsgType): SendOptions {
    SendOptions(msgType, false, false, true, None, false)
  }

  datatype Markup = ForceReply | Custom(keyboard: Keyboard) | RemoveKeyboard

  /** The `build` dictionary: an optional key is None when absent;
      `disable_web_page_preview` is present exactly when it is true. */
  datatype Payload = Payload(
    chatId: string,
    text: string,
    replyMarkup: Option<Markup>,
    parseMode: Option<string>,
    disableWebPagePreview: bool)

  const Bell: char := '\U{7}'
  const MarkdownMode := "Markdown"

  /** The markup of a message: a forced reply wins over a custom keyboard,
      which wins over removing the keyboard; otherwise there is none. The
      parse mode is Markdown exactly for Markdown text, passages and
      results. */
  predicate HeadersFor(p: Payload, opts: SendOptions) {
    && (opts.forceReply ==> p.replyMarkup == Some(ForceReply))
    && (!opts.forceReply && opts.customKeyboard.Some? ==>
          p.replyMarkup == Some(Custom(opts.customKeyboard.value)))
    && (!opts.forceReply && opts.customKeyboard.None? && opts.hideKeyboard ==>
          p.replyMarkup == Some(RemoveKeyboard))
    && (!opts.forceReply && opts.customKeyboard.None? && !opts.hideKeyboard ==>
          p.replyMarkup == None)
    && (p.parseMode.Some? <==> opts.isMarkdown || opts.msgType == Passage || opts.msgType == Result)
    && (p.parseMode.Some? ==> p.parseMode.value == MarkdownMode)
    && p.disableWebPagePreview == opts.disableWebPagePreview
  }

  /** The parse mode send_short_message puts in the record for `opts`. */
  function ParseModeFor(opts: SendOptions): Option<string> {
    if opts.isMarkdown || opts.msgType == Passage || opts.msgType == Result then Some(MarkdownMode) else None
  }

  /** The text of a message has every bell character replaced by a blank
      and is otherwise the given text, character for character. */
  predicate BellsBlanked(sent: string, msgText: string) {
    && |sent| == |msgText|
    && forall i :: 0 <= i < |msgText| ==> sent[i] == if msgText[i] == Bell then ' ' else msgText[i]
  }

  /** The record built for `msgText` is fully determined by the chat, the
      text and the options. */
  lemma BuiltRecordUnique(p: Payload, q: Payload, chatId: string, msgText: string, opts: SendOptions)
    requires p.chatId == chatId && BellsBlanked(p.text, msgText) && HeadersFor(p, opts)
    requires q.chatId == chatId && BellsBlanked(q.text, msgText) && HeadersFor(q, opts)
    ensures p == q
  {
    assert p.text == q.text;
  }

  /** The first half of send_short_message: the `build` record, filled in
      key by key. */
  method BuildPayload(chatId: string, msgText: string, opts: SendOptions) returns (build: Payload)
    ensures build.chatId == chatId
    ensures build.text == ReplaceChar(msgText, Bell, " ")
    ensures BellsBlanked(build.text, msgText)
    ensures HeadersFor(build, opts)
  {
    ReplaceCharPointwise(msgText, Bell, ' ');
    build := Payload(chatId, ReplaceChar(msgText, Bell, " "), None, None, false);
    if opts.forceReply {
      build := build.(replyMarkup := Some(ForceReply));
    } else if opts.customKeyboard.Some? {
      build := build.(replyMarkup := Some(Custom(opts.customKeyboard.value)));
    } else if opts.hideKeyboard {
      build := build.(replyMarkup := Some(RemoveKeyboard));
    }
    if opts.isMarkdown || opts.msgType == Passage || opts.msgType == Result {
      build := build.(parseMode := Some(MarkdownMode));
    }
    if opts.disableWebPagePreview {
      build := build.(disableWebPagePreview := true);
    }
  }

  // ---------------------------------------------------------------------
  // Chunks of a long text
  // ---------------------------------------------------------------------

  const MaxMessageLength := 4096

  /** Consecutive pieces of at most 4096 characters. */
  function Wrap(text: string): seq<string>
    decreases |text|
  {
    if text == [] then []
    else if |text| <= MaxMessageLength then [text]
    else [text[..MaxMessageLength]] + Wrap(text[MaxMessageLength..])
  }

  /** The pieces send_message posts: the text itself when it fits in one
      message, its wrap otherwise. */
  function Chunks(text: string): seq<string> {
    if |text| > MaxMessageLength then Wrap(text) else [text]
  }

  predicate ChunkSized(chunks: seq<string>) {
    forall i :: 0 <= i < |chunks| ==> 0 < |chunks[i]| <= MaxMessageLength
  }

  lemma {:induction false} WrapSpec(text: string)
    ensures Concat(Wrap(text)) == text
    ensures ChunkSized(Wrap(text))
    ensures |text| > MaxMessageLength ==> |Wrap(text)| >= 2
    decreases |text|
  {
    if |text| > MaxMessageLength {
      var rest := text[MaxMessageLength..];
      WrapSpec(rest);
      assert Wrap(text) == [text[..MaxMessageLength]] + Wrap(rest);
      assert Wrap(text)[1..] == Wrap(rest);
      assert text == text[..MaxMessageLength] + rest;
    } else if text != [] {
      assert Concat(Wrap(text)) == text + Concat([]);
    }
  }

  /** Reading the chunks one after another gives the text back; each has
      at most 4096 characters, none is empty unless the text is, and a text
      longer than one message yields at least two. */
  lemma ChunksSpec(text: string)
    ensures Concat(Chunks(text)) == text
    ensures text != [] ==> ChunkSized(Chunks(text))
    ensures |text| > MaxMessageLength <==> |Chunks(text)| >= 2
  {
    WrapSpec(text);
    if |text| <= MaxMessageLength {
      assert Concat(Chunks(text)) == text + Concat([]);
    }
  }

  function Texts(payloads: seq<Payload>): seq<string> {
    seq(|payloads|, i requires 0 <= i < |payloads| => payloads[i].text)
  }

  /** The record posted for one chunk. */
  predicate Carries(p: Payload, chatId: string, chunk: string, opts: SendOptions) {
    p.chatId == chatId && BellsBlanked(p.text, chunk) && HeadersFor(p, opts)
  }

  /** send_message: nothing for a blank text; otherwise one record per
      chunk, in order. Every record carries the same headers; their texts
      read one after another are the whole text with bells blanked. */
  method SendMessage(chatId: string, text: string, opts: SendOptions) returns (payloads: seq<Payload>)
    ensures AllSpace(text) ==> payloads == []
    ensures !AllSpace(text) ==> |payloads| == |Chunks(text)|
    ensures forall i :: 0 <= i < |payloads| ==> Carries(payloads[i], chatId, Chunks(text)[i], opts)
    ensures forall i :: 0 <= i < |payloads| ==> 0 < |payloads[i].text| <= MaxMessageLength
    ensures Concat(Texts(payloads)) == if AllSpace(text) then [] else ReplaceChar(text, Bell, " ")
  {
    payloads := [];
    StripSpec(text);
    if Strip(text) == [] {
      return;
    }
    var chunks := if |text| > MaxMessageLength then Wrap(text) else [text];
    ChunksSpec(text);
    payloads := BuildEach(chatId, chunks, opts);
  }

  /** One record per chunk, in order, each built as for a single message. */
  method BuildEach(chatId: string, chunks: seq<string>, opts: SendOptions) returns (payloads: seq<Payload>)
    requires ChunkSized(chunks)
    ensures |payloads| == |chunks|
    ensures forall i :: 0 <= i < |payloads| ==> Carries(payloads[i], chatId, chunks[i], opts)
    ensures forall i :: 0 <= i < |payloads| ==> 0 < |payloads[i].text| <= MaxMessageLength
    ensures Concat(Texts(payloads)) == ReplaceChar(Concat(chunks), Bell, " ")
  {
    payloads := [];
    for i := 0 to |chunks|
      invariant |payloads| == i
      invariant forall j :: 0 <= j < i ==> Carries(payloads[j], chatId, chunks[j], opts)
      invariant forall j :: 0 <= j < i ==> 0 < |payloads[j].text| <= MaxMessageLength
      invariant Concat(Texts(payloads)) == ReplaceChar(Concat(chunks[..i]), Bell, " ")
    {
      var p := BuildPayload(chatId, chunks[i], opts);
      TextsStep(payloads, p, chunks, i);
      payloads := payloads + [p];
    }
    assert chunks[..|chunks|] == chunks;
  }

  lemma TextsStep(payloads: seq<Payload>, p: Payload, chunks: seq<string>, i: nat)
    requires i < |chunks|
    requires Concat(Texts(payloads)) == ReplaceChar(Concat(chunks[..i]), Bell, " ")
    requires p.text == ReplaceChar(chunks[i], Bell, " ")
    ensures Concat(Texts(payloads + [p])) == ReplaceChar(Concat(chunks[..i + 1]), Bell, " ")
  {
    assert Texts(payloads + [p]) == Texts(payloads) + [p.text];
    ConcatAppend(Texts(payloads), [p.text]);
    assert Concat([p.text]) == p.text;
    assert chunks[..i + 1] == chunks[..i] + [chunks[i]];
    ConcatAppend(chunks[..i], [chunks[i]]);
    assert Concat([chunks[i]]) == chunks[i];
    ReplaceCharAppend(Concat(chunks[..i]), chunks[i], Bell, " ");
  }

  // ---------------------------------------------------------------------
  // The chat service's answer
  // ---------------------------------------------------------------------

  /** The decoded answer: `ok`, the optional error description and the
      optional `parameters.migrate_to_chat_id`. */
  datatype Response = Response(ok: bool, description: Option<string>, migrateTo: Option<int>)

  /** str(response.get('description')) */
  function Describe(r: Response): string {
    match r.description
    case None => "None"
    case Some(d) => d
  }

  const ParseError := "Bad Request: cannot parse"
  const MigrateError := "Bad Request: group chat was upgraded to a supergroup chat"
  const RecognizedErrors: seq<string> := [
    "PEER_ID_INVALID",
    "Bot was blocked by the user",
    "Forbidden: user is deleted",
    "Forbidden: user is deactivated",
    "Forbidden: User is deactivated",
    "Forbidden: bot was blocked by the user",
    "Forbidden: Bot was blocked by the user",
    "Forbidden: bot was kicked from the group chat",
    "Forbidden: bot was kicked from the channel chat",
    "Forbidden: bot was kicked from the supergroup chat",
    "Forbidden: bot is not a member of the supergroup chat",
    "Forbidden: bot can't initiate conversation with a user",
    "Forbidden: Bot can't initiate conversation with a user",
    "Bad Request: chat not found",
    "Bad Request: PEER_ID_INVALID",
    "Bad Request: have no rights to send a message",
    "Bad Request: not enough rights to send text messages to the chat",
    "Bad Request: group chat was deactivated",
    MigrateError]

  /** How handle_response reads an answer. */
  datatype Verdict =
    | Delivered        // ok
    | Unparsable       // the Markdown could not be parsed
    | UnknownError     // an error the bot does not recognise
    | ChatMigrated     // the group became a supergroup
    | ChatGone         // blocked, deleted, kicked, ...: the record would be dropped

  function Classify(r: Response): Verdict {
    if r.ok then Delivered
    else if ParseError <= Describe(r) then Unparsable
    else if Describe(r) !in RecognizedErrors then UnknownError
    else if Describe(r) == MigrateError then ChatMigrated
    else ChatGone
  }

  /** `if new_uid:` in the migration branch: present and non-zero. */
  predicate HasMigrationTarget(r: Response) {
    r.migrateTo.Some? && r.migrateTo.value != 0
  }

  /** The value handle_response returns: false only for an error it does
      not recognise. */
  function Handled(r: Response): bool {
    Classify(r) != UnknownError
  }

  /** handle_response returns False exactly when the answer is not ok, its
      description does not start with the parse-error text, and it is not
      one of the recognised errors. */
  lemma HandledFalseIff(r: Response)
    ensures !Handled(r) <==>
      !r.ok && !(ParseError <= Describe(r)) && Describe(r) !in RecognizedErrors
  {
  }

  /** handle_response, for its effect on the record and its result: a
      delivered message updates the last-sent time; a migrated promo whose
      answer names no new chat clears the promo flag; the result is
      Handled(r). The record's deletion, the copy made for a migration and
      the log lines are not part of this model. */
  method HandleResponse(user: User, r: Response, msgType: MsgType, now: nat) returns (handled: bool)
    modifies user`lastSent, user`promo
    ensures handled == Handled(r)
    ensures user.lastSent == if r.ok then Some(now) else old(user.lastSent)
    ensures user.promo == if Classify(r) == ChatMigrated && msgType == Promo && !HasMigrationTarget(r)
                          then false else old(user.promo)
  {
    if r.ok {
      user.UpdateLastSent(now);
    } else {
      var description := Describe(r);
      if ParseError <= description {
        return true;
      }
      if description !in RecognizedErrors {
        return false;
      }
      if description == MigrateError {
        if HasMigrationTarget(r) {
          // the migrated copy is the one whose flag would be cleared
          return true;
        }
      } else {
        return true;
      }
      if msgType == Promo {
        user.SetPromo(false);
      }
    }
    return true;
  }

  /** What became of a post: the transport raised, or an answer came. */
  datatype PostOutcome = TransportError | Answered(response: Response)

  /** send_short_message: build the record, then post it. A promo is always
      queued (and the promo flag set); a transport error queues the record;
      an unparsable answer queues it again without the parse mode; any
      other answer queues it exactly when handle_response returns false.
      The result is the record handed to the queue, if any: always the
      built record, at most without its parse mode. */
  method SendShortMessage(user: User, chatId: string, msgText: string, opts: SendOptions,
                          outcome: PostOutcome, now: nat)
    returns (queued: Option<Payload>)
    modifies user`lastSent, user`promo
    ensures queued.None? <==>
      opts.msgType != Promo && outcome.Answered? &&
      !(ParseError <= Describe(outcome.response)) && Handled(outcome.response)
    ensures queued.Some? ==>
      && queued.value.chatId == chatId
      && BellsBlanked(queued.value.text, msgText)
      && queued.value.replyMarkup.Some? == (opts.forceReply || opts.customKeyboard.Some? || opts.hideKeyboard)
    ensures queued.Some? && opts.msgType != Promo && outcome.Answered? && ParseError <= Describe(outcome.response)
      ==> queued.value.parseMode == None
    ensures queued.Some? && !(outcome.Answered? && ParseError <= Describe(outcome.response))
      ==> HeadersFor(queued.value, opts)
    ensures queued.Some? ==> Carries(queued.value.(parseMode := ParseModeFor(opts)), chatId, msgText, opts)
    ensures opts.msgType == Promo ==> queued.Some? && HeadersFor(queued.value, opts)
    ensures opts.msgType == Promo ==> user.promo && user.lastSent == old(user.lastSent)
    ensures opts.msgType != Promo && outcome.Answered? && !(ParseError <= Describe(outcome.response))
      ==> user.lastSent == if outcome.response.ok then Some(now) else old(user.lastSent)
    ensures opts.msgType != Promo && !(outcome.Answered? && !(ParseError <= Describe(outcome.response)))
      ==> user.lastSent == old(user.lastSent) && user.promo == old(user.promo)
    ensures opts.msgType != Promo ==> user.promo == old(user.promo)
  {
    var build := BuildPayload(chatId, msgText, opts);
    if opts.msgType == Promo {
      user.SetPromo(true);
      return Some(build);
    }
    match outcome
    case TransportError =>
      queued := Some(build);
    case Answered(r) =>
      if ParseError <= Describe(r) {
        if build.parseMode.Some? {
          build := build.(parseMode := None);
        }
        queued := Some(build);
      } else {
        var handled := HandleResponse(user, r, opts.msgType, now);
        queued := if handled then None else Some(build);
      }
  }
}
