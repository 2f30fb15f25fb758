# constitution-bot core in Dafny

This project models the core of `constitutionbot.py`, a Telegram bot that looks up passages of the United States Constitution and the Bill of Rights on wikisource.org. It covers:

- the text helpers: Markdown escaping, the roman-numeral converter, and the string part of a passage lookup;
- the per-chat record and its update methods;
- the outbound side: keyboards, the request record of one message, splitting a long text into chunks, and reading the chat service's answer;
- the dispatch of one incoming message in `MainPage.post`.

The modules follow that structure:

- `PyStr` (`pystr.dfy`) holds the Python string built-ins the code relies on, written out over `seq<char>`: `strip`, `split`, `lower`/`upper` on ASCII letters, `find`, slicing with clamped bounds, `*` and single-character `replace`. `strip`, `split`, `''.join(s.split())`, `find` and `replace` have lemmas stating what they compute; `lower`/`upper`, slicing, `*` and `in` are plain definitions.
- `Text` (`text.dfy`) covers:
  - `strip_markdown`, with an independent reference definition (`EscapeEach`) and an inverse (`Unescape`);
  - `arabic_to_roman` as a loop, proved against a closed form (`RomanNumeral`). The closed form is shown injective through an independent reader (`RomanValue`);
  - `get_passage` up to the markup processing: the page URL, the fetch error, the marker slice, the anchor id and the bold header.
- `Session` (`session.dfy`) holds the `User` class, with the fields its methods update in place, and `get_user` and `update_profile`.
- `Delivery` (`delivery.dfy`) covers:
  - `build_buttons`, `build_keyboard` and `build_inline_switch_keyboard`;
  - the `build` record of `send_short_message`;
  - the chunks of `send_message`;
  - `handle_response`, and what becomes of one posted message.
- `Dispatch` (`dispatch.dfy`) covers:
  - the command tests and the parsing of `/get` arguments;
  - the conversation step as a function (`Transition`) and as methods on the record (`Post`, `HandleMessage`);
  - properties of the pending reply (`reply_to`);
  - the `send_message` call each step makes.

Where the model departs from the code, and what the code does as written:

- **Message text is a string.** The program encodes every non-empty incoming text to bytes (line 600). As written, a text message then never equals `'/start'` (line 624), and it raises `TypeError` before any answer: at line 679 (`''.join` over a list of bytes) when the text has a non-blank character, or at line 666 (`bytes.startswith` with a `str`) when it is all blanks. Only the empty text stays a `str`. The model reads every text as a string, as the rest of `post` evidently expects.
- **Every record is fresh.** `get_user` has its datastore lookup commented out, so it always returns a fresh `User('-', '-')`. `update_profile` then overwrites that record's names. As a result every message is handled from a record whose `reply_to` is `''` and whose `last_sent` is set. `HandleMessage` models that path, and `FreshRecordNeverAnswersPrompt` states the consequence: a prompt is never answered from a pending reply. `Post` models the same branches on an arbitrary record, as the datastore would give it.
- **Group tests are an input flag instead of the raising call.** `User.is_group` applies `int()` to a random UUID, so it raises. The model uses the chat type as the group test.
- **Logging has no effect.** As written, every log call that uses `get_description` raises, because it calls `is_group`. The model takes these calls to have no effect.
- **Only the code's numerals exist.** The roman table holds only V, IV and I, so 9 becomes `VIV` and 0 the empty numeral.

## Model

| member | source | states |
|---|---|---|
| PyStr.LStripSpec | constitutionbot.py:699 | `str.strip` (left half): removes exactly a leading run of whitespace; what is kept starts with a non-blank character |
| PyStr.RStripSpec | constitutionbot.py:699 | `str.strip` (right half): removes exactly a trailing run of whitespace; what is kept ends with a non-blank character |
| PyStr.StripSpec | constitutionbot.py:419 | `text.strip() == ''` holds exactly when the text is all whitespace; a non-empty strip has non-blank ends |
| PyStr.StripUnchanged | constitutionbot.py:51 | a string with non-blank ends is its own strip |
| PyStr.LeadingWordSpec | constitutionbot.py:697 | the first word is a blank-free prefix, followed by whitespace or the end of the text |
| PyStr.SplitSpec | constitutionbot.py:696-697 | `text.split()` is empty exactly for an all-whitespace text; for a text starting with a non-blank character (as a stripped text does), its first element is the leading word |
| PyStr.ConcatSplit | constitutionbot.py:679 | `''.join(s.split())` is `s` with every whitespace character removed |
| PyStr.RemoveSpaceOfStrip | constitutionbot.py:678-679 | stripping before removing all whitespace changes nothing |
| PyStr.RemoveBlanksBetween | constitutionbot.py:679 | removing the whitespace of two blank-free words with blanks between them joins the words |
| PyStr.FindSpec | constitutionbot.py:40-43 | `find` returns the first occurrence at or after `start`, or -1 exactly when there is none |
| PyStr.FindFirst | constitutionbot.py:40 | the first occurrence after `start` is what `find` reports |
| PyStr.ReplaceCharPointwise | constitutionbot.py:369 | `replace('\a', ' ')` keeps the length and changes exactly the bell characters |
| PyStr.ReplaceCharAppend | constitutionbot.py:369 | `replace` distributes over concatenation |
| Text.StripMarkdown | constitutionbot.py:22-23 | no contract of its own: the four chained `replace` calls; what they do is stated by the lemmas below |
| Text.StripMarkdownIsEscapeEach | constitutionbot.py:22-23 | the four chained replaces equal escaping each special character once, from left to right |
| Text.StripMarkdownSpec | constitutionbot.py:22-23 | every `*`, `_`, `` ` `` and `[` gets a preceding backslash; the length grows by their count; unescaping gives the input back; text without them is unchanged |
| Text.StripMarkdownIdempotentIff | constitutionbot.py:22-23 | escaping twice equals escaping once exactly when the text has no special character |
| Text.RomanNumeral | constitutionbot.py:111-125 | no contract of its own: the greedy result in closed form (`n // 5` V's, then IV when `n % 5 == 4`, then the remaining I's); `ArabicToRoman` is proved equal to it |
| Text.ArabicToRoman | constitutionbot.py:111-125 | the greedy walk over the table, stopping once nothing is left, returns `RomanNumeral(numeral)` |
| Text.GreedyAdvance | constitutionbot.py:118-123 | one pass appends `letters * x` and leaves `num - r*x`, which is never negative; at zero nothing more would be appended |
| Text.RomanNumeralLetters | constitutionbot.py:112-115 | a numeral uses only the letters V and I |
| Text.ArticleNumerals | constitutionbot.py:111-125 | 0..7 give "", I, II, III, IV, V, VI, VII, and 9 gives VIV |
| Text.RomanRoundTrip | constitutionbot.py:111-125 | reading the numeral back (V = 5, I = 1 or -1 before V) gives the number, for every n >= 0 |
| Text.RomanNumeralInjective | constitutionbot.py:49 | distinct article numbers give distinct anchor ids |
| Text.MarkerSlice | constitutionbot.py:39-44 | no contract of its own: `html[start:end - 1]` from the first marker to the first table after it, or EMPTY; stated by the three lemmas below |
| Text.MarkerSliceEmptyIff | constitutionbot.py:40-42 | the lookup is EMPTY exactly when the page has no passage marker |
| Text.MarkerSliceBeforeTable | constitutionbot.py:40-44 | with a table after the marker, the fragment runs from the marker to one character before the table, and contains no table |
| Text.MarkerSliceWithoutTable | constitutionbot.py:43-44 | without a table, `end` is -1 and the fragment drops the page's last two characters |
| Text.AnchorId | constitutionbot.py:49 | no contract of its own: `'a' + arabic_to_roman(int(passage[0]))`, or the exception for an empty or non-digit start; stated by `AnchorAndHeader` |
| Text.Header | constitutionbot.py:51-52 | no contract of its own: the bold, escaped, stripped title; stated by `HeaderOfEmptyNumeral` and `HeaderOfNumeral` |
| Text.HeaderOfEmptyNumeral | constitutionbot.py:51-52 | for article 0 the title's trailing blank is stripped and the header is `*Article*` |
| Text.HeaderOfNumeral | constitutionbot.py:51-52 | for a non-empty numeral the header is `*Article <numeral>*`, with nothing stripped or escaped |
| Text.AnchorAndHeader | constitutionbot.py:49-52 | a passage starting with digit d gets anchor `a` + numeral(d) and the matching header |
| Text.GetPassage | constitutionbot.py:26-52 | no contract of its own: the URL choice, the fetch error, EMPTY, the exception and the extracted fragment in the source's order; stated by the two lemmas below |
| Text.GetPassageOutcomes | constitutionbot.py:26-52 | a fetched page gives: EMPTY exactly without a marker; an exception exactly when the marker is there and the passage does not start with a digit; otherwise the article's anchor and header |
| Text.AmendmentOnlyChoosesPage | constitutionbot.py:27-29 | the amendment flag only chooses the Bill of Rights page; on the same page both lookups answer alike |
| Session.Clip | constitutionbot.py:296-299 | a pending command is kept as a prefix of at most 1500 characters; None stays None |
| Session.ClipIdempotent | constitutionbot.py:296-299 | a clipped command is within bound, and clipping again changes nothing |
| Session.User.constructor | constitutionbot.py:251-260 | the names as given, every timestamp now, `reply_to` empty, promo off |
| Session.User.SetPromo | constitutionbot.py:284-286 | sets the promo flag and nothing else |
| Session.User.UpdateLastReceived | constitutionbot.py:288-290 | sets the last-received time and nothing else |
| Session.User.UpdateLastSent | constitutionbot.py:292-294 | sets the last-sent time and nothing else |
| Session.User.AwaitReply | constitutionbot.py:296-300 | the pending reply becomes the clipped command and stays within bound |
| Session.GetUser | constitutionbot.py:311-317 | always a fresh record named ('-', '-', '') with nothing pending |
| Session.UpdateProfile | constitutionbot.py:326-338 | the fresh record with the given names and last-received time; nothing pending, promo off |
| Delivery.BuildButtons | constitutionbot.py:341-345 | one single-button row per menu item, in order; the rows read back give the menu |
| Delivery.BuildKeyboard | constitutionbot.py:348-349 | a one-time reply keyboard with the rows as given |
| Delivery.InlineSwitchKeyboard | constitutionbot.py:352-354 | one row with one button carrying the text and the inline query |
| Delivery.BuildPayload | constitutionbot.py:367-383 | bells blanked and nothing else changed in the text; force reply over custom keyboard over keyboard removal; Markdown exactly for Markdown text, passages and results; the preview flag as given |
| Delivery.BuiltRecordUnique | constitutionbot.py:367-383 | the chat, the text and the options determine the record completely |
| Delivery.Wrap | constitutionbot.py:423 | no contract of its own: consecutive 4096-character pieces; stated by `WrapSpec` |
| Delivery.Chunks | constitutionbot.py:422-429 | no contract of its own: the text alone when it fits, its wrap otherwise; stated by `ChunksSpec` |
| Delivery.WrapSpec | constitutionbot.py:423 | the pieces concatenate to the text, each has 1..4096 characters, and a longer text gives at least two |
| Delivery.ChunksSpec | constitutionbot.py:422-429 | the chunks concatenate to the text, each has at most 4096 characters, and there are two or more exactly when the text is longer than 4096 |
| Delivery.SendMessage | constitutionbot.py:357-429 | nothing for an all-blank text; otherwise one record per chunk, each with the same headers; their texts concatenate to the whole text with bells blanked |
| Delivery.BuildEach | constitutionbot.py:422-429 | one record per chunk, in order, each carrying the chat, its chunk with bells blanked and the headers; their texts read one after another are the chunks joined, with bells blanked |
| Delivery.Classify | constitutionbot.py:433-461 | no contract of its own: ok, then the parse-error prefix, then membership in the recognized errors, then the migration error, in the source's order |
| Delivery.Handled | constitutionbot.py:432-466 | no contract of its own: the value `handle_response` returns; stated by `HandledFalseIff` and `HandleResponse` |
| Delivery.HandledFalseIff | constitutionbot.py:432-466 | `handle_response` returns False exactly for a not-ok answer whose description neither starts with the parse error nor is a recognized error |
| Delivery.HandleResponse | constitutionbot.py:432-466 | an ok answer updates the last-sent time; a migrated promo with no new chat id clears the promo flag; the result is `Handled(r)` |
| Delivery.SendShortMessage | constitutionbot.py:366-417 | a promo is always queued, with the headers of its options, and sets the flag; a transport error queues; a parse error re-queues without the parse mode; otherwise it queues exactly when `handle_response` returns False; whatever is queued is the built record (chat, text with bells blanked, markup, preview flag) with at most its parse mode removed; the promo flag changes only for a promo |
| Dispatch.IsGetCommand | constitutionbot.py:665-666 | no contract of its own: the lower-case text starts with "/get"; stated by `GetCommandShape` and `GetCommandWord` |
| Dispatch.IsCommand | constitutionbot.py:677-683 | no contract of its own: the three tests of `is_command`; stated by `IsCommandSpec` |
| Dispatch.IsCommandSpec | constitutionbot.py:677-683 | `is_command(word)` holds exactly when the stripped lower-case text is "/word", or the lower-case text with all whitespace removed starts with "/word@usconstitutionbot" or "@usconstitutionbot/word" |
| Dispatch.BlanksBeforeHandle | constitutionbot.py:677-683 | "/word", any run of blanks, then the bot's handle is the bare command |
| Dispatch.GetAmdIsNotBareGet | constitutionbot.py:685-694 | "/getAmd 1" is not the bare /get command but a /get command with arguments |
| Dispatch.GetCommandShape | constitutionbot.py:665-666 | a /get command starts with four non-blank characters whose lower case is "/get" |
| Dispatch.GetCommandWord | constitutionbot.py:696-697 | the first word of a /get command has at least four characters, and characters 1..3 lower-case to "get" |
| Dispatch.ParseGetArguments | constitutionbot.py:694-711 | a /get command always prompts or looks up; a lookup clears the pending reply and is not an answer to a prompt |
| Dispatch.ArgumentsStep | constitutionbot.py:699-711 | the same two outcomes, for the command word and the text after it |
| Dispatch.GetArgumentsSpec | constitutionbot.py:694-711 | for a command word, a blank and arguments: a prompt exactly when the arguments are blank, awaiting the command word without its slash; an amendment lookup exactly when the first argument word upper-cases to "AMD"; the lookup is of the whole stripped arguments when they are one word or the command word is longer than "/get" |
| Dispatch.GetArgumentsDrop | constitutionbot.py:704-711 | when the stripped arguments are a word, a blank and more: "/get" in any case mix drops that first word exactly when more than blanks follow; every other command word looks up the whole stripped arguments |
| Dispatch.GetWithoutArguments | constitutionbot.py:694-703 | a command word alone prompts, awaiting the word without its slash |
| Dispatch.GetAmendmentArgument | constitutionbot.py:694-711 | "/get amd 1" looks up amendment 1 |
| Dispatch.GetAmdLooksUpArticle | constitutionbot.py:694-711 | "/getAmd 1" looks up article 1, because only the first passage word decides an amendment |
| Dispatch.Transition | constitutionbot.py:624-885 | no contract of its own: the branch order of `MainPage.post` (greeting, non-text, bare /get, /get with arguments, /help, pending reply, group silence, unrecognized) and the pending reply each leaves; stated by `Post` and the lemmas below |
| Dispatch.GetWithArguments | constitutionbot.py:694-711 | on the record: the pending reply and the action are those `ParseGetArguments` gives, and the record stays valid (pending reply within bound) |
| Dispatch.LookupArguments | constitutionbot.py:704-711 | for non-blank arguments, the lookup `ArgumentsStep` gives, with the reply left to the caller |
| Dispatch.Post | constitutionbot.py:624-885 | on the record: the pending reply and the action after a message are those `Transition` gives for the record's state before it; a valid record stays valid |
| Dispatch.HandleMessage | constitutionbot.py:596-608 | the record from `update_profile` (with the group's title in a group) takes the step from an empty pending reply |
| Dispatch.ReplyToStaysBounded | constitutionbot.py:686-701 | the pending reply never exceeds 1500 characters |
| Dispatch.PromptAwaitsGet | constitutionbot.py:685-703 | after a prompt, the pending reply is a command word whose first three letters are "get" in some case mix |
| Dispatch.OnlyPromptLeavesPending | constitutionbot.py:624-885 | greeting, lookup, help and unrecognized steps clear the pending reply; an ignored message keeps or clears it |
| Dispatch.CommandsPreemptPendingReply | constitutionbot.py:685-778 | /get and /help are answered the same whatever is pending |
| Dispatch.PromptThenPassage | constitutionbot.py:843-848 | after a prompt whose word starts with lower-case "get", a plain message is looked up (as an amendment exactly when the word's tail is "amd" in any case), and the pending reply is cleared |
| Dispatch.PendingReplyConsumed | constitutionbot.py:843-848 | any pending reply starting with lower-case "get", however it was stored, is consumed by the next plain message: the stripped message is looked up (as an amendment exactly when the rest of the reply upper-cases to "AMD") and the reply is cleared |
| Dispatch.UnconsumedPendingReply | constitutionbot.py:843-865 | a pending reply not starting with lower-case "get" is never consumed: the next plain message is unrecognized or ignored |
| Dispatch.IgnoredExactlyInGroups | constitutionbot.py:859-885 | with nothing usable pending, a plain message is ignored exactly in a group when it neither names the bot nor replies to it; otherwise it is unrecognized |
| Dispatch.FreshRecordNeverAnswersPrompt | constitutionbot.py:311-317 | starting from the fresh record's empty pending reply, no lookup is ever the answer to a prompt |
| Dispatch.Answer | constitutionbot.py:643-885 | no contract of its own: the `send_message` call of each branch (template, message type, keyboard options), and for a lookup the answer `get_passage` leads to; stated by `AnswerHeaders` and `LookupAnswers` |
| Dispatch.AnswerHeaders | constitutionbot.py:643-885 | a prompt forces a reply; welcome, help and unrecognized carry the inline-mode keyboard without Markdown; passages go out as Markdown; a lookup removes the keyboard exactly when it answers a prompt; link previews are always off |
| Dispatch.LookupAnswers | constitutionbot.py:710-720 | a lookup sends nothing exactly when the page has the marker but the passage does not start with a digit; it sends the no-results text exactly when the marker is missing |

## Left out

- `app.py` is not part of this model. Neither are the HTTP server, the `requests` calls (`telegram_post`, `telegram_query`, `send_typing`, the self-post that queues a message), or JSON encoding. The page download is the parameter `fetch`. The outcome of a post is the parameter `outcome`.
- Clocks and the record's uuid: timestamps are plain numbers handed in, and the uuid is not kept.
- BuildPayload, SendMessage, SendShortMessage: `chat_id` is a free parameter. As written it is `str(user.get_uid())` (lines 252, 263, 360), a fresh random uuid4 and never the chat's id, so no message reaches the chat it answers.
- The `REMOTE_ERROR` answers (lines 716-718 and 853-855) are dead code, because `get_passage` never returns `None`. A failed fetch sends the error text as a passage, which is what `Answer` does.
- `User.is_group`, `get_uid`, `get_name_string` and `get_description` are not modelled. The group test is the message's chat type, and the name formatting of the templates is not modelled.
- Logging and the commented-out code are not modelled.
- `User.migrate_to`, the migration on a non-text message (lines 655-662) and `user.delete()` (line 459) are not modelled. They build a record that is never stored or call a method `User` does not have.
- HandleResponse: on a migration with a new chat id, the flag of the migrated copy is not modelled. The copy is discarded.
- The inline-query path of `post` (lines 536-581) and the `chosen_inline_result` branch are not modelled.
- `MessagePage`, `PromoPage`, `VerifyPage` and `MigratePage` are not modelled.
- The BeautifulSoup processing of the fragment (lines 46, 55-98) and the passage text it produces are not modelled. `GetPassage` ends with the fragment, the anchor id and the header the processing starts from.
- Only `requests.HTTPError` becomes the fetch error. Other exceptions of the download are not modelled.
- AnchorId: only the ASCII digits 0-9 count as digits. Python's `int()` also accepts other Unicode decimal digits.
- Lower, Upper: case mapping covers the ASCII letters only, and it keeps the length. Python's `upper()` can lengthen a word ('ß' becomes 'SS'), and lines 705-708 slice the passage by the length of the upper-cased word. So for "/get ß 1" the source keeps the passage "ß 1" and then raises at `int('ß')`, while the model looks up article 1.
- Lengths count characters (code points), as Python's `len` does on `str`.
- Wrap: `textwrap.wrap` with `drop_whitespace=False` may break earlier, at whitespace or after a hyphen (`break_on_hyphens` is on by default). The model cuts at fixed 4096-character boundaries. It keeps what the source relies on: the chunks concatenate to the text and each fits in one message. Tab expansion is not modelled.
- SendMessage returns the records of all chunks. The posting and queueing of each record is `SendShortMessage`, which models one chunk.
- RecognizedErrors: the list is copied as is; no property of the list itself is stated.
- Answer: an exception raised while reading the passage (`int()` on a non-digit, or indexing an empty passage) ends the request with no reply. This is modelled as `Raised`, and nothing is sent.
