# Wolfram|Alpha cog: a verified model of its formatting and guards

This project models the deterministic core of the `Wolfram` cog for the Red
Discord bot (`wolfram/wolfram.py`). The cog has three user commands and one
owner command:

- `wolfram` (alias `ask`) asks a question. It reads the `plaintext` texts of
  the XML reply and shows at most three of them, capitalised, one per line.
- `wolframimage` asks for an image answer. A 43-byte body means "no answer".
  Any other body is attached as `wolfram<author id>.png`.
- `wolframsolve` asks for a step-by-step solution. Every pod except
  "Number line" becomes a title line followed by bulleted plaintexts, with
  `" | "` and then `"| "` removed.
- `setwolframapi` (alias `setwolfram`) stores the API key, but only when the
  key is non-empty.

The parsed XML is taken as input. For `wolfram` it is the sequence of
plaintext texts in document order, with `None` for an element without text.
For `wolframsolve` it is a sequence of `Pod(title, texts)`. The network, the
chat framework and the configuration store are outside the model. A command's
decision is a `Commands.Step`: show help, say a message, or fetch one
request.

Modules, one per concern of the source file:

- `Strings` (strings.dfy) holds the Python string builtins the cog uses, with
  Python's semantics: `sep.join`, `s.split(sep)`, `s.replace(old, new)` (all
  non-overlapping occurrences, scanned left to right), `s.capitalize()` on
  ASCII, and `str(n)`.
- `Xml` (xml.dfy) holds the parsed reply: `Pod`, and the truthiness of an
  element's text.
- `Messages` (messages.dfy) holds the fixed reply texts.
- `TextAnswer` (answer.dfy) is the reply of `wolfram`.
  - The loop at wolfram/wolfram.py:40-43 is the method `CollectAnswers`.
  - The whole reply is the method `FormatAnswer`.
  - Both are proved against the functions `Kept` and `Answer`.
- `StepByStep` (solve.dfy) is the reply of `wolframsolve`.
  - The nested loops at wolfram/wolfram.py:100-115 are `FormatSolution` (the
    pod loop) and `AppendBullets` (the plaintext loop of one pod).
  - Both are proved against `Body`, `Bullets` and `Solution`.
- `Commands` (commands.dfy) holds the argument and key guards of each command,
  the URLs, the 43-byte sentinel and the attachment name.
- `Credentials` (credentials.dfy) holds the key store, a class whose `SetKey`
  method updates the stored `Option<string>`, and lemmas about series of
  updates.

Two facts about the text reply of `wolfram` follow from the code:

- The text reply is the fallback both when there is no plaintext node and
  when every node's text is `None` or empty (wolfram/wolfram.py:41-45).
- The reply is also the fallback when the only non-empty text capitalises to
  the fallback sentence itself. `TextAnswer.AnswerIsFallbackIff` states the
  exact condition, and `TextAnswer.FallbackTextCollides` exhibits the input.

## Model

| member | source | states |
|---|---|---|
| `Strings.Capitalize` | wolfram/wolfram.py:43 | `str.capitalize` on ASCII: same length, first character upper-cased, every other character lower-cased |
| `Strings.SplitJoin` | wolfram/wolfram.py:47 | joining with a one-character separator that no part contains is undone by splitting on it |
| `Strings.ReplaceIsJoinOfSplit` | wolfram/wolfram.py:112 | the left-to-right `str.replace` equals `rep.join(s.split(pat))` on every input |
| `Strings.ReplaceAbsent` | wolfram/wolfram.py:112 | replacing a pattern that does not occur leaves the text unchanged |
| `Strings.RemoveShortens` | wolfram/wolfram.py:112 | removing a pattern never lengthens a text |
| `Strings.DecimalRoundTrip` | wolfram/wolfram.py:82 | the decimal rendering of an id reads back as the same id |
| `Messages.FallbackIsOneLine` | wolfram/wolfram.py:45 | the fallback sentence holds no line break |
| `TextAnswer.Kept` | wolfram/wolfram.py:40-43 | every kept text is non-empty and already capitalised, and there are no more kept texts than nodes |
| `TextAnswer.KeptAppend` | wolfram/wolfram.py:41-43 | keeping distributes over concatenation, so document order is preserved |
| `TextAnswer.KeptSingle` | wolfram/wolfram.py:42-43 | one node contributes its capitalised text when present and non-empty, and nothing otherwise |
| `TextAnswer.KeptEmpty` | wolfram/wolfram.py:42-44 | nothing is kept exactly when no node has a non-empty text |
| `TextAnswer.CollectAnswers` | wolfram/wolfram.py:40-43 | the append loop builds exactly the capitalised non-empty texts in document order |
| `TextAnswer.FormatAnswer` | wolfram/wolfram.py:40-47 | the message is the fallback when nothing is kept, else the first min(3, n) kept texts joined by line breaks |
| `TextAnswer.NoAnswerGivesFallback` | wolfram/wolfram.py:44-45 | with no non-empty text the reply is the fallback sentence |
| `TextAnswer.AnswerIsFallbackIff` | wolfram/wolfram.py:44-47 | the reply is the fallback iff nothing is kept or the only kept text is the fallback sentence itself |
| `TextAnswer.FallbackTextCollides` | wolfram/wolfram.py:43-47 | a lone lower-case copy of the fallback sentence yields the fallback reply |
| `TextAnswer.AnswerLines` | wolfram/wolfram.py:46-47 | with single-line texts, the reply's lines are the first min(3, n) kept texts in order |
| `TextAnswer.AtMostThreeLines` | wolfram/wolfram.py:47 | with single-line texts, the reply has at most three lines |
| `StepByStep.BulletsAppend` | wolfram/wolfram.py:110-113 | bullets distribute over concatenation of plaintext lists |
| `StepByStep.BodyAppend` | wolfram/wolfram.py:106-113 | sections distribute over concatenation of pod lists, so document order is kept |
| `StepByStep.NumberLineAddsNothing` | wolfram/wolfram.py:107-108 | a "Number line" pod anywhere in the list adds nothing to the body |
| `StepByStep.NumberLineIgnored` | wolfram/wolfram.py:106-115 | a "Number line" pod anywhere in the list leaves the reply unchanged |
| `StepByStep.SectionShowsTitle` | wolfram/wolfram.py:109-113 | a kept pod's section starts with its title line, and is only that line when no plaintext is non-empty |
| `StepByStep.NoBullets` | wolfram/wolfram.py:111 | plaintexts that are all absent or empty contribute no bullet |
| `StepByStep.BodyEmptyIff` | wolfram/wolfram.py:106-113 | the body is empty iff every pod is titled "Number line" (or there is none) |
| `StepByStep.BodyHasLineBreak` | wolfram/wolfram.py:109 | a kept pod puts a line break into the body |
| `StepByStep.SolutionIsFallbackIff` | wolfram/wolfram.py:114-115 | the reply is the fallback sentence iff every pod is titled "Number line" |
| `StepByStep.StripWithoutPipe` | wolfram/wolfram.py:112 | a text with no pipe character is bulleted unchanged |
| `StepByStep.StripShortens` | wolfram/wolfram.py:112 | stripping the separators never lengthens a text |
| `StepByStep.StripCanLeaveSeparator` | wolfram/wolfram.py:112 | each removal is one left-to-right pass, so a new separator can form: two pipes and two spaces become one pipe and one space |
| `StepByStep.AppendBullets` | wolfram/wolfram.py:110-113 | the inner loop appends exactly the bullets of the pod's non-empty plaintexts, in order |
| `StepByStep.FormatSolution` | wolfram/wolfram.py:100-115 | the accumulated message is the sections of all pods in order, or the fallback when it is empty |
| `Commands.HelpBeforeKey` | wolfram/wolfram.py:54-55 | with no arguments, image and solve show help whatever the stored key |
| `Commands.MissingKeyStops` | wolfram/wolfram.py:27-31 | with no usable key, `wolfram` says the no-key message whatever its arguments, and image and solve do so whenever they have arguments; no request is built |
| `Commands.RequestOnlyWithKey` | wolfram/wolfram.py:90-99 | a request is issued iff a non-empty key is stored (and, for image and solve, there are arguments), and the query carries that key |
| `Commands.AskNeverShowsHelp` | wolfram/wolfram.py:25-35 | `wolfram` has no argument check: with no words it asks about the empty question |
| `Commands.ImageUrlFields` | wolfram/wolfram.py:62-69 | splitting the image URL at "&" gives back key, question + "%3F", width, font size, layout, background, foreground, units, in order |
| `Commands.ImageFixedFields` | wolfram/wolfram.py:62-69 | the fixed image fields read `width=800`, `fontsize=30`, `layout=labelbar`, `background=193555`, `foreground=white`, `units=metric` |
| `Commands.SolveUrlFields` | wolfram/wolfram.py:98-99 | splitting the solve URL at "&" gives back the key, `solve+` and the question, the pod state and the format, in order |
| `Commands.QuestionRecoversArguments` | wolfram/wolfram.py:68 | the "+"-joined question splits back into the arguments when none holds a "+" |
| `Commands.ImageDeliveryCases` | wolfram/wolfram.py:74-82 | a 43-byte body yields the fallback text and no attachment; any other body is attached unchanged under a name that carries the author's id |
| `Commands.AttachmentNameNamesAuthor` | wolfram/wolfram.py:82 | the author's id can be read back out of the attachment name |
| `Commands.AttachmentNamesDistinct` | wolfram/wolfram.py:82 | different authors get differently named attachments |
| `Credentials.KeyStore.constructor` | wolfram/wolfram.py:19-22 | a fresh store holds no key |
| `Credentials.KeyStore.SetKey` | wolfram/wolfram.py:123-125 | a non-empty key overwrites the store and is acknowledged with "Key set."; an empty key changes nothing and sends nothing |
| `Credentials.EmptyKeysKeepStore` | wolfram/wolfram.py:123 | any series of empty keys leaves the store as it was |
| `Credentials.LastNonEmptyKeyWins` | wolfram/wolfram.py:123-124 | after a series of calls the store holds the last non-empty key given |
| `Credentials.KeyNeverReverts` | wolfram/wolfram.py:123-124 | once a usable key is stored, no series of calls makes it unusable again |
| `Credentials.AskUsesSetKey` | wolfram/wolfram.py:27-37 | after a non-empty key is set, `wolfram` issues its request with that key as `appid` |
| `Credentials.SolveUsesSetKey` | wolfram/wolfram.py:92-99 | after a non-empty key is set, `wolframsolve` with arguments issues a URL whose first field is `appid=<key>` |
| `Credentials.ImageUsesSetKey` | wolfram/wolfram.py:56-69 | after a non-empty key is set, `wolframimage` with arguments issues a URL whose first field is `appid=<key>` |

## Left out

- HTTP: creating the aiohttp session, sending the requests, reading the bodies, and closing the session on unload. This is network I/O plus a background task. A `Fetch` step stands for the request, and the body it returns is an input.
- Discord: `ctx.send`, `send_help`, the typing indicator, `discord.File`, and the `try`/`except` that reports "Oops, there was a problem: …" when the attachment fails to send. These are calls into the chat framework.
- XML parsing with `ElementTree`, including the recursive `.//` search and the `KeyError` raised by a pod without a `title`. The parsed texts and pods are inputs, and a pod's title is a required field.
- Red's `Config` persistence and its guild-level registration of the default. The store is one `Option<string>` field.
- `box()` from the framework's chat formatting helpers is not part of this model. The replies are modelled before it wraps them.
- The URL encoding that aiohttp applies to the `wolfram` request's parameters. The request carries the parameters as pairs.
- The unused `PIL.Image` import.
- Strings.Capitalize: models `str.capitalize` on ASCII letters only. Other characters are left unchanged rather than case-mapped by Unicode rules.
- TextAnswer.AnswerLines: stated for kept texts without line breaks, because a multi-line plaintext adds lines of its own. `TextAnswer.FormatAnswer` states the reply for every input.
- TextAnswer.AtMostThreeLines: stated for kept texts without line breaks, for the same reason.
- Commands.ImageUrlFields: stated for a key and arguments without "&". An "&" inside either would split a field in two.
- Commands.SolveUrlFields: stated for a key and arguments without "&", for the same reason.
- Credentials.SolveUsesSetKey: stated for a key and arguments without "&", for the same reason.
- Credentials.ImageUsesSetKey: stated for a key and arguments without "&", for the same reason.
- Commands.QuestionRecoversArguments: stated for arguments without "+", since a "+" inside an argument is indistinguishable from the joining "+".
- StepByStep.AppendBullets: the source runs the plaintext loop inline in the pod loop. The model gives that inner loop a method of its own, called from `FormatSolution`.
