# MikroTik WhatsApp bot: a Dafny model of the message handler

`bot.js` is a WhatsApp bot that drives a MikroTik router through the RouterOS
REST API. The bot's core is sequential and deterministic, and this project
models it:

- **The connection record.** `mikrotikConfig` is modelled as `Device.Session`. Requests are
  built from it as in `mikrotikRequest`: base address + endpoint, with the stored
  credentials.
- **The pure formatters.** `formatUptime` is the global rewrite
  `/(\d+)([hms])/g -> '$1 $2'`. `toMiB` and `toGiB` divide by 2^20 or 2^30 and then call
  `toFixed(1)`.
- **Command recognition.** The whole message is lower-cased and then matched
  against eleven independent `if` guards. These are exact keywords and
  space-terminated prefixes. Arguments come from `split(' ')`.
- **The handler.** One step goes from a session, a command and the device's
  answers to the new session, the messages sent and the requests issued. The
  handler as written (every guard evaluated in source order) is proved to do exactly
  what that one step does. A conversation is a sequence of such steps.

The device is a parameter: a function from a request to `Some(json)` or `None`.
`None` stands for the helper's `null` or a thrown axios error. Messages are
modelled as kinds (`Replies.Reply`), and `Replies.Render` gives each kind its
exact text. Lemmas about what a command sends are stated on kinds. Lemmas about
texts are stated on the text functions.

Modules follow the structure of the program:

- `Wrappers`: `Option`.
- `Text`: ASCII `toLowerCase`, `split(' ')`, `includes`, and the decimal rendering of
  numbers.
- `Format`: the formatters.
- `Device`: the session, the requests, JSON and the oracle.
- `Commands`: the guards and classification.
- `Replies`: the texts, `forEach` numbering and `filter`.
- `Dispatch`: the step and the handler as written.
- `Behaviour`: per-command properties.
- `Conversation`: runs of messages.

Behaviour of the code that the model keeps on purpose:

- The whole message is lower-cased before it is split, so the stored address,
  user name, password and interface name are all lower-case.
- `/connect` accepts any number of arguments. Missing ones are `undefined`, and
  the session is marked connected in every case.
- `"4w3d"` is left unchanged, because only `h`, `m` and `s` are units
  (bot.js:47).
- The empty search token (`"/hotspot_find "` with nothing after it) is contained
  in every name, so every user is listed (when every user has a `name`).

## Model

| member | source | states |
|---|---|---|
| Text.Lower | bot.js:72 | `toLowerCase` keeps the length, maps every A-Z letter 32 code points up, keeps every other character in place, and leaves no upper-case letter |
| Text.LowerIdempotent | bot.js:202 | the second `toLowerCase` that `/hotspot_find` applies to its already lower-cased token changes nothing |
| Text.Split | bot.js:93 | the tokens of `split(' ')` contain no space and, joined with single spaces, give back the text (so doubled spaces give empty tokens) |
| Text.SplitJoin | bot.js:93 | round trip: splitting text joined from space-free tokens returns exactly those tokens |
| Text.SplitHasSecondToken | bot.js:161 | a text containing a space has a token 1, so the argument of a space-terminated prefix always exists |
| Text.Token | bot.js:93 | array destructuring gives the token when the index is in range and `undefined` exactly when it is past the end |
| Text.IncludesIffSubstring | bot.js:210-211 | `includes` holds exactly when the needle occurs at some index of the text; in particular the empty needle is found everywhere |
| Text.NatToDecimal | bot.js:151 | numbers are rendered as canonical decimal digits (no leading zero) that denote the number; one digit exactly below 10 |
| Text.DecimalCanonical | bot.js:133-134 | round trip: canonical digits parse to a number that renders back to the same digits |
| Format.FormatUptime | bot.js:46-48 | the rewrite adds exactly one character per digit-unit boundary of the input and keeps the last character |
| Format.FormatUptimeNoBoundary | bot.js:47 | after the rewrite no digit is directly followed by `h`, `m` or `s` |
| Format.ReplaceDigitUnit | bot.js:47 | the regular-expression scan (greedy `\d+` then a unit, resuming after each match, else advancing one character) computes the position-wise rewrite |
| Format.MatchAt | bot.js:47 | one match attempt advances the scan, never stops it on a boundary, and emits exactly what the rewrite adds for the characters it consumes |
| Format.DigitRun | bot.js:47 | greedy `\d+` ends at the first non-digit, and the digits it spans are copied unchanged |
| Format.FormatUptimeIdempotent | bot.js:46-48 | formatting formatted uptime changes nothing |
| Format.FormatUptimeUnchangedIff | bot.js:47 | the rewrite is the identity exactly on text without a digit directly followed by a unit letter |
| Format.FormatUptimeOnlyAddsSpaces | bot.js:47 | with spaces removed, input and output are equal: only spaces are inserted and every other character keeps its order |
| Format.FormatUptimeWeeksDays | bot.js:47 | `"4w3d"` is returned unchanged |
| Format.FormatUptimeHoursMinutesSeconds | bot.js:47 | `"1h2m3s"` becomes `"1 h2 m3 s"` |
| Format.RoundTenthsIsNearest | bot.js:52 | half-up integer rounding of ten times the quotient is the `toFixed(1)` choice: nearest tenth, the larger one on a tie |
| Format.NearestTenthUnique | bot.js:52 | the `toFixed(1)` choice is unique |
| Format.ToFixed1 | bot.js:52 | the text has the shape `<digits>.<digit>`, a canonical integer part, and denotes the given number of tenths |
| Format.ToMiB | bot.js:51-53 | `toMiB(b)` is `<digits>.<digit>` denoting the tenth nearest to `b / 2^20`, ties rounded up |
| Format.ToGiB | bot.js:55-57 | `toGiB(b)` is `<digits>.<digit>` denoting the tenth nearest to `b / 2^30`, ties rounded up |
| Format.ToMiBMonotone | bot.js:51-53 | more bytes never show as fewer MiB |
| Format.ToGiBMonotone | bot.js:55-57 | more bytes never show as fewer GiB |
| Format.ByteFormatExamples | bot.js:51-57 | `toMiB(1048576) = "1.0"`, `toMiB(0) = "0.0"`, `toMiB(262144) = "0.3"` (a tie), `toGiB(1610612736) = "1.5"`, `toGiB(12884901888) = "12.0"` |
| Device.RequestFor | bot.js:26-43 | the request URL starts with the stored base address and continues with the endpoint; the credentials are the stored ones; the method and the `disabled` body are the ones passed in |
| Device.Show | bot.js:151 | a template literal shows a present field as it is and a missing one as `undefined` |
| Device.LengthText | bot.js:191-193 | `.length` of an array is the canonical decimal of its element count |
| Commands.GuardIsRecognized | bot.js:75-260 | whenever a guard accepts the lower-cased text, it is the first guard in source order that does |
| Commands.RecognizeIffGuard | bot.js:75-260 | a guard accepts the text exactly when recognition returns that guard's block |
| Commands.AtMostOneBranch | bot.js:75-260 | no text is accepted by two guards, so at most one block runs per message |
| Commands.FirstArgument | bot.js:161 | the argument after a space-terminated prefix is token 1 of `split(' ')` |
| Commands.Classify | bot.js:72-260 | a message is `Unknown` exactly when no guard accepts its lower-cased text; otherwise the command comes from the one accepting guard |
| Commands.ConnectArguments | bot.js:92-98 | `/connect` takes tokens 1, 2 and 3 of the lower-cased text (`undefined` when absent), and none of them has an upper-case letter |
| Commands.KeywordsIgnoreCase | bot.js:72-75 | `"MENU"` is the menu command and `"/Status"` the status command |
| Commands.BareConnectUnmatched | bot.js:92 | `"/connect"` without the trailing space matches no guard |
| Commands.ChatTextUnmatched | bot.js:72-271 | ordinary text such as `"hello"` matches no guard |
| Commands.ClassifyConnect | bot.js:92-93 | a text accepted by the `/connect ` guard is the connect command built from its tokens |
| Commands.ConnectExample | bot.js:92-98 | `"/connect http://r1 Admin Pw"` stores `http://r1`, `admin`, `pw` |
| Commands.ConnectMissingArguments | bot.js:93 | `"/connect x"` stores `x` with user name and password `undefined` |
| Replies.EnumerateSnoc | bot.js:149-152 | appending an element appends its line, numbered after all earlier ones |
| Replies.EnumerateAt | bot.js:149-152 | entry `i` appears between the entries before and after it with the number `first + i` |
| Replies.ForEachAppend | bot.js:149-152 | the `forEach` loop with `index + 1` appends exactly the 1-based enumeration of the list |
| Replies.Filter | bot.js:264 | `filter` keeps at most the input's elements, exactly those satisfying the predicate |
| Replies.FilterAppend | bot.js:264 | filtering a concatenation filters each part, so kept elements stay in input order |
| Replies.Glyph | bot.js:150 | the status glyph is the check mark exactly when `running` is the string `"true"`, otherwise the cross |
| Replies.InterfaceListRendering | bot.js:148-153 | the interface list is the header, then entry `i` as line number `i + 1` between the lines before and after it |
| Replies.InterfaceListEmpty | bot.js:148-153 | no interfaces give the header alone |
| Replies.NetwatchIgnoresUp | bot.js:263-266 | the netwatch list equals the list of its down entries alone |
| Replies.NetwatchNumbering | bot.js:263-266 | entries are numbered after filtering: the `k`-th down entry is line `k + 1`, whatever up entries precede it |
| Replies.NetwatchNoneDown | bot.js:263-267 | with no entry down, the netwatch message is the header alone |
| Replies.TotalHotspotExample | bot.js:190-193 | three users, one active session and five hosts give `"Total User\nUser Hotspot: 3\nUser Hotspot Aktif: 1\nHost: 5"` |
| Replies.PppoeCountOfObject | bot.js:252 | a plain-object body without a `length` field is counted as `undefined` |
| Replies.FoundExample | bot.js:214-235 | one matching user and no matching session: the user's detail block, then the single "no active user" line |
| Replies.BytesEdgeCases | bot.js:133-134 | a missing byte count shows as `NaN`; an empty one is converted as 0 |
| Replies.ResourceNeedsUptime | bot.js:128-140 | building the resource message throws (and the failure text is sent) exactly when the body is an array or has no `uptime` |
| Replies.BytesOfDecimal | bot.js:133-134 | a byte count spelled as the decimal digits of `n` is converted from `n` |
| Dispatch.Step | bot.js:75-271 | only `/connect` changes the session and it always sets `connected`; at most one message; every request goes to the stored base address with the stored credentials; unknown text does nothing |
| Dispatch.RunBlocksOneFires | bot.js:75-271 | when exactly one block's guard holds, running all blocks in order is running that block alone |
| Dispatch.HandleAsWrittenIsStep | bot.js:70-272 | the handler with its eleven independent `if` blocks does exactly one step on the classified command |
| Behaviour.UnknownIsSilent | bot.js:72-271 | text no guard accepts gets no reply, issues no request and leaves the session unchanged |
| Behaviour.MenuOnRequest | bot.js:75-89 | `menu` or `/help` in any case sends the menu text and nothing else |
| Behaviour.ConnectStores | bot.js:92-102 | `/connect` stores its three arguments, marks the session connected without contacting the device, and sends the "saved" text |
| Behaviour.StatusDependsOnlyOnFlag | bot.js:105-110 | the `/status` reply depends only on `connected`, issues no request, and is the connected or the not-connected text |
| Behaviour.ResourceNeedsConnection | bot.js:113-117 | `/resource` while disconnected sends the not-connected text and issues no request |
| Behaviour.ResourceWhenConnected | bot.js:119-141 | `/resource` while connected issues one GET of `/system/resource` and reports its answer, or the failure text |
| Behaviour.TotalHotspotAllOrNothing | bot.js:184-197 | three GETs in order (user, active, host); the failure text exactly when one of them fails, otherwise the totals of the three answers |
| Behaviour.HotspotFindNeedsBoth | bot.js:205-243 | two GETs in order; the failure text exactly when either fails |
| Behaviour.HotspotFindMatches | bot.js:209-240 | "not found" exactly when no user name contains the token; otherwise exactly the matching users and matching sessions, each in list order |
| Behaviour.HotspotFindMissingField | bot.js:210-211 | a user without `name` or a session without `user` makes the search throw, so nothing is sent |
| Behaviour.EmptyTokenMatchesEveryone | bot.js:210 | the empty token selects every user |
| Commands.FindTokenExample | bot.js:200-201 | the message `/hotspot_find Bob` is the find command with the lower-cased token `bob` |
| Behaviour.HotspotFindStep | bot.js:201-237 | `/hotspot_find bob` against the user `bobby` and no active session finds that user and no session |
| Behaviour.HotspotFindExample | bot.js:200-237 | the handler, given the message `/hotspot_find Bob`, the user `bobby` and no active session, finds that user and no session |
| Behaviour.InterfaceListReply | bot.js:145-157 | one GET of `/interface`; an array is listed, a failure gets the failure text, and a plain object makes `forEach` throw so nothing is sent |
| Behaviour.NetwatchReply | bot.js:260-271 | one GET of `/tool/netwatch` with the same three outcomes |
| Behaviour.InterfaceToggle | bot.js:160-181 | disable or enable sends one PATCH of `/interface/<name>` with `disabled` `"true"` or `"false"` and reports success exactly when the device answered |
| Commands.DisableTokenExample | bot.js:160-161 | the message `/interface_disable Eth` is the disable command for the lower-cased name `eth` |
| Behaviour.InterfaceDisableExample | bot.js:160-169 | the handler, given the message `/interface_disable Eth`, sends one PATCH of `/interface/eth` with `disabled` "true" and reports success exactly when the device answered |
| Behaviour.TotalPppoeReply | bot.js:248-257 | one GET of `/interface/pppoe-server/active`; the count of the answer, or the failure text |
| Conversation.RunStaysConnected | bot.js:13-18 | once connected, no sequence of messages disconnects the session |
| Conversation.RunWithoutConnect | bot.js:13-18 | without a `/connect` message the session never changes |
| Conversation.LastConnectWins | bot.js:96-99 | after a run, the session holds exactly the arguments of the last `/connect` |
| Conversation.ConnectedAfterConnect | bot.js:99 | a `/connect` anywhere in a run leaves the session connected |
| Conversation.StatusReply | bot.js:105-110 | `/status` and `/STATUS` report the connected flag and do nothing else |
| Conversation.StatusBeforeConnect | bot.js:105-110 | from a disconnected session, `/status` still reports "not connected" after any messages without `/connect` |
| Conversation.StatusFromStartUp | bot.js:13-18 | from the start-up state, `/status` reports "not connected" until the first `/connect` |
| Conversation.StatusAfterConnect | bot.js:105-110 | after any `/connect`, `/status` reports "connected", whether or not the stored address works |

## Left out

- The WhatsApp client is external transport and is not modelled: setup, QR display, the `ready` event and `initialize` (bot.js:1-11, 59-67, 275). The chat id is not modelled either, because every reply goes back to the sender.
- axios, the HTTPS agent that skips certificate checks, TLS, Basic-auth encoding and `console.error` logging are network I/O and are not modelled. The device is an oracle parameter, and only the URL, credentials, method and `disabled` body are kept.
- Asynchronous interleaving is not modelled. Messages are handled one at a time, and a handler never observes another handler's change made across an `await`.
- The device oracle is stateless within one message: the same request gets the same answer. A PATCH's effect on later answers appears only through the next message's oracle.
- `toLowerCase` is modelled for ASCII `A`-`Z` only. Other Unicode case mappings are left out.
- JSON decoding and values other than objects are left out. A body is one record of string fields or an array of such records. Bodies such as `""`, `0` or arrays of non-objects are not modelled, and neither is their truthiness.
- Replies.BytesText: only strings of plain ASCII digits (and the empty string) are converted. Every other spelling shows as `NaN`, although JavaScript's `Number` accepts many of them (signs, fractions, surrounding whitespace, `Infinity`, exponents, `0x`/`0o`/`0b` prefixes) and would show a number.
- Format.ToMiB: the result is exact for every natural number. JavaScript's doubles are exact only below 2^53, and `toFixed` switches to exponent notation at 10^21.
- Format.ToGiB: the same limits as `ToMiB` apply.
- The help menu text is a constant, copied from bot.js:76-87, and no property is stated about its wording.
- The `return` after the not-connected reply (bot.js:116) skips the later blocks. Since no later guard can accept `/resource`, it has no further effect, and the model leaves it out.
- A `TypeError` that nothing catches is modelled only as "no message sent": `forEach` or `filter` on a plain-object body (bot.js:149, 210-211, 264) and a missing `name` or `user` field inside the find filters (bot.js:210-211). The unhandled promise rejection it causes is not modelled. The `TypeError` that `formatUptime(undefined)` raises in `/resource` (bot.js:131) is different: it is caught (bot.js:138) and the failure text is sent (bot.js:140), and the model sends that text.
