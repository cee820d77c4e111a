# w-app-bot birthday core, in Dafny

w-app-bot is a WhatsApp bot with two event handlers in `src/bot.ts`:

- **Ingestion (`message_create`).** When the owner sends a message to their own chat, the bot parses its body into `key: value` lines. It then saves a birthday record with the `name`, `phone` and `birthday` entries.
- **The midnight job.** It builds today's `DD-MM` key. Then it sends a fixed greeting to the address `234<last ten characters of the phone>@c.us` of every stored record whose birthday equals that key.

This project models that logic and proves what it does.

- `wrappers.dfy`: `Option`.
- `js_text.dfy` (module `JsText`): the JavaScript string built-ins the handlers use, written out. These are:
  - `split` on one character;
  - `trim` with the ECMAScript whitespace and line-terminator set;
  - `toLowerCase`, on ASCII letters only;
  - `slice` with a negative start;
  - `String(n)` and `padStart`.
- `message_parser.dfy` (module `MessageParser`): the body parser.
  - `ParseBody` is the handler's `forEach` over the lines, as a loop updating a map.
  - It is proved equal to the fold `Parse`. The properties of the fold are proved as lemmas.
- `birthdays.dfy` (module `Birthdays`): the stored record `BirthdayRecord`, with the three optional text fields of the schema in `src/models/Birthday.ts`, and the date key, address and greeting. It also holds the class `BirthdayStore`, which owns the stored records:
  - `HandleMessage` is the sender guard and the append;
  - `DailyJob` is the midnight loop.
  - `DailyJob` returns the ordered list of sends it would issue. It is proved equal to the specification function `Plan`.
- `scenarios.dfy` (module `Scenarios`): end-to-end consequences.
  - A message typed as `Name: …`, `Phone: …`, `Birthday: DD-MM` is stored and greeted on that day and on no other.
  - Two small concrete cases.

Notes on the code:

- The parser splits each line on **every** colon and keeps only piece 1 as the value, so text after a second colon is dropped. The model follows the code.
- The address keeps the last ten **characters** of the phone field, whatever they are. The model follows the code here as well.
- A missing phone or name is printed as the text `undefined`, through the template literal and optional chaining. An unset `EXPECTED_SENDER` is `None` and matches no sender.

## Model

| member | source | states |
|---|---|---|
| MessageParser.LineEntry | src/bot.ts:53-54 | What one line contributes: the lower-cased trimmed piece 0 and the trimmed piece 1 of the line split on `:`, or nothing when there is no piece 1 or either trimmed piece is empty. `LineEntryBetweenColons`, `LineEntryNoColon` and `LineEntryWellFormed` characterise it. |
| MessageParser.AddEntry | src/bot.ts:54 | One step of the `forEach`: a contribution overwrites its key in the map; no contribution leaves the map as it is. `FoldLastWins` and `FoldSkipsNone` characterise the steps together. |
| MessageParser.Fold | src/bot.ts:52-55 | The map built by applying the contributions in order, starting from the empty `msgEntry`. `FoldLastWins`, `FoldAbsent` and `FoldWellFormed` characterise it. |
| MessageParser.ParseLines | src/bot.ts:52-55 | The map built from a sequence of lines. `ParseLinesLastWins` and `ParseLinesAbsent` together determine every key and value; `ParseLinesWellFormed` and `ParseLinesSkipsIgnoredLine` give its shape. |
| MessageParser.Parse | src/bot.ts:49-55 | The map built from a body split on line breaks. `ParseBody` is proved equal to it. |
| MessageParser.ParseBody | src/bot.ts:49-55 | The loop over the body's lines returns exactly the fold `Parse(body)`. Every key in the result is non-empty, trimmed, colon-free and has no upper-case ASCII letter. Every value is non-empty, trimmed and colon-free. |
| MessageParser.ParseLinesWellFormed | src/bot.ts:53-54 | Every key of the parsed map is lower-case, trimmed, non-empty and colon-free. Every value is trimmed, non-empty and colon-free. |
| MessageParser.LineEntryWellFormed | src/bot.ts:53-54 | A pair that one line contributes is well formed in the same sense. |
| MessageParser.LineEntryNoColon | src/bot.ts:53-54 | A line without a colon contributes nothing. |
| MessageParser.LineEntryBetweenColons | src/bot.ts:53-54 | With the first colon at `i` and the next colon (or the end) at `j`, the line contributes the lower-cased trimmed text before `i` and the trimmed text between `i` and `j`. It contributes nothing when either trimmed piece is empty. |
| MessageParser.LineEntryKeyValue | src/bot.ts:53-54 | A line `key:value` with colon-free sides contributes `(lower(trim key), trim value)` exactly when both trimmed sides are non-empty. |
| MessageParser.LineEntryDropsTail | src/bot.ts:53 | A line `key:value:tail` contributes what `key:value` does, so text after a second colon never reaches the map. |
| MessageParser.ParseLinesLastWins | src/bot.ts:52-54 | When line `i` is the last line that contributes key `k`, `k` is in the map and its value is the one line `i` contributes. |
| MessageParser.ParseLinesAbsent | src/bot.ts:52-54 | A key that no line contributes is not in the map. |
| MessageParser.ParseLinesSkipsIgnoredLine | src/bot.ts:52-54 | Removing a line that contributes nothing, at any position, leaves the map unchanged. |
| MessageParser.FoldLastWins | src/bot.ts:52-54 | In the fold over the contributions, the last contribution with a key decides its value. |
| MessageParser.FoldSkipsNone | src/bot.ts:54 | A step that contributes nothing leaves the fold unchanged. |
| Birthdays.IsSelfChat | src/bot.ts:46-48 | The guard holds only when the configured sender is set and equals both `from` and `to`, so only a message from the owner to their own chat passes. |
| Birthdays.RecordFrom | src/bot.ts:57-61 | Each field of the record is present exactly when the parsed map has its key (`name`, `phone`, `birthday`), and then holds that entry's value. |
| Birthdays.BirthdayStore.HandleMessage | src/bot.ts:48-63 | The store grows by exactly one record when `from` and `to` both equal the configured sender, and is unchanged otherwise. The new record holds the parsed `name`, `phone` and `birthday` entries, each absent where the map has none. Each present field is non-empty, trimmed and colon-free. |
| Birthdays.BirthdayStore.constructor | src/models/Birthday.ts:3-9 | A new store holds no records. |
| Birthdays.BirthdayStore.DailyJob | src/bot.ts:71-83 | The loop over the stored records returns `Plan(records, DateKey(day, month))`. An empty store yields no sends. |
| Birthdays.PlanFollowsMatches | src/bot.ts:80-83 | The plan has one send per record whose birthday equals the key, in store order. The `k`-th send is the request for the `k`-th matching record. |
| Birthdays.MatchIndicesExact | src/bot.ts:80-81 | The matched positions are in range and strictly increasing. Each is a record whose birthday equals the key, and every such record is among them. |
| Birthdays.PlanAppend | src/bot.ts:80 | The plan of a concatenation of stores is the concatenation of their plans, since each record is judged on its own. |
| Birthdays.Pad2 | src/bot.ts:73-75 | `String(n).padStart(2, "0")`. `Pad2Value` proves it is two digits reading back as `n` for `n < 100`. |
| Birthdays.DateKey | src/bot.ts:73-75 | The `DD-MM` key of a day and a month. `DateKeyShape` gives its layout and `DateKeyInjective` shows that distinct dates get distinct keys. |
| Birthdays.DateKeyShape | src/bot.ts:73-75 | For day 1..31 and month 1..12 the key has 5 characters with `-` at index 2. The first two characters are digits that read back as the day; the last two read back as the month. |
| Birthdays.DateKeyInjective | src/bot.ts:73-75 | Two real dates have equal keys exactly when they are the same date. |
| Birthdays.Pad2Value | src/bot.ts:73-74 | `String(n).padStart(2, "0")` for `n < 100` is two digits reading back as `n`. |
| Birthdays.PhoneText | src/bot.ts:82 | `person.phone?.slice(-10)` as printed: `undefined` for a missing phone, otherwise the last ten characters. The `Address` contract states it. |
| Birthdays.Plan | src/bot.ts:80-83 | The ordered sends for the records on a given key. `PlanFollowsMatches` and `MatchIndicesExact` show it holds exactly one request per matching record, in store order; `PlanAppend` shows it distributes over concatenation. |
| Birthdays.Request | src/bot.ts:82-83 | The send for one matching record: its `Address` and its `Greeting`, whose contracts give the address and text. |
| Birthdays.Address | src/bot.ts:82 | The address starts with `234` and ends with `@c.us`. Between them is the phone's last `min(10, length)` characters, or `undefined` when the phone is missing. |
| Birthdays.Greeting | src/bot.ts:83 | The greeting is the fixed opening, then the name (or `undefined`), then the fixed closing, each at its position. |
| Birthdays.NameText | src/bot.ts:83 | `${person.name}`: the name, or `undefined` when missing. The `Greeting` contract places it. |
| Birthdays.GreetingInjective | src/bot.ts:83 | Two greetings are equal exactly when the names they print are equal. |
| JsText.Split | src/bot.ts:49-53 | `split` on a one-character separator: at least one piece. `JoinSplit`, `SplitPiecesFree`, `SplitAt` and `SplitNone` characterise it completely. |
| JsText.JoinSplit | src/bot.ts:49 | Joining the pieces of `split` with the separator gives back the text. |
| JsText.SplitPiecesFree | src/bot.ts:53 | No piece of `split` contains the separator. |
| JsText.SplitAt | src/bot.ts:49 | The first piece of `split` ends at the first separator, and the rest is the split of what follows it. |
| JsText.SplitNone | src/bot.ts:49 | A text without the separator splits into itself alone. |
| JsText.TrimStart | src/bot.ts:53 | The result is a suffix of the input, everything dropped in front is whitespace, and the result does not start with whitespace. |
| JsText.TrimEnd | src/bot.ts:53 | The result is a prefix of the input, everything dropped at the back is whitespace, and the result does not end with whitespace. |
| JsText.Trim | src/bot.ts:53 | `trim`, as `TrimEnd` after `TrimStart`. `TrimShape` and `TrimUnique` characterise it. |
| JsText.TrimShape | src/bot.ts:53 | `trim` gives a text with no whitespace at either end, no longer than its input, made of the input's characters. |
| JsText.TrimUnique | src/bot.ts:53 | Trimming a trimmed text surrounded by whitespace gives back exactly that text. |
| JsText.AsciiLower | src/bot.ts:54 | `toLowerCase` on ASCII letters: the result has the input's length. `AsciiLowerMeaning` states what it does character by character. |
| JsText.AsciiLowerMeaning | src/bot.ts:54 | No upper-case ASCII letter is left. Each upper-case ASCII letter becomes the letter 32 code points higher, in `a`..`z`, and every other character is kept. |
| JsText.AsciiLowerKeepsShape | src/bot.ts:54 | Lower-casing keeps a trimmed text trimmed and a colon-free text colon-free. |
| JsText.Slice | src/bot.ts:82 | `slice(start)` keeps the last `-start` characters for a negative start, clamped to the whole text, and is a suffix of its input. |
| JsText.NatToString | src/bot.ts:73-74 | `String(n)` is a non-empty decimal numeral without a leading zero, with one digit exactly when `n < 10`. |
| JsText.NatToStringValue | src/bot.ts:73-74 | The numeral `String(n)` reads back as `n`. |
| JsText.PadStart | src/bot.ts:73-75 | `padStart(width, fill)` reaches the width, ends with the input and has only `fill` in front. |
| JsText.LeadingZeros | src/bot.ts:73-75 | Leading zeros do not change the value of a numeral. |
| Scenarios.ComposedMessageParses | src/bot.ts:49-55 | The body `Name: n\nPhone: p\nBirthday: b` with plain values parses to exactly `{name: n, phone: p, birthday: b}`. |
| Scenarios.ComposedMessageGreetedOnItsDay | src/bot.ts:57-83 | The record stored from such a message with birthday `DateKey(day, month)` is planned exactly one greeting, at `Address(phone)` with `Greeting(name)`, on the job of that date, and none on any other date. |
| Scenarios.Session | src/bot.ts:48-83 | On a fresh store, a message from a stranger is ignored. The owner's self-chat message is stored, and that date's midnight job plans exactly the one greeting. |
| Scenarios.ElevenDigitPhone | src/bot.ts:82 | The eleven-character phone `08012345678` is addressed as `2348012345678@c.us`: its first character is dropped. |
| Scenarios.FifthOfMarch | src/bot.ts:80-83 | Of two records, only the one born on `05-03` is greeted on 5 March. |

## Left out

- WhatsApp client setup, session storage in MongoDB, QR printing and the lifecycle logging (src/bot.ts:16-42, 105): these are foreign library calls and console output.
- `mongoose.connect`, `save()` and `find()`: persistence is the in-memory sequence `BirthdayStore.records`, in the order `find()` would return it. A failing save or find is not modelled, and neither is the `catch` that logs it (src/bot.ts:99-101).
- `schedule.scheduleJob` and `new Date()` (src/bot.ts:71-72): the day of the month and the month number are parameters of `DailyJob`. Time zones and the host clock are outside the model.
- The `sendMessage(...).then/.catch` chain and its logging (src/bot.ts:85-96): the job returns the ordered list of intended sends instead of issuing them.
- The HTTP liveness server and `dotenv` (src/bot.ts:4-5, 10-13, 108-110): I/O only.
- JavaScript object-prototype quirks: a line keyed `__proto__` has no counterpart in a Dafny map.
- AsciiLower: `toLowerCase` is modelled on the ASCII letters only. Upper-case letters outside ASCII are kept unchanged, where JavaScript would lower-case them.
- Strings are sequences of Unicode code points, whereas JavaScript counts UTF-16 code units. So `slice(-10)` on a phone with characters outside the Basic Multilingual Plane can differ, and the greeting's emoji is one character here.
- Birthdays.BirthdayStore.HandleMessage: the `await` on `save()` and the handler's asynchrony are not modelled; messages are handled one at a time, in order.
