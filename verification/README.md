# sadbot core in Dafny

A model of the message loop of a Telegram group bot, `main.go`. The loop
answers chat messages through an OpenAI-compatible backend, and keeps three
pieces of state between updates:

- a short conversation memory (`contexts`), trimmed to a character budget of
  1700 before every request;
- a count of updates per `"15:04"` minute label, which makes the loop sleep
  out the rest of the minute when the count reaches `chat_per_minute`;
- an event file (`events.txt`) of records separated by `"\n-----\n"`, edited
  with the `/catat` (save), `/selesai n` (delete) and `/events` (list)
  commands.

The file also defines `LimitedSlice`, a fixed-capacity ring of strings. The
loop itself never uses it.

Modules, one per component of the loop:

| module | file | what it holds |
|---|---|---|
| `Wrappers` | wrappers.dfy | `Option` |
| `Strs` | strs.dfy | Go's `strings.Index`, `Contains`, `Split` and `Join`, with their round trips |
| `Strconv` | strconv.dfy | Go's `strconv.Atoi` through `ParseInt` and `ParseUint`: one optional sign, then digits; a syntax error reads as 0; a value past the range reads as the int64 bound on the side of the sign; int64 decrement with wrap-around |
| `Limited` | limited.dfy | `LimitedSlice` as an immutable value, plus `Get` as the source's loop |
| `Contexts` | contexts.dfy | the trim of the memory and the append of the new prompt |
| `Rate` | rate.dfy | the per-minute counts, the cap check, and bursts of messages |
| `Sender` | sender.dfy | the sender's display name and the 400-character cut of the text |
| `Events` | events.dfy | `/catat`, `/selesai`, `/events` over the file content as a string |
| `Pipeline` | pipeline.dfy | one pass of the loop (`Step`) and a run over a queue of updates (`Run`) |

The model follows the code as written, including its quirks. Each quirk is
stated as a lemma:

- **Context order flips on every message.** The trim walks the memory newest
  first and keeps the result in that order. The new prompt is then appended at
  the end, so the order of the older turns is reversed once per message.
  - `Contexts.AppendWithinBudgetReverses` states the flip.
  - `Contexts.TwoMessagesScramble` shows it over two messages.
- **`/catat` keeps at most five records.** A `/catat` ends the file with the
  delimiter, so one of the at most six pieces is the empty piece after it
  (`Events.CatatLeavesFiveRecords`). This holds when the entry is clean: the
  entry, written after the last piece, must not complete a delimiter before the
  one `/catat` adds. An entry ending in `"\n-----"` is not clean:
  `/catat x\n-----` on a file of five records leaves six records.
- **`/selesai` can "delete" the empty trailing piece.** The number one past the
  last record selects that piece. It is accepted and reported as a success,
  but no record goes (`Events.DeletingTrailingPieceKeepsRecords`).
- **The next `/catat` after a delete glues onto the last record.** A deletion
  rewrites the file without its final delimiter, so the next clean entry joins
  the last record instead of starting a new one
  (`Events.DeletionThenCatatGlues`).
- **The cap-th message of a minute stalls.** The comparison is `>=` after the
  increment, so at most `cap - 1` messages pass between stalls
  (`Rate.BurstStallsEveryCapth`, `Pipeline.RunStallsEveryCapth`), not `cap`.
- **The last non-empty name wins.** The name loop overwrites, so it picks the
  last non-empty of user name, first name and last name, not the first
  (`Sender.UserName`).

Go panics are actions, not errors. Two are modelled:

- dereferencing a missing sender (main.go:108, 126, 130) is `SenderPanic`;
- reading the first choice of an empty backend response (main.go:289) is
  `ChoicesPanic`.

Either one ends `Run`. The recover handler in `main` does not keep the loop
going.

## Model

| member | source | states |
|---|---|---|
| `Limited.New` | main.go:300-306 | a fresh slice has `limit` empty slots and its cursor on the first slot |
| `Limited.Add` | main.go:308-311 | the ring stays well-formed; the cursor steps round modulo `limit`; in written order the oldest slot drops out and the element is appended |
| `Limited.Get` | main.go:313-322 | the loop from the cursor round the ring returns the non-empty slots oldest first: at most `limit` elements, none of them empty |
| `Limited.GetAfterHistory` | main.go:300-322 | after any sequence of adds to a fresh slice of capacity `n`, `Get` returns the non-empty elements among the last `n` added, in order; the cursor is the number of adds modulo `n` |
| `Limited.AddEmptyIsInvisible` | main.go:308-322 | adding `""` shows nothing new; it only pushes the oldest slot out |
| `Contexts.WithinBudget` | main.go:239-246 | the kept turns are a prefix of the input, within the budget, and the longest such prefix |
| `Contexts.TrimContext` | main.go:237-247 | the source's loop keeps exactly the longest newest-first prefix of the memory whose total length is within the budget |
| `Contexts.AppendTurn` | main.go:247-251 | the new memory is the trimmed memory with the prompt as its last element; the older part is within the budget and newest first |
| `Contexts.AppendWithinBudgetReverses` | main.go:237-251 | a memory that fits the budget comes back reversed, with the prompt after it |
| `Contexts.TwoMessagesScramble` | main.go:237-251 | two messages in a row, within budget, turn memory `c` into `[p] + c + [q]` |
| `Rate.Tick` | main.go:77-80 | an update raises its own minute's count by exactly one; a missing minute counts as 0; no other minute changes |
| `Rate.Admit` | main.go:230-235 | the loop sleeps if and only if the count is at or above the cap; it then sleeps `60 - second` seconds (1 to 60) and forgets every count; otherwise nothing changes |
| `Rate.BurstStallsEveryCapth` | main.go:230-235 | from no counts, `q * cap + r` messages in one minute (`r < cap`) stall exactly `q` times and leave a count of `r` |
| `Rate.BurstRounds` | main.go:230-235 | message number `n = q * cap + r` of a burst from no counts leaves a count of `r` after `q` stalls |
| `Rate.BurstCounts` | main.go:230-235 | a message that leaves the count below the cap raises it by one and does not stall |
| `Rate.BurstWraps` | main.go:230-235 | the message that brings the count to the cap stalls and clears every count, starting the next round |
| `Rate.NonPositiveCapStallsAll` | main.go:230-235 | a cap of 0 or less (an unset `chat_per_minute`) stalls every message |
| `Sender.LastNonEmpty` | main.go:93-97 | the result is the fallback or one of the non-empty parts; all parts empty gives the fallback |
| `Sender.LastNonEmptyAt` | main.go:93-97 | a non-empty part with only empty parts after it is the result, so the last non-empty part wins |
| `Sender.UserName` | main.go:83-97 | the name is the last non-empty of user name, first name and last name; with no sender, or all of them empty, it is `"unknown"` |
| `Sender.ResolveUserName` | main.go:91-97 | the overwrite loop computes that same name |
| `Sender.Truncate` | main.go:121-125 | the cut text is a prefix of the text, of length `min(len, 400)` |
| `Sender.TruncateFacts` | main.go:121-125 | cutting twice is cutting once; a text is unchanged exactly when it fits; only the empty text cuts to empty |
| `Strs.Index` | main.go:129 | the reported position is -1 or a place where the needle occurs |
| `Strs.IndexIsLeftmost` | main.go:129 | no occurrence starts before the reported position, and -1 means there is no occurrence at all |
| `Strs.ContainsOccurs` | main.go:129 | a text contains a needle exactly when the needle occurs somewhere in it |
| `Strs.SplitFirst` | main.go:162 | a text without the delimiter is one piece; otherwise there are at least two pieces and the first one, followed by the delimiter, starts the text |
| `Strs.JoinEnds` | main.go:150 | a join starts with the first piece and ends with the last; with two or more pieces it is at least as long as both ends and one delimiter |
| `Strs.JoinSplit` | main.go:162-165 | joining the pieces of a split restores the text |
| `Strs.SplitJoin` | main.go:207-208 | pieces without the delimiter, each ending cleanly before it, read back from their join |
| `Strconv.Atoi` | main.go:183-185 | the result is always within the int64 range |
| `Strconv.ParseUintByRun` | main.go:183 | the unsigned parse reads the longest digit prefix: past the uint64 range it is a range error whatever follows; otherwise an all-digit string gives its value, and the empty string or any other character is a syntax error |
| `Strconv.AtoiOfRun` | main.go:183 | after one optional sign: a digit run past the uint64 range reads as the int64 bound on the side of the sign, even with other characters after it; a bad or empty string otherwise reads as 0; a digit string reads as its signed value, saturated at the int64 bounds |
| `Strconv.AtoiOfDigits` | main.go:183 | an unsigned numeral within the int64 range reads as its value |
| `Strconv.Decrement64` | main.go:185 | the decrement lowers by one and stays in range, except that the least int64 wraps round to the greatest |
| `Strconv.AtoiItoa` | main.go:184 | every int64 written in decimal reads back as itself |
| `Events.Entry` | main.go:147-150 | the entry is the text after the first space, or empty when there is none |
| `Events.Catat` | main.go:149-173 | the file becomes the old file plus entry plus delimiter; with more than 6 pieces it becomes its last 6 pieces; it never has more than 6 pieces; the prompt is the saved-event prompt |
| `Events.Selesai` | main.go:174-217 | no number gives the "didn't specify" prompt and no write; a number outside 1..pieces (a non-number counts as 0) gives the "not found" prompt and no write; otherwise the file is rewritten and the prompt is the success prompt |
| `Events.Kept` | main.go:200-205 | the kept events are no more than the pieces, strictly fewer when the position is a real one, and none of them is empty |
| `Events.ListEvents` | main.go:218-225 | an empty file gives the "no events" prompt; otherwise the prompt is the fixed header followed by the file verbatim, and its length is exactly the header's plus the file's |
| `Events.KeptIsFilter` | main.go:200-205 | the kept events are the non-empty pieces with the chosen position taken out, in order |
| `Events.DeletionRemovesOnePiece` | main.go:193-217 | a valid deletion leaves the records before and after the chosen piece, in order, and nothing else is lost |
| `Events.DeletionReadsBack` | main.go:200-208 | a valid deletion writes the kept pieces joined, and the file then splits back into exactly those records |
| `Events.SelesaiNeverGrows` | main.go:193-217 | no `/selesai` makes the file split into more pieces |
| `Events.CatatAppendsPiece` | main.go:150-162 | for a clean entry (one that does not complete a delimiter with the last piece before it), `/catat` adds the entry to the last piece and then an empty piece; earlier pieces are untouched |
| `Events.CatatThenEvents` | main.go:149-225 | after `/catat` of a clean entry, `/events` ends its prompt with the new record and the delimiter |
| `Events.CatatLeavesFiveRecords` | main.go:152-166 | after `/catat` of a clean entry the last piece is empty, so at most five records remain |
| `Events.DeletionThenCatatGlues` | main.go:207-208 | after a deletion that leaves records, the next `/catat` of a clean entry joins it onto the last record |
| `Events.SelesaiByNumber` | main.go:183-185 | `/selesai n` for a piece number `n` deletes piece `n` |
| `Events.DeletingTrailingPieceKeepsRecords` | main.go:195-216 | deleting the empty piece after the final delimiter reports success and keeps every record |
| `Pipeline.BotName` | main.go:115-119 | the configured name, or the account's user name when none is configured |
| `Pipeline.MentionedByOccurrence` | main.go:129 | a text mentions the bot exactly when the bot's name, as configured or lower-cased, occurs in it |
| `Pipeline.Greeting` | main.go:107-108 | the greeting starts with its fixed head, carries the user name right after it, then `name: ` and the first name with no separator before it, and ends with a newline |
| `Pipeline.MentionLine` | main.go:129-130 | the line starts with its fixed head, carries the sender's user name right after it, and ends with ` saying `, the text and a newline |
| `Pipeline.Prompt` | main.go:107-132 | a text replaces the greeting for new members; an empty text with new members and no mention gives exactly the greeting; without a mention a text is the prompt; a mention appends the mention line after the text or greeting, adding exactly its length |
| `Pipeline.Request` | main.go:254 | the request starts with the system prompt and the context head, carries the encoded memory at its fixed place, and ends with the prompt head and the prompt |
| `Pipeline.DerefsMissingSenderUncut` | main.go:107-130 | whether a message without a sender is dereferenced is the same on the text as received as on the text cut to 400 characters |
| `Pipeline.LocalCommands` | main.go:134-145 | the pass answers `/debug` exactly when a known sender's unpinned command reads `/debug` after the cut, and then with the prompt built so far; it clears exactly when such a command reads `/clear` |
| `Pipeline.RunCommand` | main.go:147-226 | the first word picks `/catat`, `/selesai` or `/events`; any other command keeps the file and the prompt; only `/catat` and `/selesai` write |
| `Pipeline.Step` | main.go:76-270 | whether the update is ignored or panics on a missing sender; counts and sleep; `/debug` and `/clear` never sleep and leave the file alone, and `/clear` replies `"Memory cleared"`; only commands write; the memory is trimmed and gets the prompt appended; the backend is asked with the sender's name, the system prompt, the trimmed memory and the prompt; the reply is the first choice, or `"sabar, nanti tanya lagi"` on error |
| `Pipeline.Backend` | main.go:147-270 | the reply is the first choice, or `"sabar, nanti tanya lagi"` on an error; an empty choice list panics; the loop sleeps exactly when the count reaches the cap, then for the rest of the minute with every count forgotten; only commands write the file; a command's file and prompt come from `RunCommand`, and otherwise the file is kept and the prompt is used as is; the memory is the trimmed memory plus that prompt, and the question carries the sender's name, the system prompt, the encoded trimmed memory and the prompt |
| `Pipeline.PlainMessagePrompt` | main.go:121-126 | an ordinary message from a known sender that does not mention the bot becomes the prompt, cut to 400 characters |
| `Pipeline.ClearForgets` | main.go:139-144 | `/clear` replies `"Memory cleared"` and empties the memory, so the next request carries the encoding of an empty memory |
| `Pipeline.CatatStep` | main.go:147-173 | `/catat` from a known sender rewrites the file as `Events.Catat` says, and its prompt becomes the newest memory entry |
| `Pipeline.StepKeepsStoreBounded` | main.go:147-217 | no update makes the file split into more than 6 pieces once it is within that bound |
| `Pipeline.Run` | main.go:76-271 | the loop yields at most one outcome per update |
| `Pipeline.RunStopsOnlyOnPanic` | main.go:35-44 | a panic can only be the last outcome, and if the loop stopped before the end of the queue it stopped on a panic |
| `Pipeline.RunKeepsStoreBounded` | main.go:147-217 | the bound of 6 pieces holds over any run |
| `Pipeline.RunThrottles` | main.go:77-80 | ordinary messages in one minute leave the counts and the number of stalls that `Rate.Burst` gives |
| `Pipeline.RunStallsEveryCapth` | main.go:230-235 | from no counts, `q * cap + r` ordinary messages stall the loop exactly `q` times |

## Left out

- Telegram plumbing is not modelled: the bot API, the update channel, and sending the reply. Whether a message is a command (entity detection) is an input flag.
- The backend call in `ask` (main.go:274-292) is a parameter. It returns a first choice, an error, or a response with no choices.
- `strings.ToLower` and `json.Marshal` are parameters. Go's lower-casing of Unicode and its JSON escaping are not modelled.
- File I/O is left out: opening, reading and writing `events.txt`, `initConfig`, and loading the YAML and system prompt (main.go:324-351). The event file is a string carried in the state, and the configuration is an input.
- `log.Fatal` on I/O errors is not modelled, because there is no I/O. Neither is the failed open at main.go:70-73, after which every `/catat` write fails.
- Time is an input: `time.Now` gives a minute label and a second in 0..59. `time.Sleep` is returned as a number of seconds.
- The restart goroutine in the recover handler (main.go:35-44) is left out. It is process supervision; a panic simply ends `Run`.
- Logging and `Printf` are not modelled.
- The trim at main.go:103-105 is dead code, because `prompt` is always empty there.
- Go strings are bytes. The model treats each `char` as one byte, so the 400-character cut and the 1700 budget count elements of `seq<char>`.
- Limited.New: requires `limit >= 0`. A negative capacity makes Go's `make` panic, and that panic is not modelled.
- Limited.Add: requires a capacity of at least 1. With capacity 0 the source indexes out of range.
- Events.Selesai: says nothing for an argument that reads as the smallest int64. The decrement wraps round to the largest int64, which is always out of range for a real file.
- Strconv.Atoi: its own contract states only the int64 range; what it reads is stated by `Strconv.AtoiOfRun`. A non-zero result need not come from a string of digits: Go's `ParseUint` returns its range error at the first digit past the uint64 range, so `"99999999999999999999x"` reads as the largest int64.
- Events.CatatAppendsPiece: holds only for a clean entry. An entry that, written after the last piece, completes a delimiter before the one `/catat` adds splits differently.
- Events.CatatThenEvents: holds only for a clean entry, for the same reason.
- Events.CatatLeavesFiveRecords: holds only for a clean entry. `/catat x\n-----` on a file of five records leaves six.
- Events.DeletionThenCatatGlues: holds only for a clean entry, for the same reason.
