# Appointment reminder bot: notification core in Dafny

This project models the notification engine of a WhatsApp reminder bot. It has two parts.

The connection handler reconnects after every close except a logout. On every `open` it runs one polling cycle at once and arms a five-minute timer.

A polling cycle queries the appointments due for a reminder. It sends each one a message, in time order, and records every successful send. A NULL phone ends the cycle early (Finding 1). The record is an upsert keyed by appointment id. An appointment is reminded again only when its send went out but the record write failed: delivery is at-least-once.

All of this lives in `bot.js`. The model replaces every I/O step with data:

- Times are integer seconds, the resolution of MySQL's `DATETIME` and `NOW()`. `NOW()` is read once per statement, so a cycle takes one `now`.
- The appointments table is a `seq<Appointment>`. The notification table is a `seq<Notification>` of rows `(appointmentId, sentFlag, sentAt)`. The flag is an integer because the query tests `enviado = 1`.
- What the network and the database do to the i-th item of a batch comes from an oracle `nat -> Attempt`. An `Attempt` says whether the send succeeded, whether the upsert succeeded, and what `NOW()` was at the upsert.
- A failed query is the flag `fetched = false`.
- The reminder text is the value `Reminder(clientName, scheduledAt)`. It stands for the template and the formatted date.
- The connection is an event-driven state machine. It counts calls to connect, cycles run and timers armed.

Modules, one per component:

- `Contact` (contact.dfy): turns a phone number into a messaging address.
- `Notifications` (notifications.dfy): the delivery table and its upsert.
- `Eligibility` (eligibility.dfy): the selection query, as a filter followed by a sort.
- `Dispatch` (dispatch.dfy): processes one item, and folds that over a batch. It also holds the loop exactly as written (see Findings).
- `Polling` (polling.dfy): one cycle, and histories of cycles. A cycle runs either the program's loop (`AsWritten`) or the per-item loop (`Isolated`), and every property is stated for both.
- `Session` (session.dfy): the connection handler.
- `Wrappers` (wrappers.dfy): `Option`, for the columns that may be NULL.

Where the code's evident intent and its behaviour differ, the model follows the code:

- A close whose error has no status code reconnects, because `undefined !== loggedOut`.
- Every `open` arms another interval (Finding 2).
- A NULL phone aborts the rest of the batch (Finding 1). `Polling.CycleIsProgramLoop` proves that a cycle with the `AsWritten` loop does exactly that.
- A failed record write is not retried.

## Model

| member | source | states |
|---|---|---|
| Contact.Normalise | bot.js:81 | The address is the phone's digits followed by `@s.whatsapp.net`. Its length is the digit count plus the suffix length, and everything before the suffix is a digit. |
| Contact.DigitsKeepsOrderAndCount | bot.js:81 | Removing every `\D` character leaves a subsequence of the phone. That subsequence keeps every digit, each as often as it occurs. |
| Contact.DigitsCharacterisation | bot.js:81 | A string equals the phone's digit string exactly when three things hold: it is all digits, it is a subsequence of the phone, and it has the phone's digit counts. |
| Contact.StripNonDigits | bot.js:81 | The left-to-right scan that `replace(/\D/g, '')` performs gives the same string as the recursive definition. |
| Contact.DigitsAppend | bot.js:81 | Removing non-digits distributes over concatenation. |
| Contact.DigitsFixpoint | bot.js:81 | The digit string of a phone is the phone itself exactly when the phone is all digits. |
| Contact.NormaliseAllDigits | bot.js:81 | An all-digit phone only gets the suffix appended. |
| Contact.NormaliseSameAddress | bot.js:81 | Two phones map to the same address exactly when they have the same digits in the same order. |
| Contact.NormaliseExample | bot.js:81 | `(11) 98888-7777` becomes `11988887777@s.whatsapp.net`. |
| Notifications.Upsert | bot.js:99-102 | After the upsert, the key has one row with flag 1 and the given time, and the unique key still holds. Every other id keeps exactly its rows. A row is sent for k exactly when k is the upserted id or it was sent before. The table grows only when the key was absent. |
| Notifications.UpsertTwice | bot.js:99-102 | Upserting the same key twice equals upserting it once with the later timestamp. |
| Notifications.UpsertFlagsIgnoreTime | bot.js:100 | The timestamp of an upsert never affects the ids or flags it leaves. |
| Notifications.UpsertIdempotent | bot.js:99-102 | A repeated upsert leaves the same ids and flags as a single one. Under the unique key, the record is still a single sent row. |
| Eligibility.FilterCounts | bot.js:51-58 | The WHERE filter keeps each row that meets the predicate as often as it occurs, and no other row. |
| Eligibility.SortByTime | bot.js:59 | The result is ascending by `data_horario` and is a permutation of the input. |
| Eligibility.TiesKeepTableOrder | bot.js:59 | Two appointments at the same time come out in table order. |
| Eligibility.Select | bot.js:44-60 | The result is sorted by time. An appointment is in it exactly when it is in the table and meets the clause: status `agendado`, inside the window, and no row with `enviado = 1`. Multiplicities match the table's. |
| Eligibility.WindowBounds | bot.js:52-53 | `BETWEEN now AND now+26h` together with `> now+1h` is the half-open window (now+1h, now+26h]. |
| Eligibility.SelectExample | bot.js:51-59 | Take appointments at +30min, +2h, +25h and +27h, plus one at +3h already sent. The query returns exactly the +2h and +25h ones, in that order. |
| Dispatch.Process | bot.js:78-108 | Corrected loop (Finding 1): one item ends in one of four outcomes: no phone (as written, a NULL phone instead throws and ends the loop; see `Dispatch.RunAsWritten`), send failed, record failed, or delivered. It sends only when the phone exists. Only a delivered item changes the table, by the upsert of its id at the attempt's time. |
| Dispatch.Run | bot.js:69-71 | Corrected loop (Finding 1): every item of the batch gets an outcome. When every phone exists it equals the loop as written (`Dispatch.AsWrittenAllPhones`). |
| Dispatch.RunIsolatesFailures | bot.js:69-107 | Corrected loop (Finding 1): item i's outcome depends only on its own phone and its own send and write results, never on earlier items. It is delivered exactly when it has a phone and both the send and the write succeed. |
| Dispatch.OutcomeSettled | bot.js:69-71 | Corrected loop (Finding 1): processing later items never changes an earlier item's outcome. |
| Dispatch.RunSendsEveryItem | bot.js:69-95 | Corrected loop (Finding 1): the sends of a batch are one per item with a phone, in query order, whatever happened before. |
| Dispatch.RunRecordsOnlyDeliveries | bot.js:94-107 | Corrected loop (Finding 1), and through `Polling.Cycle` the loop as written on the items it reached: after a batch, an id is marked sent exactly when it was already sent or some item with that id was delivered. The rows of every id without a delivery are untouched, so a failed send never writes a record. The unique key survives, and each delivered id ends with a single row with flag 1. |
| Dispatch.RunAsWritten | bot.js:69-81 | The loop as written stops at the first NULL phone. When it aborts, that item's index equals the number of processed items. |
| Dispatch.FirstMissingPhone | bot.js:81 | Gives the index of the first appointment without a phone, or the length of the list when every phone exists. |
| Dispatch.AsWrittenStopsAtMissingPhone | bot.js:69-81 | The loop as written equals the isolated loop run on the items before the first NULL phone. It aborts exactly when such a phone exists. |
| Dispatch.AsWrittenAllPhones | bot.js:69-81 | When every phone exists, the loop as written is the isolated loop. |
| Dispatch.AsWrittenAbortsAt | bot.js:69-81 | If the first NULL phone is at index m, the loop as written has run exactly items[..m] and then aborted. |
| Dispatch.MissingPhoneStarvesLaterItems | bot.js:73-81 | Put a NULL phone before a deliverable appointment. The isolated loop delivers and records the second one. The loop as written sends nothing and records nothing. |
| Polling.CycleIsProgramLoop | bot.js:40-81 | With the program's loop, a failed query sends nothing and writes nothing. Otherwise the cycle's batch is exactly what the loop as written gives on the selected appointments: it stops at the first NULL phone, because the throw at bot.js:81 lands in the catch at bot.js:73. |
| Polling.ReachedStopsAtMissingPhone | bot.js:69-81 | The program's loop gets only to appointments with a phone. When it stops short of the end, the next selected appointment has a NULL phone. The per-item loop gets to every selected appointment. |
| Polling.ReachedAllUnlessAborted | bot.js:69-81 | A cycle reaches every selected appointment exactly when the loop as written did not abort. The per-item loop never aborts. |
| Polling.CycleSendsOnlyPending | bot.js:44-81 | The per-item loop sends one reminder per selected appointment with a phone, in time order. As written, it sends exactly one per selected appointment before the first NULL phone and none after it. No send goes to an appointment that already has a sent row. |
| Polling.CycleKeepsRecords | bot.js:94-102 | A cycle never clears a sent row and keeps the unique key, whichever loop runs. |
| Polling.RerunAfterFullSuccess | bot.js:54-100 | Take a cycle that did not abort and in which every item was delivered. The query at the same `now` returns nothing. |
| Polling.UndeliveredStaysSelected | bot.js:54-107 | A selected appointment whose id no reached item delivered is selected again at the same `now`. |
| Polling.RecordFailureResends | bot.js:94-107 | Take an item whose message went out but whose record failed, with no delivery for its id in the batch. It is selected again at the same `now`. This is the at-least-once exposure. |
| Polling.AbortLeavesRowSelected | bot.js:69-81 | When the loop as written aborts, the first NULL phone exists among the selected appointments. Unless another row with its id was delivered, that appointment stays selected at the same `now`. |
| Polling.SentPersists | bot.js:99-102 | Over any history of polls, a sent row survives every later cycle, for either loop. A history lists the table before each poll, and each next table is what that poll's cycle leaves. |
| Polling.NeverNotifiedTwice | bot.js:40-112 | Once a cycle delivers for an appointment id, no later cycle of the history selects any appointment with that id. This holds for either loop, any clock and any appointments table. |
| Session.ReplayAsWrittenCounts | bot.js:17-34 | Over any event history: connects are 1 plus the number of closes that are not logouts. Timers armed equal the number of opens. Cycles are one per open, plus, per tick, one for each open before it. |
| Session.ClosePolicy | bot.js:22-29 | A close without the logout code causes exactly one new connect. A logout close causes none and leaves the session terminal. Cycles and timers do not change. |
| Session.OpenArmsAnotherTimer | bot.js:30-34 | An open runs one cycle at once and arms one more timer than before. Nothing stops repeated opens from stacking intervals. |
| Session.ReplayArmsOneTimer | bot.js:110-114 | With the timer armed only on the first open, at most one interval exists. It exists exactly when some open happened. The reconnect count is unchanged. |
| Session.RepeatedOpensDoubleTheCycles | bot.js:110-114 | Take open, recoverable close, open, one period. As written, two intervals are armed and the period runs two cycles. With the timer armed once, it runs one. |

## Left out

- `db.js`: pool construction, the startup connectivity probe and `process.exit` are plumbing.
- The socket library: `makeWASocket`, the QR code and credential persistence (bot.js:1-2, 10-15, 19-21, 37) are foreign calls. A send's result is the oracle's `sendOk`.
- `DisconnectReason.loggedOut` belongs to that library. The model uses its value, 401, as the constant `LoggedOut`.
- MySQL execution is left out; the query is modelled by its meaning over in-memory rows. Three SQL details follow from that:
  - NULL `status` or `data_horario` values are not modelled.
  - The collation's case-insensitive and trailing-space-insensitive string comparison is not modelled. `status` is compared exactly.
  - Ties in `ORDER BY data_horario` come out in an unspecified order in MySQL. The model's insertion sort is stable. `TiesKeepTableOrder` proves this for two appointments at the same time; it is not proved for longer sequences. The contracts about the query promise only sortedness and permutation.
- The schema is not part of the source. The model assumes a unique key on `agendamento_id`, which `ON DUPLICATE KEY` needs to act as an upsert. Lemmas that depend on it take `KeysUnique` as a hypothesis.
- The date is formatted with `toLocaleString` in the `America/Sao_Paulo` zone (bot.js:83-90). That is locale and timezone library code. The message template (bot.js:92) is kept only as the `Reminder` value.
- Real timing and concurrency are left out: the five-minute period, overlapping cycles and sends in flight when a socket closes. A `Tick` means one period elapses and every armed interval fires once. A cycle fired by a stale interval is counted like any other.
- The session phase is implicit in the code. `Phase` is the model's name for where the handler stands.
- Console logging is left out.
- Session.Replay: the socket is not modelled. The corrected handler's single timer must send through the socket of the latest open, not the one captured at bot.js:111-112. State counts cannot tell those apart.

## Findings

| source | as written | input that shows it | evidently intended | confidence | as-written member | corrected member |
|---|---|---|---|---|---|---|
| bot.js:81 | `telefone.replace(...)` runs before the per-item `try` (bot.js:94). A NULL phone throws into the cycle's `catch` (bot.js:73), and that ends the loop. | A batch of [an appointment with NULL phone, a deliverable appointment]: the second is never sent or recorded. | Each appointment's failure stays with that appointment, as the per-item `try` intends. The bad row fails alone and the next one is delivered. | medium: depends on the phone column being nullable; not executed | Dispatch.MissingPhoneStarvesLaterItems | Dispatch.RunIsolatesFailures |
| bot.js:33 | Every `open` calls `iniciarVerificacaoPeriodica`, which arms another `setInterval` that is never cleared. | Events [open, close with no status code, open, one period]: two intervals are armed and the period runs two cycles, one of them on the stale socket. | One periodic timer, armed on the first open, that always sends through the current socket. | medium: not executed | Session.RepeatedOpensDoubleTheCycles | Session.ReplayArmsOneTimer |

`Polling.Cycle` takes the loop as a parameter. Either way it runs the per-item loop `Dispatch.Run` over the appointments that loop gets to. For `AsWritten`, those are the selected appointments before the first NULL phone. `Polling.CycleIsProgramLoop` proves that this is exactly `Dispatch.RunAsWritten`, the program's loop. Every `Polling` lemma holds for both loops. In `Session`, `ReplayAsWritten` is the handler as written and `Replay` arms the timer once.
