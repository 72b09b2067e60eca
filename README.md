# Chat message admission filter

A model of the client-side message filter in `firebaseBugSolution.js`, a chat
snippet built on the Firebase Realtime Database. The client subscribes to
`child_added` on the `messages` list. Each message has a text and a
server-assigned timestamp. The handler passes a message to `updateChatUI` only
if its timestamp is strictly greater than `lastMessageTimestamp`, and then
raises `lastMessageTimestamp` to that timestamp. Older, equal and duplicate
deliveries are dropped silently.

The project is one module, `ChatAdmission` in `chat_admission.dfy`:

- `Message` is the pushed record (`text`, `timestamp`).
- `Step`, `HighWater` and `Admitted` state the filter on values. `Step` is one
  handler run on the mark. `HighWater` is the mark after a delivery sequence.
  `Admitted` is the sequence of messages handed to the UI.
- Lemmas prove what the filter promises about those functions.
- The class `AdmissionFilter` is the handler as it runs. Its field `last` is
  `lastMessageTimestamp`, updated in place. The ghost log `admitted` stands for
  the `updateChatUI` calls. `OnChildAdded` is the callback. `ProcessAll` feeds
  it a delivery sequence one notification at a time. Its invariant `Valid()`
  says that `last` and `admitted` are what `HighWater` and `Admitted` give for
  the history delivered so far.

The snippet reads and assigns `lastMessageTimestamp` but never declares it.
Its declaration would be in the part of the application the file leaves out
(firebaseBugSolution.js:38). The model therefore takes the starting mark as
the constructor's parameter, and every property is stated relative to it.

## Model

| member | source | states |
|---|---|---|
| ChatAdmission.Step | firebaseBugSolution.js:23-25 | One handler run leaves the mark at the larger of the old mark and the message's timestamp: at least both, and equal to one of them. |
| ChatAdmission.DeliverOne | firebaseBugSolution.js:22-26 | A message is admitted if and only if its timestamp is strictly above the current mark. If admitted, it is appended to the UI log and the mark becomes its timestamp. Otherwise the log and the mark are unchanged. |
| ChatAdmission.DeliverAppend | firebaseBugSolution.js:20-27 | Delivering `a` then `b` equals delivering `a`, then delivering `b` from the mark `a` left. This holds for both the mark and the UI log. |
| ChatAdmission.HighWaterIsMax | firebaseBugSolution.js:23-25 | The mark never decreases. After any delivery sequence it is the maximum of the initial mark and all delivered timestamps. |
| ChatAdmission.AdmittedIncreasing | firebaseBugSolution.js:23-25 | The admitted timestamps, in admission order, strictly increase. Each lies above the initial mark and at or below the final mark. The final mark is the last admitted timestamp, or the initial mark when nothing was admitted. |
| ChatAdmission.AdmittedIsSubsequence | firebaseBugSolution.js:20-27 | Only delivered messages reach the UI, and in delivery order. |
| ChatAdmission.StaleIsDropped | firebaseBugSolution.js:22-26 | A message whose timestamp is at or below the mark when it arrives leaves no trace. The UI log and the mark equal those of a delivery without it. |
| ChatAdmission.TieFirstWins | firebaseBugSolution.js:23 | Of two messages with equal timestamps, the second is never admitted, whatever was delivered between them. The UI log and the mark equal those of a delivery without it. The strict comparison makes ties first-wins. |
| ChatAdmission.DuplicateAdmittedOnce | firebaseBugSolution.js:23 | A message delivered again, at any later point, is admitted at most once. The UI log and the mark are as for a single delivery. |
| ChatAdmission.IncreasingAllAdmitted | firebaseBugSolution.js:23-25 | A strictly increasing delivery whose first timestamp is above the mark is admitted in full and in order. The mark ends at its last timestamp. |
| ChatAdmission.OutOfOrderScenario | firebaseBugSolution.js:23-25 | From a mark below 100, a message stamped 100 and then one stamped 90: only the first is admitted, and the mark stays at 100. |
| ChatAdmission.AdmissionFilter.constructor | firebaseBugSolution.js:23 | A session starts with the given mark, nothing delivered and nothing admitted. |
| ChatAdmission.AdmissionFilter.OnChildAdded | firebaseBugSolution.js:20-27 | The callback accepts if and only if the timestamp is strictly above the old mark. On acceptance it appends the message to the UI log and sets the mark to its timestamp. Otherwise nothing changes. The invariant is kept. |
| ChatAdmission.AdmissionFilter.ProcessAll | firebaseBugSolution.js:20-27 | Running the callback over a delivery sequence leaves the mark at `HighWater` and appends `Admitted` to the UI log, both from the mark before the run. |

## Left out

- `sendMessage` (firebaseBugSolution.js:11-17) only pushes a record whose timestamp is the server-side sentinel `ServerValue.TIMESTAMP`. The client computes nothing there.
- The `.info/connected` handler (firebaseBugSolution.js:30-36) only tests `snapshot.val() === false`, and the branch it guards holds nothing but comments. `onDisconnect()` is named in the prose but never called, so there is no presence logic to model.
- Firebase initialisation, the `ref`/`on` subscriptions and the asynchronous delivery of events are calls into the SDK. Deliveries are modelled as a sequence handled one at a time.
- `updateChatUI` is UI code outside this file. It is modelled only as an append to the ghost log `admitted`, and is assumed to return normally. If it throws, the source leaves `lastMessageTimestamp` unchanged, because the assignment at firebaseBugSolution.js:25 follows the call at :24, and the exception leaves the handler. The model does not capture that path.
- Timestamps are JavaScript numbers holding server milliseconds. They are modelled as unbounded integers, without floating-point or `undefined` comparison behaviour. One hazard is not modelled: if `lastMessageTimestamp` were still `undefined`, every `>` comparison against it would be false, and no message would ever be admitted.
- The message text is carried as an opaque string. The source never validates it.
