# eltern-emailer: change detection and commit, in Dafny

eltern-emailer reads a school's parent portal ("Elternportal") and mails what is new. Two
scripts do this. The model covers the logic they wrap around browser scraping and mail
sending.

`aktuelles.js` keeps a processed-items record (`processed.json`). It maps letter ids to 1,
and thread ids to the message indices already mailed. Its pieces:

- `readAttachments` fetches the attachments of the letters not yet processed.
- `buildEmailsForLetters` and `buildEmailsForThreads` turn letters and thread messages into
  emails. Each email carries an `ok` callback that records its item.
- `sendEmails` sends the emails one at a time, pausing between sends. It runs each callback
  after a confirmed send and rejects at the first failure.
- The main block writes the record back only when sending was not rejected.

`main.js` is the older variant. It re-keys the scraped teacher and thread lists into maps by
id. It then mails, for each thread, the messages beyond the count stored by the previous run.

Modules:

- `Common` (`common.dfy`): the email, configuration and message values.
- `Processed` (`processed.dfy`): the processed-items record. A callback is a `Commit`, and
  `Apply`/`ApplyAll` are its effect.
- `Letters` (`letters.dfy`) and `Threads` (`threads.dfy`): the email builders, the attachment
  filter and the attachment fetch.
- `Dispatch` (`dispatch.dfy`): `sendEmails`. It is a recursive function over a sequence of
  send outcomes and returns four things: the state, the number of sends attempted, the number
  of waits, and whether the promise was rejected. A separate step trace (`Schedule`) states
  the order of waits, sends and callbacks.
- `Passes` (`passes.dfy`): the main block of `aktuelles.js` (threads section), and its
  commented-out letters section.
- `PortalText` (`portal_text.dfy`): the date rewrite of `readLetters` and
  `getPhpSessionIdAsCookie`.
- `Rekey` (`rekey.dfy`): the list-to-map re-keying of `main.js`.
- `Detection` (`detection.dfy`): the count-based detection loop of `main.js`.

How the browser, the network, the mailer and the clock are replaced:

- Browser: its results are inputs. These are the scraped letters, teachers, threads and
  cookies.
- Attachment downloads: a function `fetch` from url to an optional download.
- Mailer: a sequence of send outcomes.
- `setTimeout`: a count of waits.

The model follows the code in these behaviours:

- `sendEmails` stops at the first failed send, and the record is then not written at all.
  Callbacks of the emails sent before the failure have run in memory.
- Letters are mailed in reverse of the portal's list order.
- Thread progress is a map from thread id to the message indices already mailed.
- `buildEmailsForThreads` mails every message of every thread, whatever the record already
  holds.
- The record is written after every run that was not rejected, even when nothing was sent.
- A letter without a date in its text makes `readLetters` throw. The script does not skip
  that letter.
- The attachment filter skips a letter whose url is falsy. That covers the empty string as
  well as a missing link.

## Model

| member | source | states |
|---|---|---|
| Processed.Apply | aktuelles.js:114-117 | A callback records exactly its own letter id or (thread, index) with value 1. No other letter, thread entry or message index changes, and nothing is removed. A message callback needs its thread's entry to exist. |
| Processed.ApplyAll | aktuelles.js:231-242 | Running callbacks one after the other. The letter keys become the old keys plus the ids the callbacks record. No thread entry is created or removed. Each thread's indices become the old ones plus the recorded ones. Recorded letters have value 1, and the others keep theirs. |
| Processed.ApplyAllThreadValues | aktuelles.js:201 | After the callbacks, every index that one of them recorded holds 1. Every other index was already present before and keeps its value. |
| Processed.RecordedIndexHoldsOne | aktuelles.js:201 | An index recorded by some callback holds 1 after all of them, whatever callbacks come after it. |
| Processed.OtherIndexKeepsValue | aktuelles.js:201 | An index that no callback records keeps the value it had before. |
| Processed.ApplyAllMarks | aktuelles.js:238 | After the callbacks run, every one of their items is recorded and the record only grows. |
| Processed.MessageCommitsKeepLetters | aktuelles.js:201 | Thread-message callbacks leave the letters unchanged. |
| Processed.LetterCommitsKeepThreads | aktuelles.js:116 | Letter callbacks leave the thread progress unchanged. |
| Dispatch.FirstFailure | aktuelles.js:231-236 | The first failed send in a range, or the range end. Every send before it succeeded, and the send at it failed. |
| Dispatch.SendFrom | aktuelles.js:223-243 | The send loop from email i on, with k the first failure. The promise rejects iff there is a failure. Sends i..k are attempted, or all remaining sends when nothing fails. There is one wait per attempted send, except before email 0. The state is the callbacks of emails i..k-1 applied in order. |
| Dispatch.SendEmails | aktuelles.js:209-244 | For n emails with first failure k: sends 0..k are attempted and nothing after k. Exactly the callbacks of emails 0..k-1 run, in order. There are attempts-1 waits. The promise rejects iff a send failed. An empty list sends nothing and leaves the state as it was. |
| Dispatch.Schedule | aktuelles.js:223-243 | The step trace of `sendEmails` from email i on. It is empty exactly when there is no email left to send. The order and the counts of its steps are stated by the lemmas below. |
| Dispatch.WaitsComeBeforeSends | aktuelles.js:223-229 | Every wait is immediately followed by a send, and the first step is the send of email 0. |
| Dispatch.ConfirmsOnlySuccesses | aktuelles.js:232-240 | A callback runs only right after the send of its own email, and only when that send succeeded. |
| Dispatch.SendsInOrder | aktuelles.js:224-243 | Sends go out in strictly ascending list order. None goes past the first failure. |
| Dispatch.ScheduleSends | aktuelles.js:224-243 | The indices sent are exactly i, i+1, …, k, with k the first failure, or up to the last email when nothing fails. |
| Dispatch.ScheduleConfirms | aktuelles.js:236-239 | The callbacks that run are exactly those of emails i..k-1, in order. |
| Dispatch.ScheduleWaits | aktuelles.js:223-229 | The number of waits is the number of sends attempted, minus one when sending starts at email 0. |
| Dispatch.ReportMatchesSchedule | aktuelles.js:209-244 | The returned counts match the step trace: one attempt per send step and one wait per wait step. The state reflects exactly the confirmed emails, which form a prefix of the list. |
| Letters.ReadAttachments | aktuelles.js:60-89 | The call succeeds iff every unprocessed letter with a non-empty url has a successful fetch. It then returns the list unchanged, except that those letters carry their download. |
| Letters.AttachmentTargets | aktuelles.js:63-66 | The letters the skip test lets through: only letters of the list that need an attachment, and no more letters than were given. AttachmentTargetsMembers adds the converse. |
| Letters.AttachmentTargetsMembers | aktuelles.js:63-66 | The skip test at line 64 lets through exactly the letters whose id is not processed and whose url is neither null nor empty. |
| Letters.NoTargetsWhenNoneNeeded | aktuelles.js:63-66 | When no letter passes that filter, nothing is fetched. |
| Letters.ReadNothingNeeded | aktuelles.js:60-89 | When no letter needs an attachment, `readAttachments` resolves with the letters unchanged, for any network answers. |
| Letters.Unprocessed | aktuelles.js:93 | The letters `buildEmailsForLetters` mails: never more than it was given. UnprocessedMembers states which ones. |
| Letters.UnprocessedMembers | aktuelles.js:93 | The filter keeps exactly the letters whose id is not a key of `processedLetters`. |
| Letters.LetterEmail | aktuelles.js:99-113 | Sender with the "Aktuelles" suffix, recipient, subject, text and date. An attachment list is present iff the letter has content, and it then holds exactly one entry with the letter's file name and bytes unchanged. |
| Letters.LetterItem | aktuelles.js:114-117 | One letter's email paired with the callback that records the letter's id. Its contents are stated by LetterEmail and BuildEmailsForLetters, and the recorded ids by LetterCommitsAreUnprocessedIds. |
| Letters.BuildEmailsForLetters | aktuelles.js:91-119 | One email per unprocessed letter, in reverse list order. Email k belongs to unprocessed letter \|u\|-1-k, and its callback records that letter's id. |
| Letters.LetterCommitsOnlyLetters | aktuelles.js:114-117 | Every callback of the letter emails records a letter. |
| Letters.LetterCommitsAreUnprocessedIds | aktuelles.js:93-117 | The callbacks record exactly the ids of the letters that are not yet processed. |
| Letters.UnprocessedAfterRead | aktuelles.js:63-93 | Reading attachments and then selecting unprocessed letters gives the same letters as selecting first, each with its download where one was fetched. |
| Letters.LetterAttachmentFidelity | aktuelles.js:106-113 | Take freshly scraped letters through reading and building. Every email of an unprocessed letter has the letter's subject and text. It carries an attachment iff the letter has a non-empty url, and the attachment holds the fetched name and bytes unchanged. |
| Letters.LetterAttachmentFidelityAt | aktuelles.js:106-113 | The same fidelity for the email at one position. |
| Threads.MessageItem | aktuelles.js:194-202 | One message's email paired with the callback that records (thread id, index). ThreadsItemsAt states where each one lands in the list and what it holds. |
| Threads.ThreadsItems | aktuelles.js:183-206 | As many thread emails as the threads hold messages. |
| Threads.ThreadsItemsAt | aktuelles.js:190-202 | Message i of thread b comes right after all messages of the earlier threads. It has the thread subject and the message body, and its callback records (thread id, i). |
| Threads.EntriesFor | aktuelles.js:185-187 | The entries made for the mailed threads. EntriesForSpec states the resulting keys and values. |
| Threads.EntriesForSpec | aktuelles.js:185-187 | Afterwards every thread id is a key of `processedThreads`. Existing entries are unchanged, new entries are empty, and no other key appears. |
| Threads.BuildEmailsForThreads | aktuelles.js:181-207 | The nested loops over teachers, threads and messages give exactly the emails and entries above, whatever `processedThreads` already records. |
| Threads.AddTeacher | aktuelles.js:184-204 | The loop over one teacher's threads extends the emails and the entries by that teacher's threads. |
| Threads.EmailsForMessages | aktuelles.js:190-203 | The innermost loop gives one email per message, by ascending index. |
| Passes.ThreadCommitsTargetThreads | aktuelles.js:201 | Every thread-email callback records an existing message of one of the threads being mailed. |
| Passes.ThreadIndicesExact | aktuelles.js:190-202 | The callbacks record index i for thread id exactly when a mailed thread with that id has a message at i. |
| Passes.ThreadItemsCoverMessages | aktuelles.js:190-202 | Every message of every thread has an email whose callback records it. |
| Passes.ThreadCommitsApplicable | aktuelles.js:185-201 | Once the entries are made, every thread callback can run without a TypeError. |
| Passes.ThreadCommitsGrow | aktuelles.js:181-207 | Running all thread callbacks keeps the letters as loaded and drops nothing recorded before. |
| Passes.ThreadMessageRecorded | aktuelles.js:201 | Running all thread callbacks records message i of thread t. |
| Passes.ThreadCommitsRecordAll | aktuelles.js:190-202 | Running all thread callbacks records every message of every thread. |
| Passes.ThreadCommitValues | aktuelles.js:185-202 | After all thread callbacks, an index that is a message of a mailed thread holds 1. Every other index was loaded and keeps its loaded value. |
| Passes.ThreadCommitsExact | aktuelles.js:185-202 | After all thread callbacks, the thread entries are the loaded ones plus one per mailed thread. Each entry holds exactly its loaded indices plus the indices of that thread's messages. |
| Passes.RunThreadsPass | aktuelles.js:268-275 | The record is written iff no send failed. A written record keeps the letters as loaded, keeps everything recorded before, and records every message of every thread. It adds nothing else: its thread entries are the loaded ones plus the mailed threads', and each holds exactly its loaded indices plus its thread's message indices. Each index of a mailed message holds 1, and every other index keeps its loaded value. |
| Passes.LetterSendsKeepThreads | aktuelles.js:116 | Sending letter emails never touches thread progress. |
| Passes.RunLettersPass | aktuelles.js:262-275 | The record is written iff every attachment request succeeds and no send of the unprocessed letters' emails fails. A failed attachment fetch leaves nothing written. A written record has the thread progress as loaded. |
| Passes.LettersPassShape | aktuelles.js:262-265 | A letters run that writes the record read every attachment and sent every email it built. It ran all of their callbacks. |
| Passes.ReadKeepsIds | aktuelles.js:63-88 | Reading attachments keeps every letter's id. |
| Passes.LettersPassRecordsAll | aktuelles.js:262-275 | A written record's letter keys are the loaded keys plus the id of every scraped letter. Every new key has value 1. |
| Passes.QuietWhenAllRecorded | aktuelles.js:63-97 | When every letter id is recorded, nothing is fetched, `readAttachments` returns the letters unchanged whatever the network would answer, and no email is built. |
| Passes.LettersRerunIsQuiet | aktuelles.js:262-275 | Idempotence: after a letters run that wrote its record, a rerun over the same letters fetches nothing, gets the letters back from `readAttachments` unchanged, and mails nothing. |
| PortalText.DateAt | aktuelles.js:42 | The match test of the date pattern at one position. DateAtIsRegexMatch states that it agrees with the backtracking reading. |
| PortalText.DateAtIsRegexMatch | aktuelles.js:41-42 | Matching at a position agrees with the backtracking reading of the pattern: the day, then some m ≥ 1 spaces, then the time. |
| PortalText.FindDate | aktuelles.js:41-42 | The leftmost match position at or after `from`, or none when the pattern matches nowhere. |
| PortalText.RewriteDate | aktuelles.js:41-49 | A result exists iff the text holds a date at some position, and it is 19 characters long. Absence stands for the TypeError. |
| PortalText.RewriteGermanDate | aktuelles.js:41-49 | A date `DD.MM.YYYY` is rewritten to `YYYY-MM-DD hh:mm:ss` whenever no match starts in the text before it, with one or more spaces between date and time and any text after. |
| PortalText.RewriteAfterDigitFreeLead | aktuelles.js:41-49 | In particular, any digit-free text may come before the date. |
| PortalText.SessionCookies | aktuelles.js:250 | The filter keeps only cookies of the list that are named PHPSESSID. |
| PortalText.PhpSessionIdAsCookie | aktuelles.js:248-252 | A non-empty header starts with `PHPSESSID=`. SessionCookieHeader states when it is non-empty and which value follows. |
| PortalText.SessionCookieHeader | aktuelles.js:248-252 | The header is non-empty iff exactly one cookie is named PHPSESSID. It is then `PHPSESSID=` followed by that cookie's value. |
| Rekey.Rekey | main.js:40-43 | Re-keying never drops a key, and every id of the list becomes a key. RekeyKeys, RekeyLastWins and RekeyKeepsOthers state the exact keys and values. |
| Rekey.RekeyKeys | main.js:39-44 | The keys after re-keying are the keys held before plus the ids of the list. |
| Rekey.RekeyLastWins | main.js:40-43 | A repeated id maps to the value of its last occurrence, and the stored value no longer carries the id. |
| Rekey.RekeyKeepsOthers | main.js:67-70 | A key already in the map that no entry of the list carries keeps its value. |
| Rekey.RekeyAppend | main.js:53-71 | Re-keying two lists one after the other is re-keying their concatenation. |
| Rekey.ThreadsMetaIsRekey | main.js:51-73 | `readThreadsMeta` re-keys all teachers' thread lists as one list, in the order the teachers are visited. |
| Rekey.ActiveTeachers | main.js:39-44 | The keys of the teacher map are exactly the scraped ids. ActiveTeachersSpec adds the values. |
| Rekey.ThreadsMeta | main.js:51-73 | Every thread id of every teacher's list is a key of the thread map. ThreadsMetaSpec states the exact keys and values. |
| Rekey.ActiveTeachersSpec | main.js:39-44 | The teacher map holds exactly the scraped ids, each with its last entry. |
| Rekey.ThreadsMetaSpec | main.js:51-73 | The thread map holds exactly the thread ids of all teachers, each with its last entry. |
| Detection.PreviousCount | main.js:106-107 | `nPrevious`. ThreadBlockBounds and NothingNewWhenStored state its effect: a thread that was not stored has all its messages mailed, and a thread stored as it is now has none. |
| Detection.MessageEmail | main.js:116-121 | One message's email. ThreadEmails and ThreadEmailsAt state its subject, text and position. |
| Detection.ThreadEmails | main.js:115-122 | A thread yields max(0, nCurrent − nPrevious) emails. Email k is for message nPrevious + k, with subject `thread.subject + ' -- ' + author` and the body as text. |
| Detection.DetectOver | main.js:105-123 | Over any list of thread ids, the number of emails is the sum over the listed threads of max(0, nCurrent − nPrevious). |
| Detection.DetectNewMessages | main.js:102-123 | With every thread visited once, the number of emails is the sum of the threads' new counts, and every message past a thread's stored count is mailed. |
| Detection.EveryNewMessageDetected | main.js:105-123 | When every thread is visited, every message from index nPrevious on is among the emails. |
| Detection.NewMessageDetected | main.js:105-123 | Message m of a listed thread, when past the thread's stored count, is among the emails. |
| Detection.DetectedAt | main.js:105-123 | New message k of the thread at position b comes right after the new messages of the threads before it, and it is message nPrevious + k. |
| Detection.NothingNewWhenStored | main.js:105-114 | Idempotence: when the stored threads equal the current ones, as line 158 writes them, nothing is mailed. |
| Detection.ThreadBlockBounds | main.js:106-114 | A thread that did not grow or that shrank yields no email. A thread absent from the stored state has all its messages mailed. |
| Detection.CollectNewMessages | main.js:102-123 | The loops of the main block produce exactly the detected emails. |
| Detection.NewTail | main.js:115-122 | The inner loop produces exactly the thread's new tail. |
| Detection.ThreadEmailsAt | main.js:115-121 | Entry k of a thread's tail is the email for message nPrevious + k. |

## Left out

- Login, page navigation and DOM scraping are left out. That covers `login`, the `$$eval` selectors, `readLetters` apart from its date rewrite, `readActiveTeachers`, `readThreadsMeta` and `readThreadsContents`. They are browser I/O, so their results are inputs.
- In `aktuelles.js`, `readActiveTeachers` returns only its first teacher (line 135). The model takes the teacher list as given, and callers can pass a one-element list to match.
- The HTTPS download and the `content-disposition` parsing are a parameter `fetch`. They are network I/O and a foreign library. A download is one name and one byte string. A request error rejects the whole call.
- Letters.AttachmentTargetsMembers: the requests stop at the first error (lines 70-87), so letters after a failed download are never requested. `AttachmentTargets` still lists them, and `ReadAttachments` models the stop.
- Letters.ReadAttachments: `fetch` answers the same url with the same result every time, because the network is not modelled.
- The identity extraction of letter, teacher and thread ids by regular expression is left out. It reads DOM attributes.
- The nodemailer transport is a sequence of outcomes, one per email, because it is a foreign library.
- The `setTimeout` pause is a wait count. Its duration, `CONFIG.email.waitSeconds`, is not modelled.
- `new Date(letter.dateString)` is left out, and the email keeps the rewritten date string. JavaScript date parsing is a foreign library.
- `main.js` sends its emails without waiting for them (lines 137-159) and decides whether to write on the `emailsFailed` counter. The check at line 155 runs in the same synchronous stretch as the send loop at lines 137-149, with no `await` in between, so no send callback can have run yet: `emailsFailed` is still 0 there, and line 158 writes the file even when sends fail. The model stops at the list of emails to send, and the idempotence lemma assumes the record was written.
- JSON reading and writing of `processed.json` and the threads file is left out, as is the global `CONFIG`. From and to addresses are a `Config` value.
- JavaScript stores message indices as object keys "0", "1", …. The model uses natural numbers.
- Detection.DetectNewMessages: the thread enumeration order of `Object.entries` is a parameter, required to list every thread once. The model does not derive that JavaScript lists integer-like keys in ascending numeric order.
- Rekey.ThreadsMetaIsRekey: the teacher enumeration order is the order of the given list of per-teacher thread lists. It is not derived from `Object.entries`.
- A stored thread without a `messages` field would make `main.js` throw. The stored record type always has messages.
- Passes.RunLettersPass: the letters section is commented out in the main block (lines 262-265). It is modelled on its own, ending with the write at line 275, not followed by the threads section.
- Logging (`console.log`) is left out.
