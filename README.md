# Sentence-ordered speech playback of a streaming voice assistant

This project models the ordering pipeline of `assistant.py`, a voice
assistant that speaks a streamed chat reply sentence by sentence. It also
proves properties of that model.

- **Segmenter and ticket counter.** On every text delta, the event handler
  checks whether the delta is a lone sentence terminator (`\n`, `.`, `!`,
  `?`). If it is, the handler splits the whole reply snapshot on those four
  characters and drops the empty pieces. The last remaining piece becomes
  the finished sentence. It goes to a speech thread under the global
  ticket `speech_order_ticket`, and the ticket is then incremented.
- **Speech file naming.** The speech thread writes
  `speech_<timestamp>_<ticket>.mp3` and starts a play thread.
- **Playback gate.** Each play thread polls the global cursor
  `speech_order_to_be_played`. When its ticket is not past the cursor, it
  plays the file if the file exists and deletes it if its name contains
  `speech`. It then advances the cursor by one and returns. Otherwise it
  sleeps. It gives up after 1200 sleeps (120 s / 0.1 s). The 1200 is exact:
  `120 / 0.1` is `1200.0` in double arithmetic.
- **Thread list.** `active_threads` collects the started threads. It is
  emptied after they have all been joined.

The files:

- `wrappers.dfy`: an `Option` type.
- `segmenter.dfy` (module `Segmenter`): the split, the filter and the last
  sentence, as pure functions. It proves:
  - the split is the unique decomposition at the terminators, and joining
    the pieces gives the snapshot back;
  - the last sentence is the snapshot's final terminator-free run.
- `naming.dfy` (module `Naming`): decimal rendering of the ticket, the file
  name, the substring test and the disposal rule.
- `playback.dfy` (module `Playback`): the gate as a state value `Gate`, with
  one function per atomic step and the order-preservation lemmas. Class
  `Sequencer` holds the shared state and updates it in place, with each
  method tied to the step function.
- `pipeline.dfy` (module `Pipeline`): the delta handler and class
  `Assistant`, which holds the module-level globals. `Assistant.Valid()`
  states the whole-program invariant:
  - tickets handed out are exactly `0 .. ticket-1`;
  - tickets in flight are distinct and not behind the cursor;
  - files have passed the gate in ticket order `0, 1, ..., cursor-1`.

  Every method keeps `Valid()`.

Concurrency is abstracted. A play thread inside its wait loop is a `Waiter`
with its own `sleep_count` in the gate. One `Poll` event is one atomic
iteration of that loop. Any interleaving of threads is an arbitrary,
caller-chosen sequence of `Enter`/`Poll` events (`Playback.Run`,
`Sequencer.RunEvents`). Python's exception from `trimed_list[-1]` is the
`NoSentence` emission: the counter is not incremented, because the
exception comes before line 67.

Three behaviours of the code are easy to miss; the model keeps them:

- **Tickets and cursor are never reset.** Neither `speech_order_ticket`
  nor `speech_order_to_be_played` is reset between turns; only
  `active_threads` is emptied (line 143). `Assistant` keeps both counters
  across turns.
- **A missing predecessor stalls the gate for good.** The cursor only moves
  when the thread holding the cursor's ticket passes. If that thread timed
  out, its synthesis failed, or its `playsound`/`os.remove` raised inside
  the lock, every later ticket waits out its own 1200 polls and gives up
  (`Playback.StallWithoutCursorTicket`, `Playback.FaultStallsGate`).
- **The trigger is a delta equal to one terminator.** A longer delta that
  contains a terminator does not trigger. On a trigger the whole snapshot is
  re-split, and a trailing fragment without a terminator is never spoken.
  As a consequence, a terminator right after a terminator speaks the
  previous sentence again under a new ticket (`Segmenter.RepeatedTerminator`,
  `Pipeline.SentenceEmittedTwice`).

## Model

| member | source | states |
|---|---|---|
| `Segmenter.IsSentenceEnd` | assistant.py:60 | the trigger holds exactly when the delta is one character long and that character is one of `.`, `!`, `?`, newline; a longer delta containing a terminator does not trigger |
| `Segmenter.Split` | assistant.py:62 | `re.split` yields one more piece than the snapshot has terminators, and no piece contains a terminator |
| `Segmenter.JoinSplit` | assistant.py:62 | putting the terminators back between the pieces gives the snapshot back (round trip) |
| `Segmenter.SplitUnique` | assistant.py:62 | any decomposition of a string into terminator-free pieces separated by terminators is the split: the split is determined by these two properties |
| `Segmenter.NonEmptyPieces` | assistant.py:63 | every kept piece is non-empty, and a string is kept exactly when it is a non-empty piece |
| `Segmenter.NonEmptyPiecesIsFilter` | assistant.py:63 | the comprehension is the filter: the kept list is the non-empty pieces in their original order, each exactly once, located by an increasing index list that covers every non-empty piece |
| `Segmenter.LastKeptIsLastNonEmpty` | assistant.py:63-64 | nothing is kept exactly when every piece is empty; otherwise `trimed_list[-1]` is the non-empty piece after which only empty pieces follow |
| `Segmenter.LastSentence` | assistant.py:63-64 | a sentence taken is non-empty, free of terminators and one of the split's pieces; `None` stands for the failing index |
| `Segmenter.NoSentenceIff` | assistant.py:63-64 | there is no piece to take (the index raises) exactly when every character of the snapshot is a terminator, the empty snapshot included |
| `Segmenter.LastSentenceIsFinalRun` | assistant.py:62-64 | both directions: the sentence taken is the snapshot's final run, i.e. a terminator-free run that starts the string or follows a terminator and is followed only by terminators; such a run is always the sentence taken |
| `Segmenter.RepeatedTerminator` | assistant.py:60-64 | appending a terminator to a snapshot leaves the sentence taken unchanged, so consecutive terminators re-emit the same sentence |
| `Naming.NatToString` | assistant.py:101 | `str(speech_order)` is a non-empty string of decimal digits without a leading zero |
| `Naming.ParseNatToString` | assistant.py:101 | reading the rendered digits back yields the ticket (round trip) |
| `Naming.ContainsIff` | assistant.py:122 | the recursive substring test holds exactly when `speech` occurs at some index of the name (both directions) |
| `Naming.PlayAudioFile` | assistant.py:132-137 | outside the gate, a file is played exactly when it exists and deleted exactly when it exists and its name contains `speech` |
| `Naming.SpeechFileName` | assistant.py:101 | the name starts with `speech_`, then the timestamp, `_`, the ticket's decimal digits, and ends with `.mp3` |
| `Naming.IsDisposable` | assistant.py:122 | the disposal test `'speech' in file_name` (also used by `play_audio_file`, line 136) holds exactly when `speech` occurs somewhere in the name |
| `Naming.SpeechFilesAreDisposable` | assistant.py:122-123 | every synthesised name `speech_<timestamp>_<ticket>.mp3` passes the deletion test, so a played speech file is removed |
| `Naming.NotificationIsKept` | assistant.py:136-137 | `notification.wav` is played but not removed |
| `Naming.SpeechFileNameUnique` | assistant.py:101 | for timestamps of the clock's fixed width, equal file names imply equal timestamps and equal tickets |
| `Playback.MaxSleepCountIsWaitingLimit` | assistant.py:110-112 | the poll bound `Playback.MaxSleepCount` is the number of 0.1 s sleeps in 120 s, 1200 (`120 / 0.1` is exactly `1200.0` in double arithmetic) |
| `Playback.EnterGate` | assistant.py:106-113 | a play thread starting its wait loop changes neither the cursor nor the log; the waiting threads are the old ones, unchanged, followed by this file and ticket with `sleep_count = 0` |
| `Playback.PollGate` | assistant.py:116-129 | one loop iteration keeps the gate well formed (one log entry per cursor advance, every waiting thread below the sleep limit), never moves the cursor back and only appends to the log |
| `Playback.Apply` | assistant.py:106-129 | a thread start or one loop iteration keeps the gate well formed; the cursor never moves back and passages are never undone |
| `Playback.Run` | assistant.py:106-129 | over any interleaving the gate stays well formed, the cursor never moves back and the log of passages only grows |
| `Playback.RunAppend` | assistant.py:115-129 | running two interleavings one after the other is running their concatenation |
| `Playback.PollAdvancesOnlyOnRelease` | assistant.py:117-126 | an iteration that passes the gate has a ticket not past the cursor; it advances the cursor by exactly one, logs one passage, and plays and deletes only as the disposal rule says; any other iteration changes neither cursor nor log; an iteration faults exactly when a thread not past the cursor finds its file and playing or removing it raises |
| `Playback.PollAtCursorReleases` | assistant.py:116-126 | conversely, a thread whose ticket is not past the cursor and whose play does not raise does pass: the cursor advances by one even when the file is missing, the passage is logged with the disposal result, and only that thread leaves the waiting list; a fault removes only that thread and changes nothing else; a poll naming no waiting thread changes nothing |
| `Playback.PollAheadOnlyCounts` | assistant.py:127-129 | an iteration with a ticket past the cursor only counts one sleep; the thread stays waiting while the count is below 1200 and has left after its 1200th sleep |
| `Playback.TimeoutAfterMaxPolls` | assistant.py:110-116 | a thread whose ticket never comes up is gone after its remaining allowed polls, having played, deleted and advanced nothing |
| `Playback.PollKeepsOrder` | assistant.py:117-124 | under the ordering invariant, a thread passes the gate only with exactly the cursor's ticket, and the invariant holds afterwards |
| `Playback.EnterKeepsOrder` | assistant.py:106-113 | a thread entering with a ticket that is neither behind the cursor nor already waiting keeps the ordering invariant |
| `Playback.RunKeepsOrder` | assistant.py:115-126 | every interleaving of atomic iterations and thread starts with fresh tickets keeps the ordering invariant |
| `Playback.PlaysInTicketOrder` | assistant.py:115-126 | order preservation: from program start, in any interleaving in which each ticket enters once, files pass the gate in ticket order 0, 1, 2, ..., with one passage per cursor value, and the `k`-th passage is the file that entered with ticket `k` |
| `Playback.OutOfOrderStartsPlayInOrder` | assistant.py:106-126 | play threads that start with tickets 2, 0, 1 and are polled once each when the cursor reaches them really play, as tickets 0, 1, 2, each with its own file, and the cursor ends at 3 with no thread left waiting |
| `Playback.RunTraced` | assistant.py:106-126 | every waiting thread and every passage, after any interleaving, carries the file and ticket of one of the thread starts |
| `Playback.StallWithoutCursorTicket` | assistant.py:116-129 | no skip-forward: while no thread holding the cursor's ticket waits or enters, no interleaving moves the cursor or plays anything |
| `Playback.FaultStallsGate` | assistant.py:118-125 | when `playsound` or `os.remove` raises for the thread holding the cursor's ticket, the cursor is not advanced, and while no thread enters with a ticket not past the cursor no interleaving moves the cursor or plays anything |
| `Playback.Sequencer.constructor` | assistant.py:33 | the cursor starts at 0, with no thread waiting and nothing played |
| `Playback.Sequencer.Enter` | assistant.py:106-113 | the new state is `EnterGate` of the old one |
| `Playback.Sequencer.Poll` | assistant.py:116-129 | the outcome and the new state are `PollGate` of the old state, the fault path included; the gate stays well formed |
| `Playback.Sequencer.RunEvents` | assistant.py:115-129 | after a caller-chosen interleaving, the state is `Run` of the old state over those events |
| `Pipeline.HandleDelta` | assistant.py:57-67 | a delta that is not a lone terminator emits nothing; an emitted sentence carries the current ticket and is non-empty and free of terminators |
| `Pipeline.HandleSentenceEnd` | assistant.py:60-64 | on a lone terminator, the handler raises exactly when the snapshot is all terminators (both directions); otherwise it emits the snapshot's final run under the current ticket |
| `Pipeline.NextTicket` | assistant.py:67 | the counter grows by one exactly when a sentence was emitted, and otherwise stays |
| `Pipeline.HandleStream` | assistant.py:57-67 | feeding a reply's deltas in order emits at most one sentence per delta, each non-empty and free of terminators; a run can raise only on some delta |
| `Pipeline.StreamTicketsDense` | assistant.py:60-67 | over a streamed reply, the emitted sentences carry consecutive tickets starting at the counter's value; the counter ends one past the last ticket; without an exception there is one sentence per lone-terminator delta |
| `Pipeline.SentenceThenTerminators` | assistant.py:62-64 | a non-empty terminator-free sentence followed only by terminators is the sentence taken from the snapshot |
| `Pipeline.StreamOfThree` | assistant.py:60-67 | a non-trigger delta followed by two emitting deltas yields exactly those two sentences, the second under the next ticket |
| `Pipeline.SentenceEmittedTwice` | assistant.py:60-67 | any non-empty terminator-free sentence followed by two lone-terminator deltas is spoken twice, under two consecutive tickets |
| `Pipeline.LeadingNewlineRaises` | assistant.py:62-64 | a reply whose first delta is a newline makes the handler raise, with nothing emitted and the counter unchanged |
| `Pipeline.Assistant.constructor` | assistant.py:29-33 | ticket 0, cursor 0, no threads, and the whole-program invariant holds |
| `Pipeline.Assistant.OnTextDelta` | assistant.py:57-70 | the emission is `HandleDelta` of the old counter; only an emission increments the counter and starts a speech thread; the invariant, including dense tickets from 0, is kept |
| `Pipeline.Assistant.TextToSpeech` | assistant.py:86-93 | the file is named `speech_<timestamp>_<ticket>.mp3`, and a play thread for it enters the gate with the sentence's ticket; ordering is kept |
| `Pipeline.Assistant.SynthesisFails` | assistant.py:86-87 | a speech thread that raises only disappears: no play thread starts and the gate is untouched |
| `Pipeline.Assistant.PlayStep` | assistant.py:116-129 | one atomic iteration of a play thread, possibly faulting, is `PollGate`, and the whole-program invariant is kept |
| `Pipeline.Assistant.WaitForThreads` | assistant.py:139-143 | once every thread has finished, the thread list is emptied; the ticket counter and the cursor are not reset |

## Left out

- The OpenAI client is left out: thread and message creation, run
  streaming and the speech call. These are network calls into a library
  that is not part of this model. A streamed reply is an explicit sequence
  of deltas (`Pipeline.HandleStream`), and the speech call's file write
  happens before `TextToSpeech`.
- `get_now` (wall clock, time zone) is left out. The timestamp is a
  parameter.
- `playsound`, `os.path.isfile` and `os.remove` are not modelled as real
  file I/O. File existence and whether playing or removing raises are
  parameters of each poll, and what playing does is the logged
  `PlayResult`.
- Playback.PollGate: after a fault the lock stays held for good, and the
  gate does not record this. `FaultStallsGate` shows that no thread reaches
  the lock again while tickets are not re-entered. A faulted passage is not
  logged, even when the sound had already played before `os.remove` raised.
- Threads, locks, `time.sleep` and `t.join` are not modelled as such. Each
  loop iteration is one atomic step, and interleavings come from the
  caller. The sleep is modelled only as the poll count.
- Pipeline.Assistant.WaitForThreads: the blocking `join` becomes a
  precondition that no thread is still running.
- Playback.Sequencer.Poll: the ticket check outside the lock is treated as
  part of the atomic step. Under the ordering invariant only the thread
  holding the cursor's ticket can pass the check, so the race cannot
  reorder plays.
- What happens after the handler raises is left out. The streaming library
  decides that, and `HandleStream` stops at the first exception.
- Microphone capture, Whisper transcription, `dotenv`, console printing
  and the tool-call handlers are left out. They are I/O and user
  interface.
- The unused `sentence_number` is left out. It is computed but never read.
