# SpawnerPool reconciler, modelled in Dafny

`agentspawner/daemon.py` runs a reconcile loop. The loop keeps the number of
Resalloc tickets the spawner owns equal to a desired count, which an external
`hook-converge-to` script prints. Each cycle works in three steps:

1. It reads the desired count, retrying the hook until one run exits 0 and prints an integer.
2. It compares that count with the length of `self.tickets`. Then it either
   `start`s the missing tickets or `try_to_stop`s the surplus. A `take` hook
   provisions each new ticket; a `release` hook must succeed before a ticket is closed.
3. It sleeps out the rest of a 30-second period.

The model has four modules:

- `Wrappers`: the `Option` type.
- `PyText`: the parts of Python text handling the hook reading depends on.
  - `bytes.decode("utf-8")` with strict errors, and its inverse `str.encode`.
  - `str.strip()` with the `str.isspace()` whitespace set.
  - `int()` on a literal: an optional sign, ASCII digits, and single underscores between digits; more than 4300 digits raise ValueError, as `sys.get_int_max_str_digits()` sets by default.
  - `str(n)`.
- `Hooks`: how each hook's exit status and output become a value.
  - `call_converge_to` reads a count from only some runs. `Readings` lists what each run yields, and `FirstCount` picks the count that is returned.
  - `call_take` raises `CalledProcessError` on a nonzero exit. Otherwise it returns `not CompletedProcess`, which is always `False`.
  - `call_release` returns `not returncode`.
- `Pool`: the `SpawnerPool` class.
  - Its `tickets` field is `self.tickets`.
  - Its `calls` field logs every call into the broker and the hooks, in order. This log is how the model states what `start` and `try_to_stop` did outside the list.
  - The methods `CallConvergeTo`, `Start`, `TryToStop`, `Reconcile` and `RunCycle` are imperative, like the source.
  - Each method is proved against a specification function (`FirstCount`, `StartedIds`/`StartCalls`, `Walk`, `CycleTickets`/`CycleCalls`), and the lemmas next to each function state what the source promises.

The broker and the hooks are oracles passed in as parameters:

- `issue: nat -> TicketId`: the id the broker gives the j-th `newTicket` of a `start` call. It must be injective, and its ids must be disjoint from the list.
- `Env`: the payloads `wait()` and `collect()` return, and the exit status of the take or release hook run for a ticket on its payload.
- `attempts`: the successive runs of the converge-to hook.
- `started` / `finished`: the clock readings around one cycle.

Two behaviours of the source are easy to miss:

- **`try_to_stop` skips tickets.** It walks `self.tickets` with a `for` loop and calls `self.tickets.remove` inside that loop. Python's list iterator is index-based, so the ticket after a removed one slides into the freed slot and is never visited in that call.
  - `Walk` captures this exactly. `WalkSkipsSuccessor` and `WalkAllReleased` state it.
  - Take ids 1 to 5, releases failing for 1 to 3, and `try_to_stop(3)`. One might expect 4 and 5 to go. The source removes only 4, because 5 slides into the freed slot and is never visited: see `SkipScenario`.
  - When every release succeeds, only every other ticket goes: `min(to_stop, ceil(n/2))` of them.
- **A failed `take` leaves its ticket in the list.** `start` appends each id before `wait()` and the take hook. When a take fails, the exception leaves with the failing id already in the list: see `Start` and `StartedIdsEffect`.

## Model

| member | source | states |
|---|---|---|
| PyText.DecodeEncode | agentspawner/daemon.py:38 | decoding the UTF-8 encoding of any text gives that text back (`bytes.decode` inverts `str.encode`) |
| PyText.EncodeDecode | agentspawner/daemon.py:38-39 | the strict direction: whatever bytes the decoder accepts are exactly the encoding of the text it yields, so overlong forms, surrogates, values above U+10FFFF and truncated sequences raise |
| PyText.DecodeIsEncodeInverse | agentspawner/daemon.py:38-39 | `decode` yields `s` exactly when the bytes are the encoding of `s` |
| PyText.StripPadded | agentspawner/daemon.py:38 | `strip()` removes any whitespace around a text that neither starts nor ends with whitespace, and nothing else |
| PyText.ParseIntCorrect | agentspawner/daemon.py:37-40 | the model of `int()` succeeds exactly on integer literals (sign, digit groups joined by single underscores, at most 4300 digits), and then yields the signed decimal value of the digits |
| PyText.DigitLimit | agentspawner/daemon.py:38-40 | a string of more than 4300 digits is refused (`int()` raises ValueError) |
| PyText.ParseRender | agentspawner/daemon.py:38 | `int(str(n)) == n` for every integer of at most 4300 digits (beyond that `str(n)` raises too) |
| Hooks.StdoutValueOfPrintedNumber | agentspawner/daemon.py:38 | a hook that prints a number of at most 4300 digits, with any whitespace around it, is read as that number |
| Hooks.LongNumberScenario | agentspawner/daemon.py:36-40 | a run that exits 0 printing more than 4300 digits yields no count: the ValueError is swallowed and the loop retries |
| Hooks.StdoutValueCharacterization | agentspawner/daemon.py:37-40 | a run's output yields a count exactly when it is valid UTF-8 whose stripped text is an integer literal of at most 4300 digits; otherwise the ValueError is swallowed |
| Hooks.FailedAttemptIgnored | agentspawner/daemon.py:36 | a run with a nonzero exit status yields no count, whatever it prints |
| Hooks.ReadingAt | agentspawner/daemon.py:35-38 | the j-th reading is what the j-th run of the hook yields |
| Hooks.FirstCountIsFirst | agentspawner/daemon.py:34-42 | a count is returned exactly when some run yields one, and it is the count of the first such run |
| Hooks.FirstCountNone | agentspawner/daemon.py:34-42 | no count is returned exactly when no run yields one (the source then keeps retrying) |
| Hooks.LettersAreNotACount | agentspawner/daemon.py:37-40 | output `abc` decodes but does not parse, so it yields no count |
| Hooks.RetryScenario | agentspawner/daemon.py:34-42 | after a nonzero exit and then an `abc` output, a run printing `3` yields 3, and 3 is returned |
| Hooks.NewlineScenario | agentspawner/daemon.py:38 | output `7\n` with exit 0 yields 7 |
| Hooks.UndecodableScenario | agentspawner/daemon.py:37-40 | the undecodable output byte 0xFF is a failed run, not a crash |
| Hooks.TakeResult | agentspawner/daemon.py:44-48 | `call_take` raises `CalledProcessError` carrying the exit status exactly when that status is nonzero; otherwise it returns False |
| Hooks.ReleaseResult | agentspawner/daemon.py:50-55 | `call_release` reports success exactly when the exit status is 0 |
| Pool.SpawnerPool.constructor | agentspawner/daemon.py:25-30 | a new spawner owns no tickets and has made no calls |
| Pool.SpawnerPool.RunConvergeHook | agentspawner/daemon.py:35-40 | one run yields the count its output parses to when it exits 0, and None when it exits nonzero or `int()` raises ValueError |
| Pool.SpawnerPool.CallConvergeTo | agentspawner/daemon.py:32-42 | the loop returns the first count any run yields, after exactly the runs up to and including that one; when no run yields one, it uses up every run and returns None |
| Pool.FirstTakeFailure | agentspawner/daemon.py:60-65 | the index of the first new ticket whose take hook fails: every earlier take succeeds, and this one fails unless it is the end |
| Pool.Added | agentspawner/daemon.py:57-65 | `start(count)` adds at most `max(count, 0)` tickets; fewer only when the last one added failed its take, and every take before it succeeded |
| Pool.StartedIdsEffect | agentspawner/daemon.py:57-65 | without a raise, every requested ticket is added; with a raise, the list ends with the ticket whose take failed; every earlier new ticket was taken |
| Pool.SpawnerPool.Start | agentspawner/daemon.py:57-65 | `start` raises exactly when some take fails, with that ticket's exit status; the list grows by exactly the tickets requested up to that point, in order; the log holds request, wait and take for each; ids stay distinct |
| Pool.WalkBudget | agentspawner/daemon.py:73-87 | `try_to_stop` never removes more tickets than asked, and its tally counts exactly the tickets removed |
| Pool.WalkKeepsOrder | agentspawner/daemon.py:74-87 | the tickets kept are the original list with some deleted, in the original order |
| Pool.WalkCallsMention | agentspawner/daemon.py:78-85 | every collect and close targets a ticket of the list |
| Pool.WalkRemovesOnlyReleased | agentspawner/daemon.py:79-87 | a removed ticket was released and closed |
| Pool.WalkKeepsUnreleased | agentspawner/daemon.py:80-82 | a ticket whose release fails is never removed |
| Pool.WalkClosedAreRemoved | agentspawner/daemon.py:84-86 | with distinct ids, every ticket closed is gone from the list |
| Pool.WalkSkipsSuccessor | agentspawner/daemon.py:74-87 | with distinct ids, the ticket right after a removed one stays and is never collected in that call, so it is not visited at all |
| Pool.WalkAllReleased | agentspawner/daemon.py:74-87 | when every release succeeds, `min(to_stop, ceil(n/2))` tickets are removed |
| Pool.StopEffect | agentspawner/daemon.py:67-87 | a call keeps a subsequence of the list, removes at most `to_stop` tickets, and does nothing when there is nothing to stop or no ticket |
| Pool.SkipScenario | agentspawner/daemon.py:74-87 | ids 1 to 5, releases failing for 1 to 3, `try_to_stop(3)`: only 4 goes, and 1, 2, 3, 5 are kept |
| Pool.SpawnerPool.TryToStop | agentspawner/daemon.py:67-87 | the index-based walk with in-loop `remove` leaves exactly the list and the call log that `Walk` describes; ids stay distinct |
| Pool.SleepDuration | agentspawner/daemon.py:105-109 | the loop sleeps until one period after the cycle began, or not at all when the cycle took the whole period or longer |
| Pool.CycleEffect | agentspawner/daemon.py:97-101 | a deficit is made up exactly unless a take fails (and the old list is a prefix of the new one); a surplus leaves a subsequence holding at least the desired number; a match changes nothing and makes no calls |
| Pool.SpawnerPool.Reconcile | agentspawner/daemon.py:97-109 | once the count is known, the cycle starts the deficit, stops the surplus or does nothing, as `CycleTickets`/`CycleCalls` say; it raises exactly when `start` raises; otherwise it sleeps `SleepDuration` |
| Pool.SpawnerPool.RunCycle | agentspawner/daemon.py:95-109 | one cycle reads the first count the hook yields and then acts as `Reconcile`; when no run yields a count, nothing changes |

## Left out

- Running the subprocesses. Each hook is represented by its exit status, plus stdout for the converge-to hook.
- The Resalloc client (`newTicket`, `wait`, `Ticket(...)`, `collect`, `close`). These calls become the oracles `issue` and `Env` and entries in the `calls` log. Errors these calls might raise are not modelled.
- `loop`'s `while True`. One cycle is modelled (`RunCycle`); the infinite repetition is not.
- `time.time()` and `time.sleep`. Clock readings are integer parameters, not floats. The sleep is the value a cycle returns.
- CallConvergeTo: the source retries the hook forever. The model is given a finite sequence of runs, and returns None when none of them yields a count.
- `int()` of the model accepts ASCII digits only. Python also accepts other Unicode decimal digits (category Nd).
- ParseInt: the digit limit is fixed at the default of 4300. A limit changed through `PYTHONINTMAXSTRDIGITS` or `-X int_max_str_digits` is not modelled, nor a Python release older than the limit, which converts any length.
- Logging calls, and `_main` with its connection setup.
- Persistence of the ticket list across restarts. The source does not have it either: it is a TODO.
- Checking whether tickets are in the FAILED state: a TODO in the source.
- `resallocwebui/app.py` and `setup.py` are not part of this model.
