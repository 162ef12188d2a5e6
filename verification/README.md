# ZIP password cracker: a Dafny model of its core

The application accepts an uploaded ZIP archive with a length range and a choice of character
classes. A background task tries every password over the chosen alphabet, shortest first. It writes
its progress into an in-memory table, `progress_data`, keyed by task id, and a cleanup endpoint
drops entries older than an hour. This project models that core as pure functions and proves what it
does:

- `CharClasses`: the alphabet `generate_passwords` builds. The selected classes are joined in the
  order digits, lower case, upper case, punctuation. When no known class name is present, the
  fallback is digits followed by the ASCII letters.
- `Generator`: the enumeration. It yields every string of each length from the minimum to the
  maximum, in `itertools.product` order. Its numeral and lexicographic characterisations are proved
  here too.
- `Engine`: `crack_zip_password`. Extracting the test entry is an oracle `check` that answers, per
  candidate, `Ok`, `WrongPassword` (standing for `RuntimeError` or `zipfile.BadZipFile`) or
  `OtherError(text)`. The search yields three things:
  - the candidates handed to the archive;
  - the running snapshots written every 100 failures;
  - the terminal snapshot.

  These two Python run-time errors on the way are modelled:
  - a zero estimate makes the first failure divide by zero inside the handler;
  - an error before any failure reads the unbound local `progress`.

  The outer handler turns both into an error snapshot with progress 0.
- `Upload`: the validation of `upload_file`. It is a pure function from the form fields to an
  accepted request or the first rejection reason, checked in the handler's order.
- `Cleanup`: the sweep over `progress_data`, with the clock passed in as a number of milliseconds.

`Wrappers` holds the `Option` type and `Seqs` the no-repeats predicate shared by the alphabet and the enumeration. Where the code's behaviour may be surprising:
- An archive with no entries, or whose first entry name is empty, skips extraction. Its first
  candidate is therefore reported as the password.
- The fallback alphabet has 62 characters.
- The progress estimate counts class names, not characters (see Findings).

## Model

| member | source | states |
|---|---|---|
| CharClasses.Alphabet | app.py:16-30 | the alphabet is never empty; a character is in it exactly when one of the selected classes admits it (digits, letters when nothing known is selected); it lists classes in the order digits, lower, upper, punctuation, each in code-point order |
| CharClasses.AlphabetDetermined | app.py:18-30 | any ordered string with exactly the admitted characters is the alphabet, so membership and class order pin the concatenation down |
| Generator.Words | app.py:33 | no contract of its own: the product of repeat n, specified by Generator.WordsCount, Generator.WordsMembers, Generator.WordsOrder, Generator.WordsPosition, Generator.WordsDistinct and Generator.WordsLexOrdered |
| Generator.Candidates | app.py:32-34 | no contract of its own: the whole enumeration, specified by Generator.CandidatesCount, Generator.CandidatesMember, Generator.CandidatesLengths, Generator.CandidatesDistinct and Generator.CandidatesBlock |
| Generator.WordsCount | app.py:33 | itertools.product over an alphabet of k characters with repeat n yields k^n strings |
| Generator.PrependAt | app.py:33 | one more repeat of the product puts the alphabet's j-th character in front of the k-th shorter string at position j times the shorter count plus k: the left-most position advances slowest |
| Generator.CandidatesCount | app.py:32-34 | the generator yields the sum over the length range of k^L candidates |
| Generator.WordsMembers | app.py:33-34 | the strings of one length are exactly the strings of that length spelled with alphabet characters |
| Generator.WordsOrder | app.py:33-34 | the i-th product string, read as a base-k numeral of alphabet positions, is i: the right-most position advances fastest |
| Generator.WordsPosition | app.py:33-34 | every string of length n over the alphabet occurs in the product, at the position its numeral names |
| Generator.WordsDistinct | app.py:33-34 | over an alphabet without repeats the product repeats no string |
| Generator.WordsLexOrdered | app.py:33-34 | product strings come in lexicographic order with respect to the alphabet's order |
| Generator.ValueLex | app.py:33-34 | a smaller numeral is a lexicographically earlier string of the same length |
| Generator.CandidatesMember | app.py:32-34 | a string is yielded exactly when its length lies in the range and every character is in the alphabet |
| Generator.CandidatesLengths | app.py:32 | every candidate's length lies in the range and lengths never decrease along the sequence |
| Generator.CandidatesDistinct | app.py:32-34 | no candidate is yielded twice |
| Generator.CandidatesBlock | app.py:32-34 | the candidates of length L form one contiguous block, after all shorter ones, equal to the product of length L |
| Generator.SmallExample | app.py:32-34 | over "ab" with lengths 1..2 the sequence is a, b, aa, ab, ba, bb |
| Engine.GeneratedPasswords | app.py:16-34 | generate_passwords yields exactly the strings of an allowed length whose characters the selected classes admit |
| Engine.GeneratedDistinct | app.py:16-34 | generate_passwords never yields a password twice |
| Engine.Estimate | app.py:41-44 | no contract of its own: the as-written estimate, specified by Engine.EstimateCounts and pinned on the default request by Engine.AsWrittenProgressSaturates |
| Engine.EstimateCounts | app.py:41-44 | the as-written estimate is the number of candidates over an alphabet with one character per class name, capped at 1,000,000 |
| Engine.Pct | app.py:76 | the progress value lies in 0..99, equals failures/total*100 below 99, and is 99 exactly when that quotient reaches 99 |
| Engine.PctMonotone | app.py:76 | more failures never give less progress |
| Engine.Loop | app.py:51-110 | no contract of its own: the fold over the candidates, specified by Engine.LoopFinal, Engine.LoopTrail, Engine.LoopTried, Engine.SkipWrong, Engine.FirstMatch, Engine.SuccessIsFirstMatch, Engine.FatalError, Engine.AttemptCap, Engine.Exhausted and Engine.ZeroEstimate |
| Engine.LoopFinal | app.py:51-110 | the loop always ends in a terminal, well-formed snapshot: a password exactly on success, a message exactly on failure or error |
| Engine.LoopTrail | app.py:73-84 | running snapshots come only at positive multiples of 100 failures, with rising counts, never beyond the attempt bound |
| Engine.LoopTried | app.py:51-72 | the candidates handed to the archive are a contiguous run in generator order, and none at all without a test entry |
| Engine.SearchArchive | app.py:46-110 | every snapshot is well formed, the last is terminal, running snapshots stay at most 99 and never decrease, and an unreadable archive ends at once in an error with progress 0 and no attempts |
| Engine.Crack | app.py:36-110 | crack_zip_password as written ends in a terminal, well-formed snapshot with non-decreasing running progress |
| Engine.FirstMatch | app.py:61-72 | if the archive first accepts the n-th candidate within the limit, the result is success with that password, n+1 attempts and progress 100, after trying exactly the candidates up to it |
| Engine.SuccessIsFirstMatch | app.py:51-75 | conversely, a success reports a candidate the archive accepted, every earlier one was a wrong password, and the attempt count is within the limit |
| Engine.SkipWrong | app.py:73-84 | a run of wrong passwords only counts failures and writes the running snapshots due, after which the loop continues unchanged |
| Engine.EmptyArchive | app.py:49-72 | with no usable entry name, extraction is skipped and the first candidate is reported as the password after one attempt |
| Engine.FatalError | app.py:86-101 | any other extraction error stops the search: after n>0 failures with the last progress and n+1 attempts and the error text; before any failure the unbound progress sends it to the outer handler |
| Engine.AttemptCap | app.py:52-59 | after 1,000,000 wrong passwords with candidates left, the search fails with the limit message, having tried exactly the first 1,000,000 candidates |
| Engine.Exhausted | app.py:104-110 | when every candidate is wrong and there are at most 1,000,000 (none at all even with a zero estimate, as after min > max), the search fails with the not-found message, attempts equal to the number of candidates and every candidate tried |
| Engine.ZeroEstimate | app.py:73-76 | with a zero estimate the first wrong password divides by zero and the outer handler reports it |
| Engine.Reports | app.py:78-84 | no contract of its own: the running snapshots between two failure counts, specified by Engine.ReportsSchedule |
| Engine.ReportsSchedule | app.py:78-84 | between failure counts i and n there are exactly n/100 - i/100 running snapshots, the k-th at the (i/100+k+1)-th multiple of 100 |
| Engine.TrailMonotone | app.py:76-84 | running snapshots are well formed, at most 99, and their progress never goes down |
| Engine.DefaultRequestSpace | app.py:139-140 | the default classes give the 36-character alphabet of digits and lower case, and lengths 1..4 give 1,727,604 candidates |
| Engine.AsWrittenProgressSaturates | app.py:42-44 | as written, the default request's estimate is 30, so the first running snapshot (100 failures) already reads 99; with the intended estimate it reads 0.01 |
| Engine.EmptyClassListDividesByZero | app.py:42-43 | as written, an empty class list searches 62 candidates but estimates 0, so the first failure ends in a division-by-zero error; with the intended estimate it fails with not-found after 62 attempts |
| Engine.IntendedEstimate | app.py:41-44 | the corrected estimate is the number of candidates the search can make, capped at 1,000,000 |
| Engine.CrackIntended | app.py:41-44 | with the corrected estimate every running snapshot reports a failure count within the estimate and the exact percentage of it (held at 99) |
| Engine.NoZeroDivision | app.py:73-76 | with a positive estimate the loop never ends in the division-by-zero error |
| Engine.IntendedNeverDividesByZero | app.py:76 | with the corrected estimate no opened archive ends in the division-by-zero error, whatever class names are given |
| Upload.Validate | app.py:119-147 | a request is accepted exactly when it names a non-empty file ending in .zip (any case) and 1 <= min <= max <= 8; each rejection holds exactly when the earlier checks pass and its own fails; an accepted request carries the ticked class names, or numeric and lowercase when none is ticked, each at most once, so the list's length is the number of requested classes |
| Upload.ZipNameIgnoresCase | app.py:126 | the extension test accepts exactly names ending in a dot, z, i and p, each letter in either case |
| Upload.DefaultUploadSaturates | app.py:42-44 | the upload form (app.py lines 130-140) with a ZIP name and nothing else is accepted with lengths 1..4 and two class names, and as written its first running snapshot (100 failures) reads 99; with the intended estimate it reads 0.01 |
| Upload.AcceptedIsSearchable | app.py:139-147 | an accepted request has 1 <= min <= max <= 8, at least one known class name, and a positive estimate, so the upload path never reaches the zero-estimate error |
| Cleanup.Retained | app.py:187-193 | no contract of its own: the reference table of entries at most an hour old, which Cleanup.Sweep computes and Cleanup.LaterSweepSubsumes reasons about |
| Cleanup.Sweep | app.py:182-195 | the sweep keeps exactly the entries at most an hour old, with their values, and returns the number of entries removed |
| Cleanup.ExpiredMatchesSeconds | app.py:189 | the millisecond comparison agrees with the source's comparison in seconds |
| Cleanup.LaterSweepSubsumes | app.py:187-193 | sweeping again at the same time removes nothing, and a later sweep of a swept table equals a single later sweep |

## Left out

- The HTTP layer is not modelled: Flask routes, JSON responses, status codes, the index page and `get_progress`. `get_progress` is a plain lookup in the progress table.
- Saving the upload to the temporary directory, and extracting into it, are left out. Extraction is the `check` oracle.
- Threads are left out, along with the race between the background thread and the initial running snapshot `upload_file` writes after starting it. Each search is a function of its inputs; the snapshots it writes are returned in order.
- `time.time()` is left out. The task id, and the time a sweep runs, are integers of milliseconds passed in.
- Cleanup.Sweep: the clock is a whole number of milliseconds, not a float of seconds, and task ids are integers, not decimal strings. A non-numeric id, which would raise in `int(task_id)`, is not modelled.
- Engine.Pct: progress is a real number, not a binary float, so rounding in `/` and `* 100` is not modelled.
- Upload.Validate: the length fields arrive already parsed as integers. A value `int()` rejects with a `ValueError` (an unhandled 500 in the source) is not modelled.
- Upload.Validate: `lower()` is modelled on ASCII letters only. Other Unicode case mappings that could produce ".zip" are not modelled.
- Engine.Crack: the length bounds are natural numbers, which the only call site guarantees (`upload_file` passes 1 <= min <= max). A direct call with a negative `min_length` is not modelled. When `max_length >= min_length`: with class names, `itertools.product` raises `ValueError` ("repeat argument cannot be negative") on the first candidate, and the outer handler writes it as an error with progress 0; with an empty class list, `0 ** -1` raises `ZeroDivisionError` in the estimate, outside the `try`, so no snapshot is written and the thread dies. When `max_length < min_length`, both ranges are empty: the estimate is 0, nothing is tried, and the search ends not-found with 0 attempts.
- Engine.SearchArchive: the same natural-number length bounds as Engine.Crack.
- Engine.FatalError: the text of the `UnboundLocalError` follows CPython 3.11. Other versions word it differently.
- The oracle stands for any archive behaviour. The model therefore does not say which passwords a real ZIP archive accepts.

## Findings

| source | as written | input that shows it | evidently intended | confidence | as-written member | corrected member |
|---|---|---|---|---|---|---|
| app.py:42-44 | the progress estimate raises the number of class names (`len(char_set)`) to each length, not the number of characters | the upload's default request (numeric and lowercase, lengths 1..4) estimates 30 of 1,727,604 candidates, so the first running snapshot after 100 failures reads 99 and progress stays there | the estimate is the number of candidates the generator yields, capped at 1,000,000, so progress after 100 failures reads 0.01 | high; not executed | Upload.DefaultUploadSaturates | Engine.CrackIntended |
| app.py:42-43, 76 | with an empty class list and `min_length >= 1` the estimate is 0 (with `min_length = 0` the term `0 ** 0` makes it at least 1), while the generator falls back to 62 characters | `crack_zip_password` called with `char_set=[]`, lengths 1..1, and a wrong-password archive: the first failure evaluates `1 / 0`, and the task ends as "Error processing ZIP file: division by zero" | the search runs over the fallback alphabet and fails with the not-found message after 62 attempts | medium, not executed; only callers other than `upload_file` reach it, since the upload always passes a non-empty list (Upload.AcceptedIsSearchable) | Engine.EmptyClassListDividesByZero | Engine.IntendedNeverDividesByZero |
