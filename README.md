# Student Finance AI — a Dafny model of the expense list and the model fallback

The app is a single Streamlit script, `app.py`. It keeps a list of expenses in
the session state, lets the student add rows through a form, and asks a
Gemini model for saving tips. It tries a fixed list of candidate models in
order and falls back past unavailable ones. This project models the two parts
of the script that carry logic:

- **The expense list** (`ledger.dfy`, module `Ledger`). The class
  `Session` holds whether the `expenses` key exists and the list itself:
  - `Init` is the guarded initialisation that runs at the top of every script
    run;
  - `Submit` is the "Add to List" form, which appends only when the form was
    submitted with a non-empty description;
  - `Clear` is the "Clear All" button.

  Each method states its whole new state. The invariant `Valid` says every
  stored row has an amount of at least 1, a non-empty description and a
  ten-character date. The date is stored as Python's `str(date)`, which
  `dates.dfy` (module `Dates`) models as ISO `YYYY-MM-DD` text. The proved
  properties are that the text has digits in the right places, the
  year, month and day read back from it, and two dates never share a text.
- **The fallback loop** (`fallback.dfy`, module `Fallback`; `text.dfy`,
  module `Text`, for Python's substring test `"404" in s`). `TryModels` is
  the `for` loop over the candidates. The generator is an oracle: the
  sequence `replies` holds, for each candidate, either its answer or the text
  of the exception it raised. `TryModels` is proved equal to the declarative
  specification `Expected`, which is written in terms of the first reply that
  ends the run (`StopIndex`). The lemmas about `Expected` state what the
  script promises:
  - the candidates are tried in order, and only up to the first one that ends
    the run;
  - a 404 is skipped silently, and a 429 is skipped with one warning naming
    the candidate;
  - any other error stops the loop;
  - "success" holds exactly when some candidate answered;
  - the closing "all unavailable" error is shown exactly when no invoked
    candidate answered.

Three behaviours of the script are easy to miss:

- after an unexpected error the loop breaks with `success` still false, so
  the "all unavailable" error is shown too (`ExpectedAborted`);
- the unexpected-error message puts `Unexpected error with <model>: ` before
  the exception text (`Render`);
- "Clear All" empties the expense list and nothing else.

## Model

| member | source | states |
|---|---|---|
| Ledger.Session.constructor | app.py:22 | a fresh session has no `expenses` key and satisfies the row invariant |
| Ledger.Session.Init | app.py:22-23 | after the run's first lines the key exists; an existing list is kept unchanged, a missing one becomes empty |
| Ledger.Session.Submit | app.py:28-43 | a row is added exactly when the form was submitted with a non-empty description; it is appended at the end, with the date as its ISO text, the amount and the description; otherwise the list is unchanged; every row stays well formed |
| Ledger.Session.Clear | app.py:88-89 | available only under a non-empty list (the guard at line 47); afterwards the list is empty and the key still exists |
| Dates.DaysInMonth | app.py:31 | a month of a calendar date has 28 to 31 days, and 29 exactly in February of a leap year |
| Dates.Pad | app.py:40 | zero-padding gives exactly `w` digits whose decimal value is the number |
| Dates.IsoFormat | app.py:40 | `str(date)` is ten characters with `-` at positions 4 and 7 and digits elsewhere, and the year, month and day read back from their fields |
| Dates.IsoFormatInjective | app.py:40 | two valid dates with the same text are the same date, so a stored row determines its date |
| Text.Contains | app.py:75-78 | Python's `sub in s`: a text contains only substrings no longer than itself, and contains each of its prefixes |
| Text.ContainsExtended | app.py:75-78 | a substring stays a substring when text is added on either side |
| Fallback.Classify | app.py:73-83 | an error is "not found" exactly when its text contains "404"; it is a rate limit exactly when it contains "429" and no "404"; anything else is an unexpected error, and only a text of at least three characters can be anything but that |
| Fallback.EmbeddedNotFound | app.py:73-76 | any error text that contains "404" is treated as "not found" |
| Fallback.NotFoundWinsOverRateLimited | app.py:75-78 | "404" is checked first, so it wins even over an earlier "429" in the same text |
| Fallback.EmbeddedRateLimited | app.py:77-80 | an error text that contains "429" and no "404" is treated as a rate limit |
| Fallback.LoneRateLimited | app.py:77-80 | a "429" surrounded by text without the digit 4 is a rate limit |
| Fallback.NoFourIsOther | app.py:81-83 | an error text without the digit 4 is an unexpected error |
| Fallback.Render | app.py:79-86 | the busy warning is `Model `, the candidate and the busy suffix, and the candidate reads back from it; the error report is the 22-character prefix `Unexpected error with `, then the candidate, then `: `, and it ends with the exception text; the closing message starts with the cross mark |
| Fallback.BusyNamesModel | app.py:79 | the busy warning names its candidate unambiguously |
| Fallback.FailureNamesModel | app.py:82 | for the app's own candidates, the error report's text determines both the candidate and the exception text |
| Fallback.UnavailableIsDistinct | app.py:82-86 | the closing message differs from every "unexpected error" message |
| Fallback.Expected | app.py:57-86 | the reference run: the invoked candidates are a prefix of the list, and success holds exactly when the outcome is an answer |
| Fallback.StopFrom | app.py:61-83 | the run ends at the first reply from `from` on that is an answer or a fatal error; no earlier reply in that range ends it, and it ends at the end of the list if none does |
| Fallback.WarningsNameRateLimited | app.py:77-80 | every warning from the first `n` calls is a busy warning naming one of those candidates whose error was a rate limit |
| Fallback.WarnedWhenRateLimited | app.py:77-80 | every rate-limited candidate among the first `n` calls gets a busy warning naming it |
| Fallback.CountRateLimited | app.py:77-80 | the number of rate-limited replies among the first `n`, the count that `WarningsCount` and `ExpectedProperties` measure the warnings against; it is at most `n` |
| Fallback.WarningsCount | app.py:77-80 | the first `n` calls show exactly one warning per rate-limited candidate among them |
| Fallback.NotFoundIsSilent | app.py:74-76 | an error containing "404" adds no warning, even when it also contains "429" |
| Fallback.ExpectedAnswered | app.py:61-70 | when the first answer comes from candidate `i` and nothing earlier ends the run, candidates up to `i` are invoked, success holds, no error is shown and `i` is reported |
| Fallback.ExpectedAborted | app.py:81-86 | when candidate `i` fails with an unexpected error first, the run stops there, shows that error and then the "all unavailable" error, and success is false |
| Fallback.ExpectedExhausted | app.py:61-86 | when every candidate gives a 404 or a 429, all of them are invoked, only the "all unavailable" error is shown and success is false |
| Fallback.ExpectedProperties | app.py:57-86 | the invoked candidates are a prefix of the list, in order, and non-empty when the list is; every invoked candidate but the last gave a 404 or a 429, and when the run stops before the end of the list the last invoked one ended it; there are as many warnings as rate-limited candidates before the stop; success holds exactly when the outcome is an answer, and exactly when no error is shown; a failed run always ends with "all unavailable", which appears exactly when no invoked candidate answered |
| Fallback.TryModels | app.py:57-86 | the loop's invoked candidates, warnings, errors, success flag and outcome are exactly those of `Expected` for every list of candidates and replies |
| Fallback.FirstAnswerWins | app.py:57-70 | with the app's three candidates, an answer from the first ends the run at once, whatever the others would say |
| Fallback.NotFoundThenAnswer | app.py:57-76 | a 404 from the first candidate and an answer from the second gives a silent success from the second |
| Fallback.RateLimitedNotFoundThenAnswer | app.py:57-80 | a 429, then a 404, then an answer gives one busy warning for the first candidate and success from the third |
| Fallback.AllBusyOrMissing | app.py:57-86 | a 429, a 404 and a 429 give two busy warnings, then the "all unavailable" error, and no success |
| Fallback.FatalFirstError | app.py:57-86 | an unexpected error from the first candidate stops the run; its error and the "all unavailable" error are shown |

## Left out

- Page layout, titles, widgets, the spinner, `st.rerun()` and the table at lines 47-50 are display only. `Submit`'s `added` result stands for the rerun.
- The success banner and the answer at lines 67-68 appear only as `Outcome.Answered`, carrying the model and the text.
- Building the client (lines 11-17) and the network call (line 63) are replaced by the reply oracle. A client that failed to build makes line 63 raise a `NameError`, which is one more `Err` reply.
- The prompt built with `json.dumps` (line 54) is not modelled; it does not affect the loop's control flow.
- `response.text` being `None` is not distinguished from any other answer text.
- The date picker's own range and the number widget's type are not modelled. Dates are years 1 to 9999, as Python's `date` allows. Amounts are integers of at least 1, per the `min_value=1` at line 33.
- The "Analyze with AI" button exists only under a non-empty list (line 47). `TryModels` does not take the list, so this guard is not part of its contract.
- `auth.py` (the login gate) is not part of this model.
- Fallback.TryModels: takes the candidate list as a parameter instead of the fixed list at line 57. The scenario lemmas instantiate `Expected`, which `TryModels` is proved equal to, with `ModelsToTry`.
