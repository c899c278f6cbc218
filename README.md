# Customer-name intake of mechanic-assist

This project models the customer-name intake of the mechanic-assist tool, an
interactive program that records customers and their vehicles. The code
modelled is in `run.py`. It has two parts:

- `validate_name(name)` accepts a name when at least three characters remain
  after `str.strip()` removes the surrounding whitespace. Otherwise it prints
  a message and rejects the name.
- `get_name()` keeps reading lines until `validate_name` accepts one. It
  returns that line exactly as typed.

The model has two modules:

- `PyStrip` (`strip.dfy`) models Python's `str.strip()` with no argument. It
  uses the whitespace set of `str.isspace()`: U+0009 to U+000D, U+001C to
  U+001F, U+0020, U+0085, U+00A0, U+1680, U+2000 to U+200A, U+2028, U+2029,
  U+202F, U+205F and U+3000. As in CPython, two index scans find where the
  kept part starts and ends. The forward scan is `Front`; the backward scan
  is `Back`, which never goes below where the forward scan stopped.
  `IsStripOf` is an independent description of what stripping leaves, and
  `StripCharacterized` proves it equivalent to `Strip`.
- `Run` (`run.dfy`) models `validate_name`, together with its rejection
  reason, and `get_name`. `get_name` reads from a supplied sequence of lines
  instead of the terminal.

The code and its own documentation disagree in two places. The model
follows the code both times:

- The docstring (run.py:32) and the rejection message (run.py:37) say a name
  needs "at least 2" letters. The code rejects when the stripped length is
  `< 3` (run.py:36). The model uses 3, so a two-character name such as `"ab"`
  is rejected (`TwoLetterNamesRejected`).
- The docstring and the message speak of "letters", but run.py:36 counts
  every character that is not whitespace. `"123"` and `"a.b"` are accepted
  (`NonLetterNamesAccepted`).

In addition:

- `get_name` returns the raw line (run.py:23, run.py:28); nothing in run.py
  strips or re-cases it (`GetNameReturnsRawLine`).
- The `except ValueError` branch (run.py:39-41) is not modelled, because
  `str(name)` cannot raise on a string. The `IrregularCharacters` constructor
  only names the message that branch would print (run.py:40); `CheckName`
  never returns it.

## Model

| member | source | states |
|---|---|---|
| `PyStrip.Front` | run.py:36 | The forward scan of `strip` stops at the first non-space character at or after its start, or at the end of the string; everything it skipped is whitespace |
| `PyStrip.Back` | run.py:36 | The backward scan of `strip` stops just after the last non-space character of its range, or at the range's start; everything it skipped is whitespace |
| `PyStrip.StripSlice` | run.py:36 | `name.strip()` has no whitespace at either end, and only whitespace lies before and after it in the original string |
| `PyStrip.StripEmpty` | run.py:36 | Stripping leaves the empty string exactly when the string is blank (both directions) |
| `PyStrip.StripOfUnique` | run.py:36 | At most one slice of a string has only whitespace around it and none at its ends, so that description determines the strip |
| `PyStrip.StripCharacterized` | run.py:36 | `Strip(s)` is exactly the string `IsStripOf(s, _)` describes (both directions): the strip is fully determined by what `str.strip()` promises |
| `PyStrip.TrimmedIsFixed` | run.py:36 | A string that neither starts nor ends with whitespace is unchanged by stripping: interior whitespace is kept |
| `PyStrip.StripIdempotent` | run.py:36 | Stripping twice gives the same result as stripping once |
| `PyStrip.StripIgnoresPadding` | run.py:36 | Whitespace added at either end is removed again: `strip(w1 + s + w2) == strip(s)` for all-whitespace `w1`, `w2` |
| `Run.CheckName` | run.py:34-42 | The verdict is either acceptance or the too-short rejection (the `ValueError` branch is not modelled, since `str(name)` cannot raise on a string), and it is acceptance exactly when at least 3 characters remain after stripping |
| `Run.ValidateName` | run.py:30-42 | An accepted name has at least 3 characters, and a blank or empty name is never accepted |
| `Run.ValidateNameCharacterized` | run.py:36-42 | Without mentioning stripping: a name is accepted exactly when it has two non-space characters at least two positions apart (both directions) |
| `Run.PaddingKeepsVerdict` | run.py:36 | Adding leading or trailing whitespace never changes the verdict |
| `Run.InteriorSpaceCounts` | run.py:36 | Interior characters, whitespace included, count towards the length: any name that starts and ends with a non-space character and has something between them is accepted |
| `Run.BlankNamesRejected` | run.py:32-38 | `""`, `"   "` and `"\t\n"` are rejected |
| `Run.TwoLetterNamesRejected` | run.py:36-38 | `"ab"` and `"  ab  "` are rejected, although the message speaks of "at least 2" letters |
| `Run.ShortestAcceptedNames` | run.py:36-42 | `"abc"` and `"a b"` are accepted |
| `Run.NonLetterNamesAccepted` | run.py:32-37 | `"123"` and `"a.b"` are accepted: any non-space character counts, although the docstring and message speak of letters |
| `Run.PaddedNameAccepted` | run.py:36-42 | `" Bob "` is accepted |
| `Run.FirstAccepted` | run.py:21-26 | The line the retry loop stops on: every line before it is rejected, and it is accepted when it exists; the result is the number of lines when none is accepted |
| `Run.RejectedLinesSkipped` | run.py:21-26 | Rejected lines in front of the input only shift where the loop stops, by their number |
| `Run.GetName` | run.py:17-28 | Returns a line `validate_name` accepts, unchanged, and it is the first such line: every earlier line was rejected. It reports that the input ran out exactly when no line is accepted |
| `Run.GetNameResultDetermined` | run.py:21-28 | `GetName`'s postcondition allows one result only: the line at `FirstAccepted`, after reading that many lines plus one, or running out of input exactly when `FirstAccepted` is past the end |
| `Run.GetNameKeepsRawLine` | run.py:21-28 | On `["", "ab", " Bob "]` the loop stops at index 2, on a line that differs from its stripped form |
| `Run.GetNameReturnsRawLine` | run.py:23-28 | Calling `GetName` on `["", "ab", " Bob ", "Alice"]` returns `" Bob "` itself after reading 3 lines, not its stripped form |

## Left out

- The Google credential loading, the scope list, and the `gspread` client and sheet handles (run.py:1-15) are left out. They are network and authentication I/O through a foreign library.
- The printed messages (run.py:37, run.py:40) are console output. They are modelled only as the `Rejection` value that `CheckName` returns.
- The real `input()` call (run.py:23) is replaced by a supplied sequence of lines, each without its newline.
- When `input()` reaches end of file, Python raises `EOFError`. The model reports this as the `OutOfInput` result.
- The module-level call `get_name()` (run.py:44) is left out. It only starts the prompt at import time.
- Python strings may contain lone surrogate code points, but Dafny's `char` is a Unicode scalar value. Surrogates are not whitespace for `str.isspace()`, so `strip` never removes them and nothing about the verdict is lost.
- The other validators, the reporters and the booking logic of the wider tool are not in `run.py` and are not modelled.
