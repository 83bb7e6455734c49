# Lottery registration, modelled in Dafny

`lottery.py` is a console lottery. Participants register by typing a full
name until a deadline passes. Names are validated and brought to a
canonical capitalised form, and duplicates are refused. The registrant set
is autosaved to `lottery_log.txt`, and the deadline is saved to
`timer_state.txt`. When registration closes, a winner is drawn if there are
at least five registrants. Otherwise registration is extended once by
thirty minutes, and then either a winner is drawn or a no-winner line is
logged. On start-up the deadline is read back from the timer file and the
registrants from the log.

The model pulls the module globals into one immutable `Lottery.State`:
- the registrant set;
- the deadline;
- the time of the last autosave;
- the log, as a sequence of lines;
- the timer file, which is absent, unreadable or holds a deadline.

Time is whole seconds. Every line typed at the prompt is an `Attempt`
that carries two clock readings:
- `prompted`: the loop test that led to the prompt;
- `answered`: the reading used for the autosave test.

The project has four modules:
- `Text` (`text.dfy`) models the Python `str` operations the program uses: `strip()`, `split()`, `" ".join`, `startswith` and ASCII case conversion.
- `Names` (`names.dfy`) models `is_valid_username` and the canonical key computed at line 63, with the shape, idempotence and case-folding properties of that key.
- `Log` (`log.dfy`) covers the log file: the reload loop, `autosave_users`, the winner and no-winner lines, and when a saved listing reloads to the set that was saved.
- `Lottery` (`lottery.dfy`) covers the state machine: the decision on one entered line, a pass through `register_user`, the registration window, `pick_winner`, start-up and the main program.

## Model

| member | source | states |
|---|---|---|
| Names.IsValidUsername | lottery.py:42-44 | A line is valid exactly when its stripped form is non-empty and consists only of ASCII letters and spaces. The regex's allowance for a final newline never applies after stripping. |
| Names.NonNameCharacterRejected | lottery.py:42-44 | Any character that is neither whitespace nor an ASCII letter, anywhere in the input, makes it invalid. This covers digits, punctuation and accented letters. |
| Names.InnerWhitespaceRejected | lottery.py:42-44 | Whitespace other than a plain space between two visible characters (a tab, an inner newline) makes the input invalid. |
| Text.WordsOfJoin | lottery.py:63 | `split()` undoes `" ".join` on a list of words. |
| Names.ValidKeyIsCanonical | lottery.py:63 | The key of a valid name is canonical:<br>- it starts with an upper-case letter;<br>- it has no leading, trailing or doubled spaces;<br>- each word is one upper-case letter followed by lower-case letters. |
| Names.CanonicalNameIsFixed | lottery.py:63 | Canonicalising a canonical name returns it unchanged. |
| Names.CanonicalIdempotent | lottery.py:63 | Under ASCII case conversion, canonicalisation is idempotent on any text. |
| Names.KeyIdempotent | lottery.py:62-63 | Stripping and canonicalising a key gives the same key back. |
| Names.CanonicalNameIffOwnKey | lottery.py:42-44 | A text is canonical if and only if it is valid and equal to its own key (the form built at line 63). |
| Names.CapitalizeFoldsCase | lottery.py:63 | `capitalize` depends only on the lower-cased word, preserves it, and is idempotent. |
| Names.SameKeyIffSameFoldedWords | lottery.py:62-63 | Two inputs have the same key if and only if their lower-cased words agree, so they differ only in letter case and whitespace. |
| Lottery.Decide | lottery.py:62-71 | An accepted name is the key of the entered line and is not yet registered. |
| Lottery.DecideBlank | lottery.py:62-66 | A line is refused as empty exactly when it is blank. |
| Lottery.DecidePattern | lottery.py:67-68 | A line is refused for its characters exactly when it is non-blank and, once stripped, contains something other than letters and spaces. |
| Lottery.DecideDuplicate | lottery.py:69-70 | A line is refused as a duplicate exactly when it is valid and its key is already registered. |
| Lottery.DecideAccept | lottery.py:71-72 | A line is accepted exactly when it is valid and its key is new. The accepted name is canonical. |
| Lottery.CaseVariantRejected | lottery.py:63-70 | Once a name is accepted, any valid spelling with the same lower-cased words is refused as a duplicate. |
| Lottery.Step | lottery.py:62-77 | One pass through the loop body:<br>- a rejection changes nothing;<br>- an acceptance adds exactly the new key, so the set grows by one, and saves the deadline to the timer file;<br>- an autosave happens if and only if the name was accepted and at least 2 s have passed since the last one;<br>- an autosave rewrites the log as a listing of the new set and records the time. |
| Lottery.RegisterUser | lottery.py:59-77 | Lines are read while they are prompted before the deadline, and the step returns after the first acceptance:<br>- the set gains exactly the valid keys read;<br>- if nothing was added, the state is unchanged and input ran out or the deadline passed;<br>- if something was added, no earlier line added anything, the last line read was accepted, and the set grew by one;<br>- in that case an autosave happens if and only if at least 2 s have passed since the last one when the line was answered, and the autosave lists the new set. |
| Lottery.Window | lottery.py:107-109 | The registration loop reads exactly the lines prompted before the deadline. The registrants gain exactly their valid keys and the deadline is unchanged. Without an autosave the log is unchanged. After an autosave, which comes at least 2 s after the previous one, the log lists each name once: every name registered before the window and only names registered by its end. |
| Log.Reload | lottery.py:32-36 | The start-up loop yields `Loaded(log)`: the stripped form of every non-blank line that does not begin with `Winner:`. |
| Log.LoadedMembers | lottery.py:32-36 | A name is reloaded if and only if some kept line strips to it. |
| Log.Autosave | lottery.py:46-50 | The log is rewritten to name every registrant exactly once, in an unspecified order. |
| Log.LoadedIsOneLine | lottery.py:34-36 | When no line of the log holds a line break, no reloaded name holds one either. |
| Log.ListingIsDistinct | lottery.py:48-50 | A sequence of lines that names every user and has as many lines as there are users has no repeated line. |
| Log.ListingReloads | lottery.py:32-36 | A listing saved by lines 48-50 reloads to exactly the saved set when every name in it is persistable, meaning one line, non-empty, already stripped, and not starting with `Winner:`. When every name is one line, it reloads to the saved set only then. |
| Lottery.CanonicalNamePersistable | lottery.py:35 | A canonical name, the form built at line 63, is persistable. It contains no colon, so it cannot start with `Winner:`. |
| Lottery.ValidKeysPersistable | lottery.py:62-72 | Every key that registration can add is persistable. |
| Lottery.AutosaveReloads | lottery.py:48-50 | If all registrants were persistable, the autosave after accepting a canonical name (lines 72-75) is read back by the start-up loop (lines 32-36) as exactly the new registrant set. |
| Log.WinnerLineNotReloaded | lottery.py:85-86 | A `Winner: <w>` line adds nothing when the log is reloaded by the test at line 35. |
| Log.SentinelReloaded | lottery.py:100-101 | The no-winner line is reloaded by lines 35-36, and it is added as a registrant. |
| Lottery.SentinelIsNoName | lottery.py:100-101 | The no-winner line is neither a valid entry nor a canonical name, so no registration produces it. Reload still turns it into a registrant. |
| Lottery.Draw | lottery.py:81-88 | The winner is a registrant. Exactly one `Winner: <w>` line is appended and the timer file is removed. Nothing else changes. |
| Lottery.PickWinner | lottery.py:79-101 | With at least 5 registrants, a winner is drawn at once, no input is read, and the deadline and the last autosave time are unchanged. Otherwise the deadline moves by exactly 1800 s, once, and registration reopens until the new deadline. Then:<br>- the outcome is a winner if and only if there are now at least 5 registrants;<br>- a winner is a registrant and the timer file is removed;<br>- no winner means fewer than 5 registrants, the no-winner line is last in the log, and the extended deadline stays saved;<br>- without an intervening autosave, exactly one verdict line is appended to the old log;<br>- after an autosave, the log is a listing of each name once (every name registered before, only names registered by the end) followed by the one verdict line. |
| Lottery.Startup | lottery.py:17-36 | The registrants are those reloaded from the log. The deadline is the saved one if the timer file holds one, otherwise one hour after start. The last autosave time is the start time. |
| Lottery.Run | lottery.py:104-110 | Start-up, the main window and the decision:<br>- the main window reads exactly the lines prompted before the initial deadline (the saved one, or one hour after start);<br>- if the reloaded names plus the valid keys of those lines number at least 5, nothing more is read, the deadline stays, and a winner is drawn;<br>- otherwise the deadline moves by exactly 1800 s and the extension reads exactly the following lines prompted before the new deadline;<br>- the registrants are the reloaded ones plus the valid keys of all lines read;<br>- the outcome is a winner if and only if there are at least 5 registrants at the end;<br>- a winner is a registrant named by the last log line, and the timer file is removed;<br>- no winner means the no-winner line is last in the log and the final deadline stays saved;<br>- without an autosave the log is the old log plus one verdict line; after one it is a listing of each name once (every reloaded name, only final registrants) followed by the verdict line. |

## Left out

- Console input and output (`input`, `print`, `display_status`) are left out, including the floating-point arithmetic of `display_status`. The entered lines are the `entered` field of each `Attempt`.
- The file system is modelled as values. The log is a sequence of lines without terminators, and opening, writing and `os.remove` are state updates.
- Log.Autosave, Log.ListingReloads, Lottery.AutosaveReloads: a registrant is written as exactly one log line. A name holding `\n` or `\r` would be written by line 50 as one entry but read back by line 34 as several lines. `Log.Persistable` therefore requires a name to be one line (`Log.OneLine`), and the only-if direction of `Log.ListingReloads` assumes one-line names. No registrant can hold a line break: accepted names are letters and spaces (`Lottery.ValidKeysPersistable`), and reloaded names come from lines of a text file, which hold none (`Log.LoadedIsOneLine`). The model's log lines are assumed to be such lines.
- The log file is assumed to end with a line terminator, as every file the program writes does. Lines 85-86 and 100-101 append without a leading newline. In a log whose last line lacks its terminator, the verdict would join that line (`Eve` then `Winner: Eve` gives `EveWinner: Eve`), and the next reload would keep the joined line as a registrant. `Lottery.Draw`, `Lottery.PickWinner` and `Log.WinnerLineNotReloaded` append the verdict as a line of its own.
- `datetime.fromisoformat` is not modelled. A timer file that parses is `Saved(deadline)`, and one that does not is `Unreadable`, which falls back like an absent file.
- The wall clock is not modelled. Every clock reading is an integer carried by the input.
  - The outer loop test at line 107 and the inner test at line 61 are one reading, `prompted`.
  - The reading that ends the main window at line 107 is reused as the first reading of the extension window at lines 93 and 61. This is harmless for a clock that never goes backwards.
  - The reading that decides on an autosave and the one it records are one reading, `answered`.
  - Running out of input is treated like the deadline passing. End-of-file at the prompt is not modelled.
- `random.choice` is a nondeterministic pick from the registrant set, not a distribution. The iteration order of the set written by `autosave_users` is also left open.
- The `KeyboardInterrupt` handler at lines 111-115 is left out, and with it the only autosave that happens outside registration.
- Case conversion covers ASCII only. Non-ASCII letters are rejected by validation, but `capitalize` of such text is not modelled beyond leaving it unchanged.
- Behaviour that follows the code where a reader might expect otherwise:
  - Reload skips only blank lines and lines starting with `Winner:`. The no-winner line is reloaded as a registrant and counts toward the five-registrant minimum on the next run (`Log.SentinelReloaded`).
  - Registrants are not saved at a normal exit. They are saved only by autosaves during registration and by the interrupt handler.
  - A log line with whitespace before `Winner:` is kept. Its stripped form starts with `Winner:`, so it is not persistable (`Log.ListingReloads`).
