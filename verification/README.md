# mac_freeze in Dafny

mac_freeze is a small macOS utility. It pauses background applications: when an
application whose bundle identifier is listed in `~/blacklist.json`'s
`blacklist` array loses focus, it is sent SIGSTOP after that entry's delay. When
it comes back to the front it is sent SIGCONT at once, and the pending SIGSTOP
is cancelled. The repository also holds three settings editors for that list:
- the stand-alone settings application;
- the settings window built into the freezer;
- the glob-only preferences window.

Each editor shows the list as rows (type, identifier, delay), lets the user add,
edit and remove rows, and writes the list back.

This project models that core and proves properties about it:

- `records.dfy`, module `Records`: the shared vocabulary.
  - A blacklist record is a map from keys to JSON values; an editor row is an `Entry`.
  - The default delay of 30 seconds.
  - The delay text field: its display as decimal digits, and the read-back with a fallback to 30.
  - The type pop-up's title/type mapping.
  - The filter that keeps only rows with a non-empty identifier.
- `typed_codec.dfy`, module `TypedCodec`: the record format of the two typed editors.
  - SettingsApp.swift and SettingsWindow.swift share identical load and save code, so it is defined once.
  - The identifier is stored under "identifier" for a "bundleID" row and under "pattern" otherwise.
- `glob_codec.dfy`, module `GlobCodec`: the record format of the glob-only preferences window.
- `freezer.dfy`, module `Freezer`: main.swift.
  - The loop that builds the `delays` table, including its crashes on a failed `as!` cast.
  - The `Scheduler` class: `pendingTimers`, the work items, and the activation, deactivation and fire handlers. Signals sent with `kill` are recorded in a log.
- `lists.dfy`, module `Lists`: `firstIndex(of:)` and the removal the remove buttons use.
- `settings_app.dfy`, module `SettingsApp`: SettingsApp.swift.
  - Its `AppEntryView` and `SettingsView` classes.
  - The search of the `ps -ax -o pid,command` listing for the freezer's pid (`getMainAppPID`), and the SIGUSR1 notification.
- `settings_window.dfy`, module `SettingsWindow`: SettingsWindow.swift, whose remove button only takes a row off the screen.
- `preferences_window.dfy`, module `PreferencesWindow`: PreferencesWindow.swift.

Every imperative operation of the source is a method. It is proved against a
specification function of the inputs or of the old state:
- the editors' loading loops match `Load`;
- their saving loops match `Save`;
- the freezer's loop matches `Delays`;
- the `ps` scan matches `MainAppPid`.

The lemmas then state what those functions promise: round trips, ordering, defaults, and last-write-wins.

## Model

| member | source | states |
|---|---|---|
| Records.DelayFromText | SettingsApp.swift:308-310 | A delay text that does not read as a number gives 30; a string of digits gives its value |
| Records.DecimalText | SettingsApp.swift:270 | The delay field shows a non-empty string of digits with no leading zero |
| Records.DelayTextRoundTrip | SettingsWindow.swift:211 | Committing the delay field as displayed reads back the same delay |
| Records.KindTitleRoundTrip | SettingsApp.swift:255 | Re-selecting the title a row was shown with gives "bundleID" for a "bundleID" row and "glob" for any other; the kind is kept exactly when it was "bundleID" or "glob" |
| Records.NonEmptyMembers | SettingsApp.swift:188-189 | The save filter keeps a row exactly when its identifier is non-empty, and never lengthens the list |
| Records.NonEmptyAppend | SettingsApp.swift:188-201 | The filter distributes over concatenation, so the kept rows stay in order |
| Records.NonEmptyIdempotent | SettingsApp.swift:188-189 | Filtering twice is filtering once |
| TypedCodec.RecordShape | SettingsApp.swift:190-199 | A saved record has exactly the keys "type", "delay" and "identifier" (bundleID) or "pattern" (any other type), and reads back as the same row |
| TypedCodec.LoadSpec | SettingsApp.swift:157-169 | Loading gives one row per record, in record order. The type defaults to "", the identifier comes from "identifier", else "pattern", else "", and the delay defaults to 30 |
| TypedCodec.SaveSpec | SettingsApp.swift:185-203 | Saving writes one record per row with a non-empty identifier, in row order |
| TypedCodec.RoundTrip | SettingsWindow.swift:94-139 | Loading what was saved gives back exactly the rows with a non-empty identifier |
| TypedCodec.SaveNonEmpty | SettingsApp.swift:188-189 | Saving looks only at rows with a non-empty identifier |
| TypedCodec.SaveIsStable | SettingsApp.swift:151-203 | Opening a saved blacklist and saving it again, untouched, writes the same records |
| TypedCodec.SaveMembers | SettingsWindow.swift:122-135 | Every row with a non-empty identifier is saved, and every saved record comes from such a row |
| GlobCodec.LoadSpec | PreferencesWindow.swift:105-109 | Loading gives one "glob" row per record, in order. The identifier comes from "pattern" only, default ""; the delay defaults to 30 |
| GlobCodec.SaveSpec | PreferencesWindow.swift:135-144 | Saving writes the non-empty rows in order, each as exactly {"type": "glob", "pattern", "delay"} |
| GlobCodec.RoundTrip | PreferencesWindow.swift:99-147 | Reloading the saved records gives the non-empty rows with kind "glob"; for all-glob rows that is exactly the non-empty rows |
| GlobCodec.PatternlessRecordsDropped | PreferencesWindow.swift:106-136 | In any blacklist, mixed or not, loading and saving writes the same records as loading and saving only the records with a non-empty "pattern" string; every other record (a typed "bundleID" record, say) is lost, and the count written is the number of records with a pattern |
| Freezer.LoadDelays | main.swift:9-21 | The configuration loop computes `Delays`, or fails where a cast crashes |
| Freezer.DelaysCrash | main.swift:10-20 | The loop fails exactly when some record has no string "type", or is a "bundleID" record without a string "identifier", or a "glob" record without a string "pattern" |
| Freezer.DelaysLookup | main.swift:12-20 | A key is in the table exactly when a "bundleID" record's identifier or a "glob" record's pattern equals it, and its delay is that of the last such record, defaulting to 30; other types add nothing |
| Freezer.TypedSaveLoads | main.swift:10-21 | A blacklist written by a typed editor never crashes the loop |
| Freezer.GlobSaveLoads | main.swift:10-21 | A blacklist written by the preferences window never crashes the loop |
| Freezer.Scheduler.constructor | main.swift:24 | No timer is pending, no item exists and no signal has been sent |
| Freezer.Scheduler.Activate | main.swift:32-39 | The pid's pending item is cancelled and removed, other pids are unchanged, and SIGCONT is sent even when nothing was pending. If every live item was the one pending for its pid, that stays so and no live item for the pid remains |
| Freezer.Scheduler.Deactivate | main.swift:44-57 | With no bundle id, or one not in `delays`, nothing changes. Otherwise a new item with that key's delay is stored for the pid, replacing without cancelling the previous one; other pids are unchanged |
| Freezer.Scheduler.Fire | main.swift:52-55 | An item that was not cancelled and has not run sends SIGSTOP to its pid and removes that pid's entry, whatever item it holds. Otherwise nothing happens |
| Freezer.CancelBeforeFire | main.swift:35-36 | An application reactivated before its delay only gets SIGCONT |
| Freezer.ReplacedItemOutlivesActivation | main.swift:56 | Two deactivations, then a fire, an activation and a fire, send SIGSTOP, SIGCONT, SIGSTOP: the application is stopped while in front |
| Freezer.Scheduler.DeactivateCancellingPrevious | main.swift:52-56 | The deactivation with the replaced item cancelled keeps every live item pending for its pid |
| Freezer.ReplacedItemCancelled | main.swift:35-56 | With the replaced item cancelled, the same events only send SIGCONT |
| Lists.FirstIndex | SettingsApp.swift:164 | `firstIndex(of:)` is None exactly when the element is absent; otherwise it gives the first position holding it |
| Lists.RemoveFirstOrder | SettingsApp.swift:164-165 | Removal changes nothing when the row is absent; otherwise the list is one shorter, the rows before the first occurrence stay in place and those after it move up one |
| Lists.RemoveFirstMultiset | SettingsApp.swift:164-165 | Removing a present row takes out exactly one copy of it and no other row |
| Lists.RemoveFromDistinct | PreferencesWindow.swift:111-112 | In a list without duplicates, removal leaves the row out altogether |
| SettingsApp.AppEntryView.constructor | SettingsApp.swift:229-235 | A row starts with the given type, identifier and delay |
| SettingsApp.AppEntryView.TypeChanged | SettingsApp.swift:299-302 | The kind becomes "bundleID" exactly when "Bundle ID" is selected, else "glob"; the other fields are unchanged |
| SettingsApp.AppEntryView.IdentifierChanged | SettingsApp.swift:304-306 | The identifier becomes the field's text |
| SettingsApp.AppEntryView.DelayChanged | SettingsApp.swift:308-310 | The delay becomes the parsed text, or 30 when it does not parse |
| SettingsApp.SettingsView.constructor | SettingsApp.swift:91-132 | A new view holds the loaded rows of the blacklist, or none when it cannot be read |
| SettingsApp.SettingsView.LoadAppEntries | SettingsApp.swift:151-172 | One new row per record is appended in order; the existing rows are kept |
| SettingsApp.SettingsView.AppendRow | SettingsApp.swift:157-168 | One iteration: a fresh row holding the record's values is appended |
| SettingsApp.SettingsView.AddApp | SettingsApp.swift:174-183 | A fresh ("bundleID", "", 30) row goes in front, and the other rows move down one place in order |
| SettingsApp.SettingsView.OnRemove | SettingsApp.swift:163-166 | The first occurrence of the row is removed, the rest keep their order, and the row is no longer listed |
| SettingsApp.SettingsView.SaveSettings | SettingsApp.swift:185-203 | The records written are `Save` of the rows, and reloading them gives back the non-empty rows |
| SettingsApp.Lines | SettingsApp.swift:70 | The listing splits into at least one line, and no line contains a line terminator |
| SettingsApp.LinesSplit | SettingsApp.swift:70 | The first terminator ends the first line, and the rest is split the same way |
| SettingsApp.FirstToken | SettingsApp.swift:72 | The first token is the longest space-free prefix of the trimmed line |
| SettingsApp.PidTextRoundTrip | SettingsApp.swift:73 | The decimal text of any 32-bit number, signed or not, reads back as that number |
| SettingsApp.FirstSome | SettingsApp.swift:70-76 | The scan stops at the first line that yields a pid, and finds none exactly when no line yields one |
| SettingsApp.ContainsAfter | SettingsApp.swift:71 | A word is found in a line exactly when it is found in the command part, as long as the pid part in front holds none of the word's first character |
| SettingsApp.TokenOfPaddedLine | SettingsApp.swift:72 | After trimming a space-padded line, the first space-separated component is the word the text starts with |
| SettingsApp.PsLinePid | SettingsApp.swift:71-73 | A `ps -o pid,command` line, spaces then the pid's digits, a space and the command, yields that pid exactly when the command mentions "mac_freeze" and not "SettingsApp", and nothing otherwise |
| SettingsApp.ScanLines | SettingsApp.swift:70-77 | The loop returns the pid of the first line that yields one, or -1 when no line does |
| SettingsApp.GetMainAppPid | SettingsApp.swift:54-83 | The result is -1 when `ps` could not be run, and otherwise the pid of the first qualifying line of its output, or -1 |
| SettingsApp.NotifyMainAppToReload | SettingsApp.swift:46-52 | SIGUSR1 goes to the found pid exactly when it is positive |
| SettingsWindow.AppEntryView.constructor | SettingsWindow.swift:166-172 | A row starts with the given values and is not yet in a stack view |
| SettingsWindow.AppEntryView.TypeChanged | SettingsWindow.swift:242-245 | The kind becomes "bundleID" exactly when "Bundle ID" is selected, else "glob" |
| SettingsWindow.AppEntryView.IdentifierChanged | SettingsWindow.swift:247-249 | The identifier becomes the field's text |
| SettingsWindow.AppEntryView.DelayChanged | SettingsWindow.swift:251-253 | The delay becomes the parsed text, or 30 when it does not parse |
| SettingsWindow.AppEntryView.Remove | SettingsWindow.swift:255-257 | The row leaves its stack view, and its value is unchanged |
| SettingsWindow.SettingsView.constructor | SettingsWindow.swift:39-64 | A new view holds the loaded rows, each shown in the stack view |
| SettingsWindow.SettingsView.LoadAppEntries | SettingsWindow.swift:94-111 | One new row per record is appended in order; the existing rows are kept |
| SettingsWindow.SettingsView.AppendRow | SettingsWindow.swift:101-108 | One iteration: a fresh row holding the record's values is appended and shown |
| SettingsWindow.SettingsView.AddApp | SettingsWindow.swift:113-117 | A fresh ("bundleID", "", 30) row is appended at the end, and earlier rows keep their places |
| SettingsWindow.SettingsView.SaveSettings | SettingsWindow.swift:119-137 | The records written are `Save` of the rows, and reloading them gives back the non-empty rows |
| SettingsWindow.RemovedRowIsStillSaved | SettingsWindow.swift:255-257 | After its remove button, a row with a non-empty identifier is off the screen, still listed, and still saved |
| SettingsWindow.SettingsView.OnRemove | SettingsApp.swift:163-166 | The removal as the other editors do it: the row leaves `appEntries`, and the other rows keep their order |
| PreferencesWindow.AppEntryView.constructor | PreferencesWindow.swift:175-181 | A row starts with the given type, pattern and delay |
| PreferencesWindow.AppEntryView.IdentifierChanged | PreferencesWindow.swift:263-265 | The pattern becomes the field's text |
| PreferencesWindow.AppEntryView.DelayChanged | PreferencesWindow.swift:267-269 | The delay becomes the parsed text, or 30 when it does not parse |
| PreferencesWindow.PreferencesView.constructor | PreferencesWindow.swift:39-80 | A new view holds the loaded "glob" rows, or none |
| PreferencesWindow.PreferencesView.LoadAppEntries | PreferencesWindow.swift:99-119 | One new "glob" row per record is appended in order; every row stays a "glob" row |
| PreferencesWindow.PreferencesView.AppendRow | PreferencesWindow.swift:105-115 | One iteration: a fresh "glob" row with the record's pattern and delay is appended |
| PreferencesWindow.PreferencesView.AddApp | PreferencesWindow.swift:121-130 | A fresh ("glob", "", 30) row goes in front, and the other rows move down one place in order |
| PreferencesWindow.PreferencesView.OnRemove | PreferencesWindow.swift:110-113 | The first occurrence of the row is removed, the rest keep their order, and all rows stay "glob" rows |
| PreferencesWindow.PreferencesView.SaveSettings | PreferencesWindow.swift:132-145 | The records written are `Save` of the rows, and since all rows are "glob" rows, reloading gives back exactly the non-empty rows |

## Findings

| source | as written | input that shows it | evidently intended | confidence | as-written member | corrected member |
|---|---|---|---|---|---|---|
| main.swift:56 | A new work item overwrites `pendingTimers[pid]` without cancelling the item it replaces. When the replaced item fires, it removes the pid's entry, which by then names the newer item. | Two deactivations of one pid with no activation between them, then the first item fires, the application is activated, and the second item fires. The signals are SIGSTOP, SIGCONT, SIGSTOP, so the application is frozen while in front. | Activation cancels every freeze still pending for the pid, as the comment at main.swift:34 says | low: needs two deactivation notifications in a row for one pid; not executed | Freezer.ReplacedItemOutlivesActivation | Freezer.Scheduler.DeactivateCancellingPrevious |
| SettingsWindow.swift:255-257 | `remove` only takes the row off the screen; the row stays in `appEntries`. | A row with identifier "com.example.app": press its remove button, then Save. Its record is still written. | The row is removed from `appEntries`, as the `onRemove` closures of SettingsApp.swift:163-166 and PreferencesWindow.swift:110-113 do | medium: not executed | SettingsWindow.RemovedRowIsStillSaved | SettingsWindow.SettingsView.OnRemove |

`Freezer.Scheduler.Deactivate` and `SettingsWindow.AppEntryView.Remove` keep the behaviour as written. The corrected members sit beside them:
- `DeactivateCancellingPrevious` preserves `Scheduler.NoStrayItems`: every live item is the one pending for its pid. Given that, `Activate` provably leaves no live item for the pid, and `Freezer.ReplacedItemCancelled` shows the same events then send only SIGCONT.
- `OnRemove` takes the row out of the list that `SaveSettings` writes.

## Left out

- Reading and writing `~/blacklist.json`, and JSONSerialization: a blacklist is given as a sequence of records. An editor's view gets `None` when the file cannot be read or parsed.
- The `try!` and the top-level `as!` casts of the file in main.swift:6-8 are not modelled. The per-record `as!` casts (main.swift:11, 15, 18) make `LoadDelays` return `None`.
- Real time, threads and the dispatch queue. `Fire` is one atomic step that may come between any two events. The delay is recorded in each work item but does not order firings. The data race of the fire block writing `pendingTimers` off the main queue is not modelled.
- `kill` is modelled as a signal log. Whether the signal reaches a process is not modelled.
- NSWorkspace notifications: the activated or deactivated application arrives as a pid and an optional bundle identifier.
- All NSWindow, NSView and Auto Layout code, and the placeholder strings set by `typeChanged`. In SettingsWindow.swift, membership of the stack view is kept as the row's `inStack` flag, because that is all `remove` changes.
- The `ps` process launch and pipe reading: the listing is given as an optional string, `None` when the process could not be run.
- `MacFreezeApp.shared?.loadConfiguration()` is not part of this model: its code is not in the repository.
- The icon scripts create_icon.swift, create_iconset.swift and download_and_process_icon.swift: drawing, a network download and file writes.
- Records.ParseDelay: reads only whole seconds written as decimal digits. Swift's `TimeInterval(String)` also accepts a sign, a fraction, an exponent, hexadecimal, "inf" and "nan".
- Records.DelayField: JSON numbers are modelled as whole non-negative seconds. Negative or fractional delays, and the bridging of JSON booleans to `TimeInterval`, are not modelled.
- Records.DecimalText: it is "%.0f" formatting for whole seconds only. Rounding of fractional delays is not modelled.
- SettingsApp.IsWhitespace and SettingsApp.IsNewline: they spell out the character sets `.whitespaces` and `.newlines` by hand, and the `ps` listing is taken as already decoded text.
