# touchp: timestamp resolution and touching, in Dafny

touchp is a `touch` replacement. It sets the access and modification times of
one or more files, creating missing ones, and then opens an editor window
seeded with the clipboard so the user can write text into the touched files.
This project models the part that decides and applies the timestamps:

- the `-t [[CC]YY]MMDDhhmm[.ss]` parser, down to calendar fields and the
  range checks of Python's `datetime` constructor (`compact_time.dfy`,
  `calendar.dfy`, with Python's `int()`/`str()` on digit strings in
  `decimal.dfy`);
- the choice of time source (`-d`, `-r`, `-t` or none) and the `-a`/`-m`
  selection, including Python's `or`, which treats a zero timestamp as absent
  (`resolver.dfy`);
- `update_timestamps`: creation of a missing file, the fill-in of a missing
  time from its sibling, and `os.utime`, over an abstract filesystem given as
  a map from path to (atime, mtime, contents), with the paths whose creation or
  `utime` fails given as inputs (`files.dfy`, `toucher.dfy`);
- the batch loop that collects the successfully touched paths, and the exit
  with status 1 when there are none (`toucher.dfy`, `touchp.dfy`).

The current time is one `Clock` value: its local year and second (used by
`-t`) and its timestamp (used for "now" everywhere else).

Behaviour worth knowing, as the code has it:

- The help text of `-a` (touchp.py:168) says it changes only the access time,
  and that of `-m` (touchp.py:169) only the modification time. The code
  fills the missing slot from its sibling (touchp.py:67-68), so with `-a`
  alone both times become the access time, and with `-m` alone both become
  the modification time. `Touchp.TouchedTimes` states this.
- The fallback from a missing slot to the file's current stat
  (touchp.py:61-68) is dead: that branch is only taken when at least one time
  is given, and then the sibling is used. `Toucher.FillTimes` and
  `Toucher.Touch` state results that do not mention the old times.
- Python's `or` at touchp.py:230-235 treats a zero timestamp as missing, so a
  reference file with a time of 0 yields "now" in that slot.
- An empty `-d`, `-r` or `-t` argument is false in Python and acts like no
  option at all (touchp.py:183, 190, 197). `Resolver.Resolve` models this.
- On success main() ends by opening the editor, whose own exit status is
  outside the model.
- A path given twice is touched twice (touchp.py:167, 239-241) and, when it
  succeeds, appears twice in the list handed to the editor.

The model samples the clock once; the code samples it at several moments
(see "## Left out").

## Model

| member | source | states |
|---|---|---|
| `Decimal.ParseInt` | touchp.py:210 | on ASCII digit text, `int()` of a slice succeeds exactly on non-empty digit strings, and its value is below 10 to the length |
| `Decimal.Show` | touchp.py:212 | `str(now.year)` is a non-empty digit string, one digit exactly for years below 10, with no leading zero |
| `Decimal.ParseShow` | touchp.py:212 | `int(str(n)) == n` |
| `Decimal.ValueAppend` | touchp.py:212 | reading the concatenation of two digit strings shifts the left one by the length of the right one |
| `Decimal.LeadingPair` | touchp.py:212 | for a four-digit year, `str(year)[:2]` is the rendering of `year / 100` |
| `Decimal.CenturyValue` | touchp.py:212 | for a four-digit current year, `int(str(year)[:2] + YY)` is the current century times 100 plus YY |
| `Decimal.ValueOfPad` | touchp.py:175 | a zero-padded field of a `[[CC]YY]MMDDhhmm[.ss]` text reads back as the number written |
| `Calendar.DaysInMonth` | touchp.py:220 | months have 28 to 31 days, and 29 exactly for February of a Gregorian leap year |
| `Calendar.NewDateTime` | touchp.py:220 | the `datetime` constructor succeeds exactly when year 1..9999, month 1..12, day within the month, hour 0..23, minute and second 0..59, and then keeps the fields |
| `CompactTime.Split` | touchp.py:204 | `split('.')` gives at least one piece and no piece contains a dot |
| `CompactTime.JoinSplit` | touchp.py:204 | joining the pieces of `split('.')` with dots gives back the text |
| `CompactTime.SplitCount` | touchp.py:204 | `split('.')` gives one piece more than there are dots, so the two-way unpacking succeeds only with exactly one dot |
| `CompactTime.SplitNoDot` | touchp.py:203-206 | text without a dot is a single piece |
| `CompactTime.SplitAtDot` | touchp.py:204 | text with exactly one dot splits into the part before it and the part after it |
| `CompactTime.ParseCompact` | touchp.py:199-225 | a successful parse yields a valid calendar time, the text had at most one dot, and the part before the dot was 8, 10 or 12 characters long and all digits |
| `CompactTime.CurrentYearForm` | touchp.py:208-210 | 8 digits: current year, then MM DD hh mm from consecutive pairs, current second; otherwise the range checks decide |
| `CompactTime.CenturyForm` | touchp.py:211-213 | 10 digits: the year is the current century followed by YY, then MM DD hh mm |
| `CompactTime.FullYearForm` | touchp.py:214-216 | 12 digits: the first four are the year, then MM DD hh mm |
| `CompactTime.ExplicitSeconds` | touchp.py:203-206 | a `.ss` suffix acts as a clock showing that second; a suffix `int()` rejects makes the whole text invalid |
| `CompactTime.RoundTrip` | touchp.py:201-221 | every valid calendar time written in any of the three forms, with or without `.ss`, parses back to itself when the clock supplies the century, year or second the form leaves out |
| `CompactTime.SecondsSuffix` | touchp.py:203-206 | appending `.ss` for a time's own second parses like the text without it read at that second |
| `CompactTime.LongBodyRoundTrip` | touchp.py:214-216 | a 12-digit rendering of a valid time parses back to it |
| `CompactTime.ShortBodyRoundTrip` | touchp.py:211-213 | a 10-digit rendering parses back to the time when the clock is in the same century |
| `CompactTime.MonthDayBodyRoundTrip` | touchp.py:208-210 | an 8-digit rendering parses back to the time when the clock is in the same year |
| `Resolver.Resolve` | touchp.py:179-225 | no source (or an empty one) gives no times; `-r` fails exactly on a missing reference and otherwise copies its two times; `-d` and `-t` fail exactly when parsing fails and otherwise put the parsed time (`parseDate` of the text, or `localStamp` of the parsed `-t` fields) in both slots |
| `Resolver.OrNow` | touchp.py:230 | `change or now` keeps a non-zero timestamp and turns a missing or zero one into now |
| `Resolver.Select` | touchp.py:228-235 | `-a` alone fills only the access slot, `-m` alone only the modification slot, neither or both fill both; at least one slot is always filled, each with its change or now |
| `Toucher.FillTimes` | touchp.py:56-69 | nothing given means `utime(None)`; otherwise a missing time equals the given one, given times are kept, and the file's stat never appears in the result |
| `Toucher.Touch` | touchp.py:43-77 | only the touched path changes; it exists afterwards iff it existed or could be created; success iff it exists and `utime` does not fail; `-c` on a missing path skips it; a creation failure and a `utime` failure are told apart; a failure leaves an existing file alone and a new one empty at now; a success writes the filled-in times and keeps the contents |
| `Toucher.TouchLocal` | touchp.py:43-77 | the outcome of touching a path depends only on that path's own entry |
| `Toucher.TouchIdempotent` | touchp.py:43-77 | touching a path again with the same times leaves the filesystem as the first touch left it |
| `Toucher.TouchAgain` | touchp.py:43-77 | a second touch of the same path with the same times succeeds exactly when the first did |
| `Toucher.Batch` | touchp.py:238-241 | the successful list is an in-order sublist of the paths, and a path that was not given keeps its entry (or stays absent) |
| `Toucher.SucceedAlone` | touchp.py:239-241 | a path is kept exactly when it is given and touching it alone succeeds |
| `Toucher.BatchIndependent` | touchp.py:238-241 | for any list of paths, repeated ones included, the batch keeps exactly the paths that succeed alone and leaves each as touching it alone would, so one failure does not stop or change the others |
| `Toucher.FileSystem.UpdateTimestamps` | touchp.py:29-77 | returns the success of `Touch` (False on a skip, a creation failure or a `utime` failure) and leaves the filesystem exactly as `Touch` describes |
| `Toucher.FileSystem.TouchAll` | touchp.py:237-241 | the loop builds `successful_files` and the final filesystem exactly as `Batch` describes |
| `Touchp.Execute` | touchp.py:179-246 | a time source that fails to resolve stops with status 1 before any file is touched; the editor only ever receives a non-empty in-order sublist of the paths |
| `Touchp.Run` | touchp.py:179-246 | resolving, selecting and the batch loop end as `Execute` describes |
| `Touchp.TouchedTimes` | touchp.py:227-235 | every touched file ends with explicit times: with `-a` alone both are the access time, with `-m` alone both are the modification time, otherwise each is its own, a zero or missing one replaced by now |
| `Touchp.ReferenceTimesCopied` | touchp.py:183-189 | `-r ref` without `-a`/`-m` copies ref's two times onto every touched file, except that a zero time becomes now |
| `Touchp.ExitFailureIff` | touchp.py:243-246 | after a successful resolution, touchp stops with status 1 exactly when no given path can be touched |
| `Touchp.LoneMissingPathWithNoCreate` | touchp.py:43-46 | a single missing path under `-c` creates nothing and ends with status 1 |

## Left out

- The editor window, clipboard access and writing the edited text to the files (touchp.py:82-155, 248-258): a PyQt5 user interface with its own event loop. Its exit status, which touchp returns on success, is not modelled; the model ends with `OpenEditor`.
- `argparse` (touchp.py:163-177): the command line arrives already parsed as `Invocation`, with the mutually exclusive `-d`/`-r`/`-t` as the `TimeSource` datatype. At least one path, which argparse enforces, is not required.
- `dateutil.parser.parse` and `timestamp()` for `-d` (touchp.py:190-196): a foreign library, given to `Resolve` as the function parameter `parseDate`.
- `datetime.timestamp()` for `-t` (touchp.py:221): it depends on the local time zone and uses floats, so it is the parameter `localStamp`. The OverflowError it may raise uncaught is not modelled.
- Timestamps are integers; Python uses floats with fractions of a second.
- Decimal.ParseInt: reads only ASCII digit strings; Python's `int()` also accepts signs, surrounding whitespace, underscores and non-ASCII digits.
- ParseCompact: does not model `int()`'s acceptance of signs, surrounding whitespace, underscores and non-ASCII digits in the `-t` fields; only ASCII digit strings are read as numbers.
- Real `os.path.exists`, `os.stat`, `os.utime` and `open`: the filesystem is a map, and creation and `utime` failures are the `Faults` sets. An `os.stat` failure at touchp.py:62 (possible only if the file vanishes meanwhile) is not modelled.
- Diagnostic messages on standard output and standard error.
- touchp.py samples the clock separately at lines 202, 230-235, and inside `os.utime(path, None)` and file creation. The model uses one `Clock` value for all of them.
