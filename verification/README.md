# xrandr "biggest monitor wins" — a Dafny model

The program asks `xrandr -q` for the connected outputs and reads the preferred
(first) mode of each one. It then asks `xrandr --listactivemonitors` which
monitors are lit. If the widest lit monitor is not the widest connected one,
it runs `xrandr` once. That call switches on every output named like the
widest connected one, at its mode, and switches every other output off.

This project models the pure core of `src/main.rs` as Dafny functions over
text and proves properties of it:

- `text.dfy` (`Text`): the Rust string primitives the core relies on.
  - `str::trim`, with the Unicode `White_Space` set.
  - `str::lines`: `"\n"` or `"\r\n"` end a line and the final terminator is optional.
  - `split_once`, `split(' ')` and `contains`.
  - `trim_end_matches`.
  - `usize::from_str` (an optional `+`, decimal digits, at most 2^64 - 1) and `usize`'s decimal printing.
- `outcomes.dfy` (`Outcomes`): a `Result` that separates an `anyhow` error (`Err`) from an index-out-of-bounds panic (`Panic`).
- `chunking.dfy` (`Chunking`): `Monitors::parse_xrandr_monitors`. `Chunks` is the chunking as a recursive function; `ParseXrandrMonitors` is the source's loop with its index-peeking inner scan.
- `monitor.dfy` (`MonitorModel`): the `Monitor` record, `Monitor::set_strings` and `Monitor::parse_max_from_chunk`.
- `monitors.dfy` (`Monitors`): `from_cli_text`, `get_current_from_list`, `get_biggest` and `get_biggest_command_string`. Lazy `collect::<Result<Vec<_>>>()` is modelled as `MapAll`: the first failing element decides, and later ones are never looked at.
- `reconcile.dfy` (`Reconciler`): the decision `main` takes, as `Reconcile` and `Run`. It also renders a simplified active-list text, in the shape `get_current_from_list` accepts, for the monitors the command switches on. Running the program a second time is reasoned about against that rendering.
- `scenario.dfy` (`Scenario`): what the chunking does on the layout `xrandr -q` prints. It covers the layout of the repository's own sample: a summary line, a connected output, several disconnected ones, and another connected output.

Behaviour modelled as the code has it, including the odd parts:

- A multi-line chunk that is not the last one absorbs the next output's header line.
- A single line left over at the end is dropped.
- Two connected outputs in a row lose the second one's header.
- Active-list lines are split on `' '`, not on general whitespace.
- Only a literal slash-star suffix is stripped, as often as it repeats.
- A chunk whose header has a space but that has no second line panics.
- `get_biggest` panics on an empty list, and ties go to the first widest monitor.
- A width or height of 0 is accepted.

## Model

| member | source | states |
|---|---|---|
| Chunking.ScanEnd | src/main.rs:82-90 | The inner scan stops one past the first line containing "connected" at or after its start, or at the end; no line it passes over contains "connected". |
| Chunking.ChunkLen | src/main.rs:80-90 | A chunk is one line exactly when the second line contains "connected". Otherwise no line after the first, up to its end, contains "connected" except its last line, which does unless the chunk reaches the end. |
| Chunking.Chunks | src/main.rs:79-93 | No chunks exactly when at most one line is left. Every chunk is non-empty, and the first chunk starts at the first line. No boundary lies inside a chunk or at its second line. A non-final multi-line chunk ends with a boundary, and a single-line chunk is followed by a chunk that starts with one. |
| Chunking.ParseXrandrMonitors | src/main.rs:75-95 | The source's loop, with its peeking inner loop and `break`, produces exactly `Chunks` of its input. |
| Chunking.ChunksCover | src/main.rs:79-93 | Concatenating the chunks in order gives a prefix of the input lines that misses at most the last line. |
| Chunking.ChunksLastSingle | src/main.rs:79-92 | When the last chunk is a single line, exactly one line was dropped, and that dropped line contains "connected". |
| Text.Trim | src/main.rs:77 | `trim` returns a slice of its input between two margins that are all whitespace, and the slice neither starts nor ends with whitespace. |
| Text.TrimPadded | src/main.rs:77 | Trimming strips leading whitespace padding and keeps a body that starts and ends with non-whitespace. |
| Text.Lines | src/main.rs:77 | No line contains a newline, and there are no lines exactly when the text is empty. |
| Text.LinesOfJoin | src/main.rs:114 | Splitting into lines undoes joining with "\n" when no line contains "\n" or ends in "\r" and the last line is non-empty. |
| Text.SplitOnce | src/main.rs:161-163 | `split_once` fails exactly when the separator is absent; otherwise it returns the text before the first separator and the text after it. |
| Text.Split | src/main.rs:115 | `split(' ')` yields at least one field and no field contains the separator. Joining the fields gives back the line, and there is a single field exactly when the separator is absent. |
| Text.SplitConcat | src/main.rs:115-122 | Splitting `p + [c] + q` gives the fields of `p` followed by those of `q`. |
| Text.TrimEndMatches | src/main.rs:127-128 | The result no longer ends with the pattern, and the input is the result followed by some number of copies of the pattern. |
| Text.Contains | src/main.rs:67 | `contains` holds exactly when the pattern occurs at some position. |
| Text.ParseUsize | src/main.rs:180-185 | A parsed value is at most 2^64 - 1 and comes from a non-empty string of digits with an optional leading '+'. |
| Text.ParseUsizeOfDecimal | src/main.rs:180-185 | Any string made of an optional '+', any number of '0's, and the decimal form of a value up to 2^64 - 1 parses to that value. |
| Text.ParseUsizeForm | src/main.rs:180-185 | Conversely, every string that parses is an optional '+', then '0's, then the decimal form of the parsed value. |
| Text.NatToString | src/main.rs:154 | `usize`'s decimal form is non-empty, all digits, and has no leading zero. |
| Text.ParseUsizeOfNatToString | src/main.rs:154 | Parsing a printed number gives the number back. |
| MonitorModel.ModeStringRoundTrip | src/main.rs:154 | The `WxH` mode argument splits at its 'x' into the printed width and height, which parse back to the monitor's own dimensions. |
| MonitorModel.PrimaryRefresh | src/main.rs:169-176 | The refresh rate kept is the first space-free token of the trimmed remainder, or the whole trimmed remainder when it has no space. |
| MonitorModel.ParseModeLineSpec | src/main.rs:164-185 | The first mode line is accepted exactly when it has a `WxH` field before its first space, split at the first 'x', with both sides parsing as `usize`. The result carries those sides and the refresh token after the space. |
| MonitorModel.ParseMaxFromChunk | src/main.rs:159-192 | Panics exactly when the chunk is empty, or is one line that contains a space. A parsed monitor's name is the text before the header's first space, and its dimensions fit in `usize`. |
| MonitorModel.ParseMaxFromChunkSpec | src/main.rs:159-192 | A chunk parses exactly when it has two lines, the header has a space, and the trimmed second line has the `WxH ` shape. The monitor then carries those dimensions and the primary refresh rate. |
| MonitorModel.ParseMaxFromChunkRoundTrip | src/main.rs:159-192 | A chunk printed from a monitor — name, status, indented mode with refresh rate, any further lines — parses back to that monitor. |
| Monitors.MapAll | src/main.rs:68-70 | Succeeds exactly when every element does, and then holds the per-element results in order. A failure is that of the first failing element, of the same kind. |
| Monitors.KeepLive | src/main.rs:64-67 | Keeps exactly the chunks whose header does not contain "disconnected", never adding any. |
| Monitors.KeepLiveAppend | src/main.rs:64-67 | The filter works element by element and keeps order: filtering a concatenation concatenates the filtered parts. |
| Monitors.KeepLiveOne | src/main.rs:67 | A single chunk is kept exactly when its header does not contain "disconnected". |
| Monitors.FromCliText | src/main.rs:62-74 | Succeeds exactly when every live chunk after the first parses, giving one monitor per live chunk in order. Otherwise the first failing chunk's outcome is the result. |
| Monitors.ParseActiveModeSpec | src/main.rs:120-128 | The mode field is accepted exactly when it splits at its first 'x' into two sides that parse as `usize` once trailing slash-star markers are stripped. |
| Monitors.ParseActiveLine | src/main.rs:115-134 | Never panics. A line without a space fails, and a parsed monitor is named by the line's last field and has no refresh rate. |
| Monitors.ParseActiveLineSpec | src/main.rs:115-134 | A line is accepted exactly when it has a space and its second-to-last field is an accepted mode, whose sides become the monitor's dimensions. |
| Monitors.ParseActiveLines | src/main.rs:114-135 | Never panics. Succeeds exactly when every line parses, giving one monitor per line, in order. |
| Monitors.GetCurrentFromList | src/main.rs:112-137 | The header line is skipped. The result succeeds exactly when every later line parses, giving one monitor per line, in order; it never panics. |
| Monitors.BiggestFrom | src/main.rs:97-103 | The loop with a strict `>` ends on the first monitor of greatest width. |
| Monitors.BiggestIndex | src/main.rs:96-104 | The chosen index holds a monitor at least as wide as every other, and strictly wider than every earlier one. |
| Monitors.FirstWidestUnique | src/main.rs:96-104 | Only one index is the first widest, so `get_biggest`'s choice is determined. |
| Monitors.BiggestIgnoresHeight | src/main.rs:99 | Lists with the same widths, position by position, have the same biggest monitor whatever their heights and names. |
| Monitors.GetBiggest | src/main.rs:96-104 | Panics exactly on an empty list, never fails otherwise, and returns the first widest monitor. |
| Monitors.ArgsForDecodes | src/main.rs:105-111 | The argument list decodes into exactly one `--output` group per monitor, in order. Each group switches its monitor on at its own mode exactly when it carries the target name, and off otherwise. |
| Monitors.ArgsForLength | src/main.rs:148-158 | Four arguments per monitor switched on and three per monitor switched off. |
| Monitors.CommandStringDecodes | src/main.rs:105-111 | The command switches the widest monitor on at its mode, and treats every other monitor according to its name. Its length follows the four/three count. |
| Reconciler.Reconcile | src/main.rs:46-53 | Never fails with an error. Panics exactly when either list is empty. Asks for the command exactly when the widest active and widest connected monitors have different names, and the command is `get_biggest_command_string` of the connected monitors. |
| Reconciler.Run | src/main.rs:28-54 | The program fails exactly when the capability query does not parse, yields no monitor, or the active list does not parse. It panics exactly when the capability query panics or the active list is empty. It reconfigures exactly when both lists parse non-empty and their widest monitors have different names, and then the arguments are the command string. |
| Reconciler.Enabled | src/main.rs:105-111 | The monitors the command switches on are exactly those named like the widest one. |
| Reconciler.ActiveLineRoundTrip | src/main.rs:115-134 | An active-list line printed for a monitor reads back as that monitor without its refresh rate. |
| Reconciler.ActiveListRoundTrip | src/main.rs:112-137 | A printed active list reads back as its monitors, in order, without refresh rates. |
| Reconciler.ReconcileAfterApply | src/main.rs:46-53 | Against the simplified active list of the monitors the command switches on, reconciliation asks for nothing: the command is idempotent on that rendering. |
| Reconciler.RunAfterApplyIsUnchanged | src/main.rs:28-54 | A second run of the program, whose active list is the simplified rendering of the monitors the command switched on, changes nothing. |
| Scenario.HeaderRun | src/main.rs:79-93 | A run of header lines followed by another header becomes one single-line chunk per line. |
| Scenario.SampleChunks | src/main.rs:79-93 | For the sample's layout the chunks are: the summary; the first output with its modes and the first disconnected header; the other disconnected headers one by one; the last output with its modes. |
| Scenario.SampleFlatten | src/main.rs:271-280 | For that layout, the chunks laid end to end give back every line. |
| Scenario.SampleTextRoundTrip | src/main.rs:271-280 | For the sample text with leading blank space, joining the flattened chunks with "\n" gives back the trimmed text. |
| Scenario.SampleLiveChunks | src/main.rs:282-295 | For that layout, the filter keeps exactly the two connected outputs' chunks. |
| Scenario.SampleLiveText | src/main.rs:62-70 | `from_cli_text` on the sample text parses exactly those two chunks. |
| Scenario.OutputParses | src/main.rs:159-192 | An output's header and first mode line, laid out as `xrandr -q` prints them, parse to the monitor they show, whatever lines follow. |
| Scenario.TwoLiveChunks | src/main.rs:62-74 | When the live chunks are exactly two and they parse to `a` and `b`, `from_cli_text` returns `[a, b]`. |
| Scenario.SampleMonitors | src/main.rs:282-295 | On the sample's layout, `from_cli_text` returns exactly the two connected outputs' monitors, in order. These are the two monitors the test counts. |
| Scenario.SecondWiderCommand | src/main.rs:105-111 | For two differently named monitors where the second is strictly wider, the command switches the first off and the second on at its mode. |
| Scenario.SampleRun | src/main.rs:28-54 | On the sample's layout with the second output wider, if the widest active monitor is the first output, the program reconfigures: it switches the first output off and the second on. |
| Scenario.AdjacentOutputs | src/main.rs:79-93 | When two connected outputs follow each other, the first one's chunk swallows the second one's header, and the remaining mode lines are chunked on their own. |

## Left out

- `launch_xrandr` is left out. Spawning `xrandr`, reading its standard output and rejecting non-UTF-8 output are I/O; the model takes the two query outputs as strings.
- The final `xrandr` call in `main`, and the `unwrap`s on its spawn and wait, are left out. `Run` returns the arguments it would be given.
- `eprintln!` messages, exit codes and `anyhow` context texts are left out. All errors are one `Err`, exit code 1 is `Failed`, and a panic is `Aborted`.
- The test module is not modelled as code. Its two properties are restated as `Scenario` lemmas over the sample's layout, with the lines as parameters rather than the literal sample text.
- `usize` is taken to be 64 bits wide, so `ParseUsize` rejects values above 2^64 - 1. On a 32-bit target the bound would be 2^32 - 1.
- `Monitor`'s `Debug` derive is not modelled.
- Reconciler.ReconcileAfterApply: holds for the simplified rendering only. Real `--listactivemonitors` lines print the mode as `W/mmxH/mm+X+Y` and put two spaces before the name; splitting such a line on `' '` makes the mode field empty, so `get_current_from_list` as written returns `Err` on real output.
- Reconciler.RunAfterApplyIsUnchanged: the same restriction; on the real active-list format the second run fails with `Err` instead of finishing unchanged.
- Reconciler.ActiveListText: the `--listactivemonitors` format is rendered only as far as `get_current_from_list` reads it. There is a header line, then one line per monitor ending in its mode and name. The geometry offsets and physical sizes of real output are not printed.
