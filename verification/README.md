# PyQtScrcpy core, modelled in Dafny

PyQtScrcpy is a desktop front end for `scrcpy`. This project models the text
and value handling that sits between its widgets and the external `adb` and
`scrcpy` programs. It does not model the process calls themselves: every
parser takes the captured standard output as a string.

- `util.py`:
  - `devices`: the `adb devices` listing sorted into ready devices, with their
    names, and unauthorized and offline serials. The per-device name query is
    the function parameter `nameOf`.
  - `get_display_ids`: the display ids of `scrcpy --list-displays`.
  - `get_camera_sizes`: the camera table of `scrcpy --list-camera-sizes`. It is
    a line-driven state machine with an explicit state: current camera, fps
    list and high-speed flag. The order of each camera's resolutions is
    stated against `ResolutionKeys`, a fold over the lines that follows
    Python's dict order. A normal dash line keeps a known resolution in place
    and appends a new one. A high-speed match drops `base` and keeps
    `base[高速]` in place or appends it.
  - `time_to_seconds` and `check_args`.
- `main.py`:
  - the audio and video bit-rate slider labels;
  - the device label, name and serial joined by a space, a bar and a space, and
    how a selection reads the serial back;
  - what `get_devices` shows after a scan;
  - the removal of the high-speed marker `[高速]` from the camera size;
  - the argument assembly of `run`, over a record of widget settings.
  
  `os.path.isdir` and `util.convert_bitrate` are function parameters of `run`.
- `cmosui/sliding_stacked_widget.py`: the page bookkeeping of
  `SlidingStackedWidget` (`slideInIdx`, `slideInWgt`, `animationDoneSlot`) as
  an abstract state `{count, current, next, active, shown}`.

Files:
- Support modules:
  - `wrappers.dfy`: `Option`, `Result`.
  - `seqs.dfy`: filter, dedup, reverse and uniqueness.
  - `text.dfy`: Python string semantics (`strip`, `split(sep)`, `split()`,
    `int()`, `str(int)`, `replace`).
  - `ordered_dict.dfy`: an insertion-ordered dict.
- `util.py`: `device_list.dfy`, `display_ids.dfy`, `camera_sizes.dfy`, `scalars.dfy`.
- `main.py`: `bitrate_labels.dfy`, `device_labels.dfy`, `launch_args.dfy`.
- The widget: `sliding_stack.dfy`.

Python exceptions become explicit failures:
- `DisplayError` for `get_display_ids`;
- `CameraError` for `get_camera_sizes`;
- `None` from `TimeToSeconds`, which `run` propagates as `Stopped(Raised)`;
- `Error` and the `raised` field of `Slid` for the widget.

## Model

| member | source | states |
|---|---|---|
| DeviceList.ParseDevicesSpec | util.py:24-41 | After skipping the header line of the stripped output: the unauthorized and offline lists are, in order, the serials of the two-token lines with that status. The ready keys are the `device` serials without repeats, in first-seen order. Each key maps to the stripped name lookup of its serial. |
| DeviceList.ScanList | util.py:25-39 | The unauthorized or offline list built by the loop is exactly the serials of the lines `serial status` with that status, in source order. |
| DeviceList.ScanReadyKeys | util.py:28-35 | The keys of the ready map are the `device` serials in first-insertion order, each once. A later duplicate does not move its key. |
| DeviceList.ScanReadyNames | util.py:31-35 | Every ready serial maps to the stripped name its lookup returns, so a later duplicate overwrites. |
| DeviceList.IgnoredLine | util.py:26-39 | A line that does not split into two tokens, or whose status is none of the three known ones, has no effect wherever it stands. |
| DeviceList.SerialsWithStatusMembers | util.py:26-39 | A serial is listed under a status if and only if some line splits into exactly that serial and that status. |
| DeviceList.ClassifyReady | util.py:26-35 | One line adds serial -> stripped name to the ready map exactly when it splits into two tokens and the second is `device`. Otherwise the map is unchanged. |
| DeviceList.ClassifyList | util.py:36-39 | One line appends its serial to the unauthorized or offline list exactly when it is a two-token line with that status. |
| DeviceList.SerialsAreTokens | util.py:26-28 | Every serial the parser returns is non-empty and holds no whitespace. |
| DisplayIds.ScanDisplaysSucceeds | util.py:67-71 | The scan succeeds if and only if every indented `--display-id=` line yields an id. Other lines never cause a failure. |
| DisplayIds.ScanDisplaysValues | util.py:67-71 | On success there is one id per indented `--display-id=` line, in source order, each the id that line yields. |
| DisplayIds.FirstLineNeverCounted | util.py:67-69 | The first line of the stripped output has lost its indent, so it is never a display line. |
| DisplayIds.DisplayLineSplit | util.py:69-70 | The first `=` of a display line is the one closing the prefix, so `split('=')[1]` begins right after it. |
| DisplayIds.DisplayIdRoundTrip | util.py:69-70 | A line written as the prefix, a number, and then nothing or whitespace-led text yields that number. |
| DisplayIds.ListingRoundTrip | util.py:67-71 | A listing of such display lines reads back as the list of numbers written, in order. |
| DisplayIds.SegmentRest | util.py:70 | The segment after the first `=` of a digits-led line is the digits followed by nothing or by whitespace-led text. |
| CameraSizes.CameraIdMatch | util.py:100 | `--camera-id=(\d+).*fps=\[(.*?)]` fails to match exactly when the line does not start with the prefix, no digit follows it, or no `fps=[` with a later `]` follows the digits. A match captures the maximal non-empty ASCII digit run right after the prefix, and as second group the fps group after the last such `fps=[`. |
| CameraSizes.FpsGroup | util.py:100 | The fps group is absent exactly when no `fps=[` with a later `]` follows the position. When present it holds no `]`. |
| CameraSizes.CameraLineRoundTrip | util.py:99-103 | A camera line written from an id, any text not starting with a digit, a non-empty list of digit rates in `fps=[...]` and a tail without brackets, such as scrcpy's closing `)`, reads back as that id and those rates. |
| CameraSizes.HighSpeedMatch | util.py:112 | A match of `(.+?) \(fps=\[(.*?)]\)` gives a non-empty shortest base and a list with no `])`. No match means no ` (fps=[` after the first character is ever closed. |
| CameraSizes.HighSpeedLineRoundTrip | util.py:112-115 | A high-speed resolution written from a base without `(` and digit rates reads back as the stripped base and the rates, whatever follows. |
| CameraSizes.ResolutionOf | util.py:110 | The resolution text is empty or starts and ends with a non-space character. |
| CameraSizes.ResolutionOfLine | util.py:98-110 | A line made of whitespace, dashes, whitespace, a resolution and whitespace gives back that resolution, for any resolution that has no whitespace at its ends and does not start with a dash. |
| CameraSizes.StepCamera | util.py:99-106 | A matching camera line makes its camera current and takes its fps list. It adds an empty entry only for a new camera and leaves high-speed mode. No other camera's entry changes. |
| CameraSizes.StepUnmatchedCamera | util.py:99-101 | A `--camera-id=` line that the regex rejects changes nothing. |
| CameraSizes.StepHeader | util.py:107-108 | The high-speed header line switches high-speed mode on and changes nothing else. |
| CameraSizes.StepOther | util.py:97-121 | A line that is not a camera line, the header or a dash line changes nothing. |
| CameraSizes.StepResolution | util.py:109-121 | In normal mode a dash line maps its stripped resolution to the current fps list. Every other resolution and camera is unchanged, and the camera keys keep their order. The resolution keeps its place when already present and is appended otherwise. |
| CameraSizes.StepHighSpeed | util.py:111-119 | In high-speed mode a matching line stores `base[高速]`: the old fps of `base` followed by the high-speed fps, or the high-speed fps alone. `base` itself is removed and nothing else changes. In the key order `base` drops out and `base[高速]` keeps its place or is appended. |
| CameraSizes.MergeHighSpeedGet | util.py:116-119 | The high-speed merge on one camera's sizes keeps keys unique, removes `base` and adds `base[高速]` with the old fps followed by the new ones. The keys are the old keys with `base` taken out and `base[高速]` kept in place or appended. |
| CameraSizes.StepHighSpeedUnmatched | util.py:111-113 | In high-speed mode a dash line that is not `base (fps=[...])` changes nothing. |
| CameraSizes.StepFailsIff | util.py:111-121 | A line raises if and only if no camera has matched yet and it is a dash line which, in high-speed mode, also matches the high-speed pattern. It raises `KeyError` in high-speed mode and `UnboundLocalError` in normal mode. Otherwise the loop invariant is kept. |
| CameraSizes.StepControl | util.py:99-108 | After any successful line the current camera is the matched id, if any. High-speed mode is reset by a camera line and set by the header. A camera key is added only when new. |
| CameraSizes.ScanState | util.py:96-121 | After a successful loop the cameras are the distinct matched camera ids in first-seen order. No camera is current only if no camera line matched. |
| CameraSizes.ScanFails | util.py:96-121 | The loop raises if and only if some line is a dash line that raises before any camera line matched. |
| CameraSizes.Finish | util.py:123 | The result keeps the cameras and their order and reverses each camera's resolutions. |
| CameraSizes.StepKeys | util.py:97-121 | One successful line changes a camera's resolution keys only when it is a dash line read while that camera is current. The change is the one `ResolutionKeys` names for the line. |
| CameraSizes.ScanOrder | util.py:96-121 | After a successful loop the current camera is the last matched id and high-speed mode is whatever the last camera or header line left. Every camera's resolution keys are, in order, those that `ResolutionKeys` builds line by line. |
| CameraSizes.ParseCameraSizesSpec | util.py:96-123 | `get_camera_sizes` fails if and only if the lines are blocked. On success the cameras are the distinct matched ids in first-seen order. Each camera keeps its resolutions with the same fps lists. Its keys are the reverse of the order that `ResolutionKeys` builds from the lines. |
| Scalars.TimeToSeconds | util.py:127-129 | A result exists if and only if the text splits on `:` into exactly three integers. |
| Scalars.TimeOfShownParts | util.py:127-129 | Three integers written with `:` between them convert to h*3600 + m*60 + s. |
| Scalars.TimeRoundTrip | util.py:127-129 | The `hh:mm:ss` writing of any number of seconds converts back to that number. |
| Scalars.CheckArgs | util.py:144-146 | Every invalid argument ends in `=` and every argument ending in `=` is invalid. Every valid argument comes from the input and does not end in `=`. |
| Scalars.CheckArgsValid | util.py:146 | The valid arguments are, in order, exactly the inputs that do not end in `=`. |
| Scalars.CheckArgsPartition | util.py:145-146 | The valid and invalid lists are together a permutation of the input. |
| BitrateLabels.AudioBitrateLabel | main.py:299-317 | The audio label is always one of the seven strings `32K` ... `2M`. |
| BitrateLabels.AudioLabelIsLadder | main.py:300-315 | Each band's label is the ladder's rate written out: 32, 64, 128, 256, 512 kbit/s, then 1 and 2 Mbit/s, and the 128K default at 100 and above. |
| BitrateLabels.AudioLabelMeaning | main.py:299-317 | Reading the label back in kbit/s gives the ladder's rate for the slider value. |
| BitrateLabels.AudioLadderMonotone | main.py:300-313 | Below 100 a higher slider value never names a lower rate. |
| BitrateLabels.VideoPosition | main.py:320-323 | The effective slider value is never 0 or 99, and lies in 1..100 for non-negative input. |
| BitrateLabels.VideoBitrateLabel | main.py:318-332 | The label ends in ` K` exactly when the rate is below 1000 kbit/s, and in ` M` otherwise. Before ` K` stands an integer, without a sign for non-negative slider values; before ` M` stand digits, a dot and exactly two digits. |
| BitrateLabels.VideoLabelMeaning | main.py:324-332 | Reading the video label back gives 50 kbit/s per effective slider step, in both the ` K` and the two-decimal ` M` format. |
| BitrateLabels.VideoKbpsBounds | main.py:320-324 | For non-negative slider values the rate lies in 50..5000 kbit/s and grows with the slider. |
| DeviceLabels.DeviceLabel | main.py:255 | The label starts with the name, then the separator (space, bar, space), and ends with the serial. |
| DeviceLabels.SerialOfLabel | main.py:231 | What the selection reads is a suffix of the label. |
| DeviceLabels.SerialOfLabelRoundTrip | main.py:231 | For a whitespace-free serial and a name holding no bar character, the label of line 255 splits at the separator into exactly the name and the serial, so the selection reads the serial. |
| DeviceLabels.SerialOfLabelMisreads | main.py:231 | For the device whose name is `x` followed by a space and a bar, with serial `s`, the selection reads a bar, a space and `s` instead of `s`. The text after the last separator is `s`. |
| DeviceLabels.SerialAfterLastSep | main.py:231 | The text after the last separator is a suffix of the label and contains no separator. |
| DeviceLabels.SerialAfterLastSepRoundTrip | main.py:231 | For any name and any whitespace-free serial, the text after the last separator of the line-255 label is the serial. |
| DeviceLabels.DeviceItems | main.py:255 | One item per ready device, in map order, each starting with the name and ending with the serial. |
| DeviceLabels.SelectedSerial | main.py:228-234 | No serial when nothing is selected. Otherwise the last piece of splitting the first selected item at the separator, a suffix of that item. |
| DeviceLabels.SelectDevice | main.py:228-255 | Selecting the k-th item of a scan gives back the k-th ready serial when that device's name holds no bar character. |
| DeviceLabels.SelectionMisreads | main.py:228-255 | Selecting the item of a device named `x` plus a space and a bar, with serial `s`, sets a bar, a space and `s`; the corrected reading sets `s`. |
| DeviceLabels.CorrectedSelectedSerial | main.py:228-234 | The corrected reading: no serial when nothing is selected, otherwise a suffix of the first selected item that holds no separator. |
| DeviceLabels.CorrectedSelectDevice | main.py:228-255 | With the corrected reading, selecting the k-th item of a scan gives back the k-th ready serial, whatever the device names are. |
| DeviceLabels.ViewOf | main.py:254-262 | The device list is shown when there are ready devices. Otherwise there is an unauthorized warning, then an offline warning, then "no device", each with its count. |
| DeviceLabels.WarningListsSerials | main.py:256-260 | The warning text splits back into the serials it counts. |
| DeviceLabels.CameraSizeArg | main.py:148 | The size is the entry split at every `[高速]`, left to right, with the pieces joined back without a separator, the meaning of `replace` with an empty string. It is never longer than the entry. |
| DeviceLabels.CameraSizeOfHighSpeed | main.py:148 | A high-speed entry `base[高速]` is passed on as `base` when the base holds no `[`. |
| DeviceLabels.CameraSizeOfNormal | main.py:148 | An entry without the marker is passed on unchanged. |
| LaunchArgs.LimitArgs | main.py:123-128 | With a time limit: a duration that does not convert raises and one of 0 seconds stops with a tip. Any other gives exactly `--time-limit=<seconds>`. |
| LaunchArgs.RecordArgs | main.py:118-131 | Recording into a missing folder stops with a tip. Otherwise the quoted folder and the time-limit argument are present and a time-limit stop is passed on. Without recording nothing is added. |
| LaunchArgs.FirstChecked | main.py:150-155 | An `if`/`elif` chain gives nothing if and only if no box is checked. Otherwise it gives the value of the first checked box. |
| LaunchArgs.ChoiceArgs | main.py:150-155 | A codec or source group adds at most one argument, and none if and only if no box is checked. |
| LaunchArgs.Piece | main.py:110-117 | An optional argument is present if and only if its box is checked. |
| LaunchArgs.Convert | main.py:156 | The bit-rate conversion raises exactly when `convert_bitrate` fails, and otherwise passes its value on. |
| LaunchArgs.VideoArgs | main.py:134-158 | Video off gives exactly `--no-video`. Video on raises if and only if the bit rate does not convert, and otherwise ends with `--video-bit-rate=<converted>`. |
| LaunchArgs.AudioArgs | main.py:160-174 | Audio off gives exactly `--no-audio`. Audio on raises if and only if the bit rate does not convert, and otherwise ends with `--audio-bit-rate=<converted>`. |
| LaunchArgs.ProArgs | main.py:133-174 | Without the pro page nothing is added. With it, it fails if and only if either half fails. |
| LaunchArgs.Run | main.py:108-182 | `run` stops if and only if the assembly stops, for the same reason. A launch passes on only arguments not ending in `=` and reports only those ending in `=` as invalid. |
| LaunchArgs.Launched | main.py:182 | Every assembled argument is either passed on or reported invalid, by whether it ends in `=`. |
| LaunchArgs.RunMissingFolder | main.py:118-121 | Recording into a folder that does not exist stops with a tip on the folder field, whatever else is set. |
| LaunchArgs.RunTimeLimit | main.py:123-128 | Under a time limit, a bad duration raises and 0 seconds stops with a tip on the limit field. A launch carries `--time-limit=<seconds>`. |
| LaunchArgs.RunFormattedLimit | main.py:123-128 | A positive duration typed as `hh:mm:ss` is never refused. The launch carries exactly that many seconds, and only a bit rate can still raise. |
| LaunchArgs.RunBadBitRate | main.py:133-172 | On the pro page, a bit rate of an enabled half that does not convert raises, once recording has not stopped the launch. |
| LaunchArgs.AssembleNames | main.py:108-180 | The assembled options come only from the switches, the recording section, the enabled halves of the pro page and the port section, and no option appears twice. |
| LaunchArgs.RunNames | main.py:108-182 | A launch passes the rendering of a sub-list of the assembled arguments, with those same name guarantees. |
| LaunchArgs.RunWithoutProPage | main.py:133 | Without the pro page the video and audio settings and the bit-rate conversion do not matter, and no pro-page option is passed. |
| LaunchArgs.MediaFlag | main.py:157-174 | On the pro page, `--no-video` (`--no-audio`) is passed if and only if video (audio) is switched off. |
| LaunchArgs.RunMediaChoice | main.py:133-182 | On the pro page a launch carries `--no-video` exactly when video is off and the converted video bit rate when it is on, and likewise for audio. |
| SlidingStack.Initial | cmosui/sliding_stacked_widget.py:6-16 | A freshly filled stack satisfies the invariant: nothing slides and the first page, if any, is current. |
| SlidingStack.AnimationDone | cmosui/sliding_stacked_widget.py:89-95 | The slid-to page becomes current and is the only page shown, the slide is no longer active, and the invariant is kept. |
| SlidingStack.Settled | cmosui/sliding_stacked_widget.py:48-50 | A running slide is completed first. With none running the state is unchanged. |
| SlidingStack.AnimationDoneIdempotent | cmosui/sliding_stacked_widget.py:89-95 | Completing twice is completing once. |
| SlidingStack.SlideInWgt | cmosui/sliding_stacked_widget.py:47-87 | Sliding to the current page is a no-op after settling and leaves the widget inactive. A widget outside the stack raises once a page exists. Any other page becomes the one slid to, shown beside the current page, which stays current. |
| SlidingStack.SlideToCurrent | cmosui/sliding_stacked_widget.py:52-56 | Sliding to the current page with nothing running changes nothing. |
| SlidingStack.SlideInterrupts | cmosui/sliding_stacked_widget.py:48-50 | A slide started while one runs behaves as if the running one had completed. |
| SlidingStack.SlideThenDone | cmosui/sliding_stacked_widget.py:47-95 | Sliding to any page and letting it complete leaves exactly that page current and shown. |
| SlidingStack.NormalizeIndex | cmosui/sliding_stacked_widget.py:41-44 | The three branches of the wrap: an empty stack raises `ZeroDivisionError`. Otherwise the index is Python's `idx % count`, in range, and an index already in range is unchanged. |
| SlidingStack.SlideInIdx | cmosui/sliding_stacked_widget.py:40-45 | An empty stack raises. Otherwise it slides to the widget at the wrapped index. |
| SlidingStack.SlideInIdxWraps | cmosui/sliding_stacked_widget.py:40-45 | Indices one full turn apart slide to the same page. |
| SlidingStack.SlideInIdxEndsOnPage | cmosui/sliding_stacked_widget.py:40-45 | On a non-empty stack, sliding by index and completing ends on page `idx mod count`. |

## Left out

- The `adb` and `scrcpy` process calls, `subprocess.Popen` of the launch command and the command string. The parsers take the captured output. The device-name query is the parameter `nameOf`.
- `convert_bitrate` (util.py:132-141) parses floats and truncates. `run` takes it as the parameter `convert`, whose `None` stands for the `ValueError` it raises.
- Python `int()` is modelled as surrounding whitespace, an optional sign and ASCII digits. Underscores between digits and non-ASCII digits are not accepted, and `\d` in the camera regex matches ASCII digits only.
- The widget state after `slideInWgt` raises for a widget outside the stack is modelled up to the raise, with `m_active` left set. The geometry, `m_now`, `m_pnow`, direction, speed, easing and the animation group are left out, as are adding and removing pages.
- Threads, Qt signals, the exception hook, window resizing, `os.environ` updates, info bars (`info_bar.py`), tips (`cmosui/button_tip.py`) and the constants of `consts.py` are UI or platform plumbing with no logic of their own.
- LaunchArgs.Run: the launch's command line (`" ".join(args)` inside `start cmd`) is not modelled. The result is the list of rendered arguments.
- Behaviours of the code worth knowing, modelled as written:
  - The three device collections are not disjoint: the same serial on two lines with different statuses appears in both.
  - `time_to_seconds` raises `ValueError` on bad input; the model returns `None` for it.
  - A duration of 0 seconds aborts the launch, because the walrus test treats 0 as false.
  - The selection handler reads the serial as the last piece of a left-to-right split, as written; the text after the last separator is kept apart as the corrected reading of "## Findings".
- DeviceLabels.SelectDevice: promises the selected serial only for a device whose name holds no bar character, because the handler as written misreads names ending in a space and a bar (see "## Findings").

## Findings

| source | as written | input that shows it | evidently intended | confidence | as-written member | corrected member |
|---|---|---|---|---|---|---|
| main.py:231 | the last piece of a left-to-right split at the separator | name `x` plus a space and a bar, serial `s`: the label is `x`, two separators sharing their middle space, then `s`; the split gives `x` and a bar, a space, `s`, so the serial read keeps the bar | the text after the last separator, which is the serial for every name, since serials hold no whitespace | not executed | DeviceLabels.SelectionMisreads | DeviceLabels.CorrectedSelectDevice |
