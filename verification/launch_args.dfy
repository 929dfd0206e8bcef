/** The command-line arguments the window assembles for scrcpy when the user
    presses start (`run`). The widgets are read into a `Settings` record; the
    folder test and the bit-rate conversion are parameters (`isDir`, and
    `convert`, whose `None` is the `ValueError` the conversion raises). `run`
    either launches with the arguments `check_args` keeps, or stops: with a tip
    on a field, or because a conversion raised. */
module LaunchArgs {
  import opened Wrappers
  import opened Seqs
  import opened Text
  import opened Scalars
  import DeviceLabels

  datatype RecordSettings = RecordSettings(
    enabled: bool,
    folder: string,
    limitTime: bool,
    limit: string,
    noPlayback: bool)

  datatype VideoSettings = VideoSettings(
    enabled: bool,
    setOrientation: bool, orientation: string,
    buffer: string,
    limitFps: bool, maxFps: string,
    source: string,
    setDisplay: bool, display: string,
    limitSize: bool, maxSize: string,
    cameraId: string, cameraSize: string, cameraFps: string,
    h264: bool, h265: bool, av1: bool,
    bitRate: string)

  datatype AudioSettings = AudioSettings(
    enabled: bool,
    fromOutput: bool, fromMic: bool,
    buffer: string,
    opus: bool, aac: bool, flac: bool,
    bitRate: string)

  datatype Settings = Settings(
    stayAwake: bool, turnScreenOff: bool, powerOffOnClose: bool, noControl: bool,
    record: RecordSettings,
    pro: bool,
    video: VideoSettings,
    audio: AudioSettings,
    customPort: bool, port: string,
    tcpip: bool)

  /** The field a tip points at when `run` gives up. */
  datatype Field = RecordFolder | RecordLimit

  datatype Stop = Tip(field: Field) | Raised

  datatype Outcome =
    | Launch(args: seq<string>, invalid: seq<string>)
    | Stopped(reason: Stop)

  // ----- arguments and their option names -----

  /** The scrcpy options `run` can pass. */
  datatype Key =
    | StayAwake | TurnScreenOff | PowerOffOnClose | NoControl
    | Record | TimeLimit | NoPlayback
    | Orientation | DisplayBuffer | MaxFps | DisplayId | MaxSize
    | VideoSource | CameraId | CameraSize | CameraFps | VideoCodec | VideoBitRate | NoVideo
    | AudioSource | AudioBuffer | AudioCodec | AudioBitRate | NoAudio
    | TunnelPort | Tcpip

  /** How an option is spelled on the command line. */
  function Spelling(k: Key): string {
    match k
    case StayAwake => "--stay-awake"
    case TurnScreenOff => "--turn-screen-off"
    case PowerOffOnClose => "--power-off-on-close"
    case NoControl => "--no-control"
    case Record => "--record"
    case TimeLimit => "--time-limit"
    case NoPlayback => "--no-playback"
    case Orientation => "--orientation"
    case DisplayBuffer => "--display-buffer"
    case MaxFps => "--max-fps"
    case DisplayId => "--display-id"
    case MaxSize => "--max-size"
    case VideoSource => "--video-source"
    case CameraId => "--camera-id"
    case CameraSize => "--camera-size"
    case CameraFps => "--camera-fps"
    case VideoCodec => "--video-codec"
    case VideoBitRate => "--video-bit-rate"
    case NoVideo => "--no-video"
    case AudioSource => "--audio-source"
    case AudioBuffer => "--audio-buffer"
    case AudioCodec => "--audio-codec"
    case AudioBitRate => "--audio-bit-rate"
    case NoAudio => "--no-audio"
    case TunnelPort => "--tunnel-port"
    case Tcpip => "--tcpip"
  }

  /** One command-line argument: a bare switch `--name`, or `--name=value`
      built from a widget's text. */
  datatype Arg = Flag(name: Key) | Opt(name: Key, value: string)

  /** The argument as `run` writes it (its f-string). */
  function Render(a: Arg): string {
    match a
    case Flag(name) => Spelling(name)
    case Opt(name, value) => Spelling(name) + "=" + value
  }

  /** The rendered arguments, in order. */
  function Renders(args: seq<Arg>): (shown: seq<string>)
    ensures |shown| == |args|
    ensures forall i :: 0 <= i < |args| ==> shown[i] == Render(args[i])
    decreases |args|
  {
    if |args| == 0 then [] else Renders(args[..|args| - 1]) + [Render(Last(args))]
  }

  /** The arguments `check_args` keeps. */
  predicate Kept(a: Arg) {
    NotEndsWithEquals(Render(a))
  }

  /** Keeping the arguments whose rendering does not end in `=` and then
      rendering them is `check_args` on the rendered list. */
  lemma {:induction false} RendersFilter(args: seq<Arg>)
    ensures Renders(Filter(args, Kept)) == Filter(Renders(args), NotEndsWithEquals)
    decreases |args|
  {
    if |args| > 0 {
      var init := args[..|args| - 1];
      RendersFilter(init);
      assert Renders(args)[..|args| - 1] == Renders(init);
      assert Last(Renders(args)) == Render(Last(args));
      var tail := if Kept(Last(args)) then [Last(args)] else [];
      RendersConcat(Filter(init, Kept), tail);
    }
  }

  lemma RendersConcat(a: seq<Arg>, b: seq<Arg>)
    ensures Renders(a + b) == Renders(a) + Renders(b)
  {
    var r := Renders(a + b);
    assert forall i :: 0 <= i < |a + b| ==> r[i] == (Renders(a) + Renders(b))[i];
  }

  predicate NamesIn(args: seq<Arg>, names: set<Key>) {
    forall i :: 0 <= i < |args| ==> args[i].name in names
  }

  /** No option is given twice. */
  predicate DistinctNames(args: seq<Arg>) {
    forall i, j :: 0 <= i < j < |args| ==> args[i].name != args[j].name
  }

  lemma NamesJoin(a: seq<Arg>, b: seq<Arg>, na: set<Key>, nb: set<Key>)
    requires NamesIn(a, na) && NamesIn(b, nb) && na !! nb
    requires DistinctNames(a) && DistinctNames(b)
    ensures NamesIn(a + b, na + nb) && DistinctNames(a + b)
  {
    forall i, j | 0 <= i < j < |a + b|
      ensures (a + b)[i].name != (a + b)[j].name
    {
      if j < |a| {
        assert (a + b)[i] == a[i] && (a + b)[j] == a[j];
      } else if i >= |a| {
        assert (a + b)[i] == b[i - |a|] && (a + b)[j] == b[j - |a|];
      } else {
        assert a[i].name in na && b[j - |a|].name in nb;
      }
    }
  }

  /** An argument that is added only when its box is checked. */
  function Piece(on: bool, a: Arg): (args: seq<Arg>)
    ensures a in args <==> on
    ensures NamesIn(args, {a.name}) && DistinctNames(args)
  {
    if on then [a] else []
  }

  /** A chain of `if`/`elif` over check boxes: the value of the first one
      checked, if any. */
  function FirstChecked(boxes: seq<(bool, string)>): (r: Option<string>)
    ensures r.None? <==> forall i :: 0 <= i < |boxes| ==> !boxes[i].0
    ensures r.Some? ==> exists i :: 0 <= i < |boxes| && boxes[i].0 && r.value == boxes[i].1
                            && forall j :: 0 <= j < i ==> !boxes[j].0
    decreases |boxes|
  {
    if |boxes| == 0 then None
    else if boxes[0].0 then Some(boxes[0].1)
    else
      var r := FirstChecked(boxes[1..]);
      assert r.Some? ==> exists i :: 0 <= i < |boxes[1..]| && boxes[1..][i].0 && r.value == boxes[1..][i].1
                                    && forall j :: 0 <= j < i ==> !boxes[1..][j].0;
      if r.Some? then
        var i :| 0 <= i < |boxes[1..]| && boxes[1..][i].0 && r.value == boxes[1..][i].1
                 && forall j :: 0 <= j < i ==> !boxes[1..][j].0;
        assert boxes[i + 1].0 && r.value == boxes[i + 1].1;
        assert forall j :: 0 <= j < i + 1 ==> !boxes[j].0 by {
          forall j | 0 <= j < i + 1 ensures !boxes[j].0 {
            if j > 0 {
              assert boxes[j] == boxes[1..][j - 1];
            }
          }
        }
        r
      else
        r
  }

  /** `--name=value` for the first checked box of a group, nothing if none is. */
  function ChoiceArgs(name: Key, boxes: seq<(bool, string)>): (args: seq<Arg>)
    ensures |args| <= 1
    ensures args == [] <==> forall i :: 0 <= i < |boxes| ==> !boxes[i].0
    ensures NamesIn(args, {name}) && DistinctNames(args)
  {
    match FirstChecked(boxes)
    case None => []
    case Some(c) => [Opt(name, c)]
  }

  // ----- the sections of `run` -----

  const SwitchNames: set<Key> :=
    {StayAwake, TurnScreenOff, PowerOffOnClose, NoControl}
  const RecordNames: set<Key> := {Record, TimeLimit, NoPlayback}
  const ScreenNames: set<Key> := {DisplayId, MaxSize}
  const CameraNames: set<Key> := {VideoSource, CameraId, CameraSize, CameraFps}
  const VideoNames: set<Key> :=
    {Orientation, DisplayBuffer, MaxFps, VideoCodec, VideoBitRate}
      + ScreenNames + CameraNames
  const AudioNames: set<Key> := {AudioSource, AudioBuffer, AudioCodec, AudioBitRate}
  const PortNames: set<Key> := {TunnelPort, Tcpip}
  /** Every option the pro page can set. */
  const MediaNames: set<Key> := VideoNames + AudioNames + {NoVideo, NoAudio}

  function SwitchArgs(s: Settings): seq<Arg> {
    Piece(s.stayAwake, Flag(StayAwake)) + Piece(s.turnScreenOff, Flag(TurnScreenOff))
      + Piece(s.powerOffOnClose, Flag(PowerOffOnClose)) + Piece(s.noControl, Flag(NoControl))
  }

  lemma SwitchArgsNames(s: Settings)
    ensures NamesIn(SwitchArgs(s), SwitchNames) && DistinctNames(SwitchArgs(s))
  {
    var a := Piece(s.stayAwake, Flag(StayAwake));
    var b := Piece(s.turnScreenOff, Flag(TurnScreenOff));
    var c := Piece(s.powerOffOnClose, Flag(PowerOffOnClose));
    var d := Piece(s.noControl, Flag(NoControl));
    NamesJoin(a, b, {StayAwake}, {TurnScreenOff});
    NamesJoin(a + b, c, {StayAwake, TurnScreenOff}, {PowerOffOnClose});
    NamesJoin(a + b + c, d, {StayAwake, TurnScreenOff, PowerOffOnClose}, {NoControl});
  }

  /** The time limit: a duration that does not convert raises, one that
      converts to 0 stops with a tip (the walrus test treats 0 as false),
      any other value is passed on in seconds. */
  function LimitArgs(r: RecordSettings): (res: Result<seq<Arg>, Stop>)
    ensures !r.limitTime ==> res == Success([])
    ensures r.limitTime ==> (res == Failure(Raised) <==> TimeToSeconds(r.limit).None?)
    ensures r.limitTime ==> (res == Failure(Tip(RecordLimit)) <==> TimeToSeconds(r.limit) == Some(0))
    ensures res.Success? && r.limitTime ==>
              TimeToSeconds(r.limit).Some? && TimeToSeconds(r.limit).value != 0
              && res.value == [Opt(TimeLimit, ShowInt(TimeToSeconds(r.limit).value))]
  {
    if !r.limitTime then Success([])
    else match TimeToSeconds(r.limit)
      case None => Failure(Raised)
      case Some(n) =>
        if n == 0 then Failure(Tip(RecordLimit)) else Success([Opt(TimeLimit, ShowInt(n))])
  }

  /** The recording section: a folder that does not exist stops with a tip;
      otherwise the quoted folder, the time limit and the no-playback switch. */
  function RecordArgs(r: RecordSettings, isDir: string -> bool): (res: Result<seq<Arg>, Stop>)
    ensures r.enabled && !isDir(r.folder) ==> res == Failure(Tip(RecordFolder))
    ensures !r.enabled ==> res == Success([])
    ensures r.enabled && isDir(r.folder) && LimitArgs(r).Failure? ==> res == Failure(LimitArgs(r).error)
    ensures res.Success? && r.enabled ==> Opt(Record, "\"" + r.folder + "\"") in res.value
    ensures res.Success? && r.enabled && r.limitTime ==> LimitArgs(r).value[0] in res.value
  {
    if !r.enabled then Success([])
    else if !isDir(r.folder) then Failure(Tip(RecordFolder))
    else
      var limit :- LimitArgs(r);
      var args := [Opt(Record, "\"" + r.folder + "\"")] + limit + Piece(r.noPlayback, Flag(NoPlayback));
      assert r.limitTime ==> args[1] == limit[0];
      Success(args)
  }

  lemma RecordArgsNames(r: RecordSettings, isDir: string -> bool)
    requires RecordArgs(r, isDir).Success?
    ensures NamesIn(RecordArgs(r, isDir).value, RecordNames)
    ensures DistinctNames(RecordArgs(r, isDir).value)
  {
    if r.enabled {
      var rec := [Opt(Record, "\"" + r.folder + "\"")];
      var limit := LimitArgs(r).value;
      var np := Piece(r.noPlayback, Flag(NoPlayback));
      assert NamesIn(limit, {TimeLimit}) && DistinctNames(limit);
      NamesJoin(rec, limit, {Record}, {TimeLimit});
      NamesJoin(rec + limit, np, {Record, TimeLimit}, {NoPlayback});
    }
  }

  /** The video source part: the target display and size limit for the
      screen; source, camera id, size (without the high-speed marker) and
      frame rate for a camera; nothing for any other source. */
  function SourceArgs(v: VideoSettings): seq<Arg> {
    if v.source == "screen" then
      Piece(v.setDisplay, Opt(DisplayId, v.display)) + Piece(v.limitSize, Opt(MaxSize, v.maxSize))
    else if v.source == "camera" then
      [Opt(VideoSource, "camera"), Opt(CameraId, v.cameraId),
       Opt(CameraSize, DeviceLabels.CameraSizeArg(v.cameraSize)), Opt(CameraFps, v.cameraFps)]
    else []
  }

  lemma SourceArgsNames(v: VideoSettings)
    ensures NamesIn(SourceArgs(v), ScreenNames + CameraNames) && DistinctNames(SourceArgs(v))
    ensures v.source != "camera" ==> NamesIn(SourceArgs(v), ScreenNames)
    ensures v.source != "screen" ==> NamesIn(SourceArgs(v), CameraNames)
  {
    if v.source == "screen" {
      NamesJoin(Piece(v.setDisplay, Opt(DisplayId, v.display)),
                Piece(v.limitSize, Opt(MaxSize, v.maxSize)), {DisplayId}, {MaxSize});
    }
  }

  function VideoCodecArgs(v: VideoSettings): seq<Arg> {
    ChoiceArgs(VideoCodec, [(v.h264, "h264"), (v.h265, "h265"), (v.av1, "av1")])
  }

  /** The video options once the bit rate has been converted. */
  function VideoOptions(v: VideoSettings, rate: int): seq<Arg> {
    Piece(v.setOrientation, Opt(Orientation, RemoveAll(v.orientation, "°")))
      + [Opt(DisplayBuffer, v.buffer)]
      + Piece(v.limitFps, Opt(MaxFps, v.maxFps))
      + SourceArgs(v)
      + VideoCodecArgs(v)
      + [Opt(VideoBitRate, ShowInt(rate))]
  }

  /** The orientation, buffer and fps options name three distinct keys. */
  lemma VideoHeadNames(v: VideoSettings)
    ensures var head := Piece(v.setOrientation, Opt(Orientation, RemoveAll(v.orientation, "°")))
                          + [Opt(DisplayBuffer, v.buffer)]
                          + Piece(v.limitFps, Opt(MaxFps, v.maxFps));
      NamesIn(head, {Orientation, DisplayBuffer, MaxFps}) && DistinctNames(head)
  {
    var o := Piece(v.setOrientation, Opt(Orientation, RemoveAll(v.orientation, "°")));
    var b := [Opt(DisplayBuffer, v.buffer)];
    var f := Piece(v.limitFps, Opt(MaxFps, v.maxFps));
    NamesJoin(o, b, {Orientation}, {DisplayBuffer});
    NamesJoin(o + b, f, {Orientation, DisplayBuffer}, {MaxFps});
    assert {Orientation, DisplayBuffer} + {MaxFps} == {Orientation, DisplayBuffer, MaxFps};
  }

  /** The four groups of video options name disjoint sets of keys. */
  lemma VideoPartsNames(head: seq<Arg>, src: seq<Arg>, codec: seq<Arg>, rate: seq<Arg>)
    requires NamesIn(head, {Orientation, DisplayBuffer, MaxFps}) && DistinctNames(head)
    requires NamesIn(src, ScreenNames + CameraNames) && DistinctNames(src)
    requires NamesIn(codec, {VideoCodec}) && DistinctNames(codec)
    requires NamesIn(rate, {VideoBitRate}) && DistinctNames(rate)
    ensures NamesIn(head + src + codec + rate, VideoNames) && DistinctNames(head + src + codec + rate)
  {
    var nh: set<Key> := {Orientation, DisplayBuffer, MaxFps};
    NamesJoin4(head, src, codec, rate, nh, ScreenNames + CameraNames, {VideoCodec}, {VideoBitRate});
    assert nh + (ScreenNames + CameraNames) + {VideoCodec} + {VideoBitRate} == VideoNames;
  }

  lemma VideoOptionsNames(v: VideoSettings, rate: int)
    ensures NamesIn(VideoOptions(v, rate), VideoNames) && DistinctNames(VideoOptions(v, rate))
  {
    var head := Piece(v.setOrientation, Opt(Orientation, RemoveAll(v.orientation, "°")))
                  + [Opt(DisplayBuffer, v.buffer)]
                  + Piece(v.limitFps, Opt(MaxFps, v.maxFps));
    VideoHeadNames(v);
    SourceArgsNames(v);
    VideoPartsNames(head, SourceArgs(v), VideoCodecArgs(v), [Opt(VideoBitRate, ShowInt(rate))]);
  }

  /** `convert_bitrate` on a field: its `None` is the exception it raises. */
  function Convert(convert: string -> Option<int>, text: string): (res: Result<int, Stop>)
    ensures res.Failure? <==> convert(text).None?
    ensures res.Failure? ==> res.error == Raised
    ensures res.Success? ==> res.value == convert(text).value
  {
    match convert(text)
    case None => Failure(Raised)
    case Some(n) => Success(n)
  }

  /** The video half of the pro page: `--no-video` when video is off. */
  function VideoArgs(v: VideoSettings, convert: string -> Option<int>): (res: Result<seq<Arg>, Stop>)
    ensures !v.enabled ==> res == Success([Flag(NoVideo)])
    ensures v.enabled ==> (res.Failure? <==> convert(v.bitRate).None?)
    ensures v.enabled && res.Success? ==>
              |res.value| > 0 && Last(res.value) == Opt(VideoBitRate, ShowInt(convert(v.bitRate).value))
  {
    if !v.enabled then Success([Flag(NoVideo)])
    else
      var rate :- Convert(convert, v.bitRate);
      Success(VideoOptions(v, rate))
  }

  function AudioOptions(a: AudioSettings, rate: int): seq<Arg> {
    ChoiceArgs(AudioSource, [(a.fromOutput, "output"), (a.fromMic, "mic")])
      + [Opt(AudioBuffer, a.buffer)]
      + ChoiceArgs(AudioCodec, [(a.opus, "opus"), (a.aac, "aac"), (a.flac, "flac")])
      + [Opt(AudioBitRate, ShowInt(rate))]
  }

  lemma AudioOptionsNames(a: AudioSettings, rate: int)
    ensures NamesIn(AudioOptions(a, rate), AudioNames) && DistinctNames(AudioOptions(a, rate))
  {
    var s := ChoiceArgs(AudioSource, [(a.fromOutput, "output"), (a.fromMic, "mic")]);
    var b := [Opt(AudioBuffer, a.buffer)];
    var c := ChoiceArgs(AudioCodec, [(a.opus, "opus"), (a.aac, "aac"), (a.flac, "flac")]);
    var br := [Opt(AudioBitRate, ShowInt(rate))];
    NamesJoin(s, b, {AudioSource}, {AudioBuffer});
    NamesJoin(s + b, c, {AudioSource, AudioBuffer}, {AudioCodec});
    NamesJoin(s + b + c, br, {AudioSource, AudioBuffer, AudioCodec}, {AudioBitRate});
  }

  /** The audio half of the pro page: `--no-audio` when audio is off. */
  function AudioArgs(a: AudioSettings, convert: string -> Option<int>): (res: Result<seq<Arg>, Stop>)
    ensures !a.enabled ==> res == Success([Flag(NoAudio)])
    ensures a.enabled ==> (res.Failure? <==> convert(a.bitRate).None?)
    ensures a.enabled && res.Success? ==>
              |res.value| > 0 && Last(res.value) == Opt(AudioBitRate, ShowInt(convert(a.bitRate).value))
  {
    if !a.enabled then Success([Flag(NoAudio)])
    else
      var rate :- Convert(convert, a.bitRate);
      Success(AudioOptions(a, rate))
  }

  /** The options of the pro page, only when that page is switched on. */
  function ProArgs(s: Settings, convert: string -> Option<int>): (res: Result<seq<Arg>, Stop>)
    ensures !s.pro ==> res == Success([])
    ensures s.pro ==> (res.Failure? <==> VideoArgs(s.video, convert).Failure? || AudioArgs(s.audio, convert).Failure?)
    ensures res.Failure? ==> res.error == Raised
  {
    if !s.pro then Success([])
    else
      var video :- VideoArgs(s.video, convert);
      var audio :- AudioArgs(s.audio, convert);
      Success(video + audio)
  }

  /** The names the pro page can contribute, given which halves are on. */
  function ProNames(s: Settings): set<Key> {
    if !s.pro then {}
    else
      (if s.video.enabled then VideoNames else {NoVideo})
        + (if s.audio.enabled then AudioNames else {NoAudio})
  }

  lemma VideoArgsNames(v: VideoSettings, convert: string -> Option<int>)
    requires VideoArgs(v, convert).Success?
    ensures NamesIn(VideoArgs(v, convert).value, if v.enabled then VideoNames else {NoVideo})
    ensures DistinctNames(VideoArgs(v, convert).value)
  {
    if v.enabled {
      VideoOptionsNames(v, convert(v.bitRate).value);
    }
  }

  lemma AudioArgsNames(a: AudioSettings, convert: string -> Option<int>)
    requires AudioArgs(a, convert).Success?
    ensures NamesIn(AudioArgs(a, convert).value, if a.enabled then AudioNames else {NoAudio})
    ensures DistinctNames(AudioArgs(a, convert).value)
  {
    if a.enabled {
      AudioOptionsNames(a, convert(a.bitRate).value);
    }
  }

  /** The video and audio halves set different options. */
  lemma HalvesDisjoint()
    ensures VideoNames !! AudioNames && VideoNames !! {NoAudio}
    ensures {NoVideo} !! AudioNames && {NoVideo} !! {NoAudio}
  {
  }

  lemma ProArgsNames(s: Settings, convert: string -> Option<int>)
    requires ProArgs(s, convert).Success?
    ensures NamesIn(ProArgs(s, convert).value, ProNames(s)) && DistinctNames(ProArgs(s, convert).value)
  {
    if s.pro {
      var video := VideoArgs(s.video, convert).value;
      var audio := AudioArgs(s.audio, convert).value;
      var vn: set<Key> := if s.video.enabled then VideoNames else {NoVideo};
      var an: set<Key> := if s.audio.enabled then AudioNames else {NoAudio};
      VideoArgsNames(s.video, convert);
      AudioArgsNames(s.audio, convert);
      HalvesDisjoint();
      assert ProArgs(s, convert).value == video + audio;
      NamesJoin(video, audio, vn, an);
    }
  }

  function PortArgs(s: Settings): seq<Arg> {
    Piece(s.customPort, Opt(TunnelPort, s.port)) + Piece(s.tcpip, Flag(Tcpip))
  }

  lemma PortArgsNames(s: Settings)
    ensures NamesIn(PortArgs(s), PortNames) && DistinctNames(PortArgs(s))
  {
    NamesJoin(Piece(s.customPort, Opt(TunnelPort, s.port)), Piece(s.tcpip, Flag(Tcpip)),
              {TunnelPort}, {Tcpip});
  }

  /** The argument list `run` builds before `check_args`, or why it stops. */
  function Assemble(s: Settings, isDir: string -> bool, convert: string -> Option<int>)
    : Result<seq<Arg>, Stop>
  {
    var record :- RecordArgs(s.record, isDir);
    var pro :- ProArgs(s, convert);
    Success(SwitchArgs(s) + record + pro + PortArgs(s))
  }

  /** `run`: the arguments `check_args` keeps (and those it drops), or the stop. */
  function Run(s: Settings, isDir: string -> bool, convert: string -> Option<int>): (r: Outcome)
    ensures r.Stopped? <==> Assemble(s, isDir, convert).Failure?
    ensures r.Stopped? ==> r.reason == Assemble(s, isDir, convert).error
    ensures r.Launch? ==> forall i :: 0 <= i < |r.args| ==> !EndsWith(r.args[i], "=")
    ensures r.Launch? ==> forall i :: 0 <= i < |r.invalid| ==> EndsWith(r.invalid[i], "=")
  {
    match Assemble(s, isDir, convert)
    case Failure(e) => Stopped(e)
    case Success(args) =>
      var (valid, invalid) := CheckArgs(Renders(args));
      Launch(valid, invalid)
  }

  /** The arguments a launch passes on, before rendering. */
  function Sent(s: Settings, isDir: string -> bool, convert: string -> Option<int>): seq<Arg>
    requires Assemble(s, isDir, convert).Success?
  {
    Filter(Assemble(s, isDir, convert).value, Kept)
  }

  // ----- properties of `run` -----

  /** A successful assembly is the four sections in order. */
  lemma AssembleParts(s: Settings, isDir: string -> bool, convert: string -> Option<int>)
    requires Assemble(s, isDir, convert).Success?
    ensures RecordArgs(s.record, isDir).Success? && ProArgs(s, convert).Success?
    ensures Assemble(s, isDir, convert).value
         == SwitchArgs(s) + RecordArgs(s.record, isDir).value + ProArgs(s, convert).value + PortArgs(s)
  {
  }

  /** Recording into a folder that does not exist stops with a tip on the
      folder field, whatever else is set. */
  lemma RunMissingFolder(s: Settings, isDir: string -> bool, convert: string -> Option<int>)
    requires s.record.enabled && !isDir(s.record.folder)
    ensures Run(s, isDir, convert) == Stopped(Tip(RecordFolder))
  {
  }

  /** An assembled argument reaches the launch when its rendering does not
      end in `=`, and is reported invalid when it does. */
  lemma Launched(s: Settings, isDir: string -> bool, convert: string -> Option<int>, a: Arg)
    requires Assemble(s, isDir, convert).Success? && a in Assemble(s, isDir, convert).value
    ensures Kept(a) ==> Render(a) in Run(s, isDir, convert).args
    ensures !Kept(a) ==> Render(a) in Run(s, isDir, convert).invalid
  {
    var args := Assemble(s, isDir, convert).value;
    var i :| 0 <= i < |args| && args[i] == a;
    assert Renders(args)[i] == Render(a);
  }

  /** `--name=value` is kept when the value does not end in `=`. */
  lemma KeptOpt(k: Key, value: string)
    requires |value| > 0 && value[|value| - 1] != '='
    ensures Kept(Opt(k, value))
  {
    var r := Render(Opt(k, value));
    assert r[|r| - 1] == value[|value| - 1];
    assert r[|r| - 1..] == [r[|r| - 1]];
  }

  /** The time-limit argument is among the assembled ones whenever
      recording under a limit assembles at all. */
  lemma TimeLimitAssembled(s: Settings, isDir: string -> bool, convert: string -> Option<int>)
    requires Assemble(s, isDir, convert).Success? && s.record.enabled && s.record.limitTime
    ensures TimeToSeconds(s.record.limit).Some? && TimeToSeconds(s.record.limit).value != 0
    ensures Opt(TimeLimit, ShowInt(TimeToSeconds(s.record.limit).value)) in Assemble(s, isDir, convert).value
  {
    AssembleParts(s, isDir, convert);
    RecordHasLimit(s.record, isDir);
    InSecond(SwitchArgs(s), RecordArgs(s.record, isDir).value, ProArgs(s, convert).value, PortArgs(s),
             Opt(TimeLimit, ShowInt(TimeToSeconds(s.record.limit).value)));
  }

  /** A recording section that assembles under a limit carries the limit. */
  lemma RecordHasLimit(r: RecordSettings, isDir: string -> bool)
    requires RecordArgs(r, isDir).Success? && r.enabled && r.limitTime
    ensures TimeToSeconds(r.limit).Some? && TimeToSeconds(r.limit).value != 0
    ensures Opt(TimeLimit, ShowInt(TimeToSeconds(r.limit).value)) in RecordArgs(r, isDir).value
  {
    assert LimitArgs(r).Success?;
  }

  lemma InSecond<T>(a: seq<T>, b: seq<T>, c: seq<T>, d: seq<T>, x: T)
    requires x in b
    ensures x in a + b + c + d
  {
    var i :| 0 <= i < |b| && b[i] == x;
    assert (a + b + c + d)[|a| + i] == x;
  }

  /** With recording into an existing folder under a time limit: a duration
      that is not `h:m:s` raises, one of zero seconds stops with a tip on the
      limit field, and any other is passed on as `--time-limit=<seconds>`. */
  lemma RunTimeLimit(s: Settings, isDir: string -> bool, convert: string -> Option<int>)
    requires s.record.enabled && isDir(s.record.folder) && s.record.limitTime
    ensures TimeToSeconds(s.record.limit).None? ==> Run(s, isDir, convert) == Stopped(Raised)
    ensures TimeToSeconds(s.record.limit) == Some(0) ==>
              Run(s, isDir, convert) == Stopped(Tip(RecordLimit))
    ensures Run(s, isDir, convert).Launch? ==>
              TimeToSeconds(s.record.limit).Some? && TimeToSeconds(s.record.limit).value != 0
              && "--time-limit=" + ShowInt(TimeToSeconds(s.record.limit).value) in Run(s, isDir, convert).args
  {
    if Assemble(s, isDir, convert).Success? {
      TimeLimitAssembled(s, isDir, convert);
      var shown := ShowInt(TimeToSeconds(s.record.limit).value);
      KeptOpt(TimeLimit, shown);
      Launched(s, isDir, convert, Opt(TimeLimit, shown));
      Spellings(shown);
    }
  }

  /** A typed `h:mm:ss` for a positive number of seconds is never refused:
      it launches with exactly that limit unless another field stops it, and
      only the pro page's bit rates can still raise. */
  lemma RunFormattedLimit(s: Settings, isDir: string -> bool, convert: string -> Option<int>, n: nat)
    requires s.record.enabled && isDir(s.record.folder) && s.record.limitTime
    requires s.record.limit == FormatTime(n) && n > 0
    ensures Run(s, isDir, convert).Launch? ==> "--time-limit=" + ShowInt(n) in Run(s, isDir, convert).args
    ensures Run(s, isDir, convert) != Stopped(Tip(RecordLimit))
    ensures Run(s, isDir, convert) != Stopped(Raised) || (s.pro && ProArgs(s, convert).Failure?)
  {
    TimeRoundTrip(n);
    assert RecordArgs(s.record, isDir).Success?;
    RunStopsAfterRecord(s, isDir, convert);
    if Run(s, isDir, convert).Launch? {
      RunTimeLimit(s, isDir, convert);
    }
  }

  /** Once the recording section assembles, only the pro page can stop `run`. */
  lemma RunStopsAfterRecord(s: Settings, isDir: string -> bool, convert: string -> Option<int>)
    requires RecordArgs(s.record, isDir).Success?
    ensures Run(s, isDir, convert).Stopped? <==> s.pro && ProArgs(s, convert).Failure?
    ensures Run(s, isDir, convert).Stopped? ==> Run(s, isDir, convert).reason == Raised
  {
  }

  /** A bit rate that does not convert raises, once recording has not
      stopped the launch already. */
  lemma RunBadBitRate(s: Settings, isDir: string -> bool, convert: string -> Option<int>)
    requires RecordArgs(s.record, isDir).Success? && s.pro
    requires (s.video.enabled && convert(s.video.bitRate).None?)
          || (s.audio.enabled && convert(s.audio.bitRate).None?)
    ensures Run(s, isDir, convert) == Stopped(Raised)
  {
  }

  /** The options a launch can carry: those of the switches, the recording
      section, the pro page's enabled halves and the port section, none twice. */
  lemma AssembleNames(s: Settings, isDir: string -> bool, convert: string -> Option<int>)
    requires Assemble(s, isDir, convert).Success?
    ensures NamesIn(Assemble(s, isDir, convert).value, SwitchNames + RecordNames + ProNames(s) + PortNames)
    ensures DistinctNames(Assemble(s, isDir, convert).value)
  {
    var rec := RecordArgs(s.record, isDir).value;
    var pro := ProArgs(s, convert).value;
    assert Assemble(s, isDir, convert).value == SwitchArgs(s) + rec + pro + PortArgs(s);
    SectionsDisjoint(s);
    SwitchArgsNames(s);
    RecordArgsNames(s.record, isDir);
    ProArgsNames(s, convert);
    PortArgsNames(s);
    NamesJoin4(SwitchArgs(s), rec, pro, PortArgs(s), SwitchNames, RecordNames, ProNames(s), PortNames);
  }

  /** The sections of `run` set different options. */
  lemma SectionsDisjoint(s: Settings)
    ensures SwitchNames !! RecordNames
    ensures SwitchNames + RecordNames !! ProNames(s)
    ensures SwitchNames + RecordNames + ProNames(s) !! PortNames
    ensures SwitchNames + RecordNames + PortNames !! MediaNames
  {
    FixedSectionsDisjoint();
    MediaDisjoint();
    ProNamesWithin(s);
  }

  lemma FixedSectionsDisjoint()
    ensures SwitchNames !! RecordNames
    ensures SwitchNames + RecordNames !! PortNames
  {
  }

  /** Which section of `run` sets an option. */
  function SectionOf(k: Key): nat {
    match k
    case StayAwake | TurnScreenOff | PowerOffOnClose | NoControl => 0
    case Record | TimeLimit | NoPlayback => 1
    case TunnelPort | Tcpip => 3
    case _ => 2
  }

  lemma MediaDisjoint()
    ensures SwitchNames + RecordNames + PortNames !! MediaNames
  {
    MediaSection();
    FixedSections();
  }

  lemma MediaSection()
    ensures forall k :: k in MediaNames ==> SectionOf(k) == 2
  {
    forall k | k in MediaNames
      ensures SectionOf(k) == 2
    {
      if k in VideoNames {
        VideoSection();
      }
    }
  }

  lemma VideoSection()
    ensures forall k :: k in VideoNames ==> SectionOf(k) == 2
  {
    forall k | k in VideoNames
      ensures SectionOf(k) == 2
    {
    }
  }

  lemma FixedSections()
    ensures forall k :: k in SwitchNames + RecordNames + PortNames ==> SectionOf(k) != 2
  {
    assert forall k :: k in SwitchNames ==> SectionOf(k) == 0;
    assert forall k :: k in RecordNames ==> SectionOf(k) == 1;
    assert forall k :: k in PortNames ==> SectionOf(k) == 3;
  }

  lemma ProNamesWithin(s: Settings)
    ensures ProNames(s) <= MediaNames
  {
  }

  lemma NamesJoin4(a: seq<Arg>, b: seq<Arg>, c: seq<Arg>, d: seq<Arg>,
                   na: set<Key>, nb: set<Key>, nc: set<Key>, nd: set<Key>)
    requires NamesIn(a, na) && NamesIn(b, nb) && NamesIn(c, nc) && NamesIn(d, nd)
    requires DistinctNames(a) && DistinctNames(b) && DistinctNames(c) && DistinctNames(d)
    requires na !! nb && na + nb !! nc && na + nb + nc !! nd
    ensures NamesIn(a + b + c + d, na + nb + nc + nd) && DistinctNames(a + b + c + d)
  {
    NamesJoin(a, b, na, nb);
    NamesJoin(a + b, c, na + nb, nc);
    NamesJoin(a + b + c, d, na + nb + nc, nd);
  }

  lemma {:induction false} FilterDistinct(args: seq<Arg>, keep: Arg -> bool)
    requires DistinctNames(args)
    ensures DistinctNames(Filter(args, keep))
    decreases |args|
  {
    if |args| > 0 {
      var init := args[..|args| - 1];
      var x := Last(args);
      assert DistinctNames(init) by {
        forall i, j | 0 <= i < j < |init| ensures init[i].name != init[j].name {
          assert init[i] == args[i] && init[j] == args[j];
        }
      }
      FilterDistinct(init, keep);
      var r := Filter(init, keep);
      if keep(x) {
        forall i | 0 <= i < |r|
          ensures r[i].name != x.name
        {
          var k :| 0 <= k < |init| && init[k] == r[i];
          assert args[k] == r[i];
        }
        DistinctSnoc(r, x);
      }
    }
  }

  lemma DistinctSnoc(r: seq<Arg>, x: Arg)
    requires DistinctNames(r) && forall i :: 0 <= i < |r| ==> r[i].name != x.name
    ensures DistinctNames(r + [x])
  {
    forall i, j | 0 <= i < j < |r + [x]|
      ensures (r + [x])[i].name != (r + [x])[j].name
    {
      assert (r + [x])[i] == r[i];
    }
  }


  /** A launch passes on exactly the rendered arguments that were kept; no
      option among them is given twice, and each is one the settings switched on. */
  lemma RunNames(s: Settings, isDir: string -> bool, convert: string -> Option<int>)
    requires Run(s, isDir, convert).Launch?
    ensures Run(s, isDir, convert).args == Renders(Sent(s, isDir, convert))
    ensures DistinctNames(Sent(s, isDir, convert))
    ensures NamesIn(Sent(s, isDir, convert), SwitchNames + RecordNames + ProNames(s) + PortNames)
  {
    var args := Assemble(s, isDir, convert).value;
    AssembleNames(s, isDir, convert);
    CheckArgsValid(Renders(args));
    RendersFilter(args);
    FilterDistinct(args, Kept);
  }

  /** With the pro page switched off nothing set on that page changes the
      outcome, and no video or audio option is passed. */
  lemma RunWithoutProPage(s: Settings, isDir: string -> bool, convert: string -> Option<int>,
                          video: VideoSettings, audio: AudioSettings, convert': string -> Option<int>)
    requires !s.pro
    ensures Run(s, isDir, convert) == Run(s.(video := video, audio := audio), isDir, convert')
    ensures Run(s, isDir, convert).Launch? ==>
              forall i :: 0 <= i < |Sent(s, isDir, convert)| ==>
                Sent(s, isDir, convert)[i].name !in MediaNames
  {
    assert Assemble(s, isDir, convert) == Assemble(s.(video := video, audio := audio), isDir, convert');
    if Run(s, isDir, convert).Launch? {
      NoProNames(s, isDir, convert);
    }
  }

  lemma NoProNames(s: Settings, isDir: string -> bool, convert: string -> Option<int>)
    requires !s.pro && Run(s, isDir, convert).Launch?
    ensures forall i :: 0 <= i < |Sent(s, isDir, convert)| ==>
              Sent(s, isDir, convert)[i].name !in MediaNames
  {
    RunNames(s, isDir, convert);
    SectionsDisjoint(s);
  }

  /** The spellings the properties below mention. */
  lemma Spellings(value: string)
    ensures Render(Opt(TimeLimit, value)) == "--time-limit=" + value
    ensures Render(Opt(VideoBitRate, value)) == "--video-bit-rate=" + value
    ensures Render(Opt(AudioBitRate, value)) == "--audio-bit-rate=" + value
    ensures Render(Flag(NoVideo)) == Spelling(NoVideo) == "--no-video"
    ensures Render(Flag(NoAudio)) == Spelling(NoAudio) == "--no-audio"
  {
    SpellTimeLimit(value);
    SpellBitRates(value);
    SpellNoMedia();
  }

  lemma SpellTimeLimit(value: string)
    ensures Render(Opt(TimeLimit, value)) == "--time-limit=" + value
  {
  }

  lemma SpellBitRates(value: string)
    ensures Render(Opt(VideoBitRate, value)) == "--video-bit-rate=" + value
    ensures Render(Opt(AudioBitRate, value)) == "--audio-bit-rate=" + value
  {
  }

  lemma SpellNoMedia()
    ensures Render(Flag(NoVideo)) == Spelling(NoVideo) == "--no-video"
    ensures Render(Flag(NoAudio)) == Spelling(NoAudio) == "--no-audio"
  {
  }

  /** Only `--no-video` and `--no-audio` are spelled that way. */
  lemma SpellMedia(k: Key)
    ensures Spelling(k) == "--no-video" <==> k == NoVideo
    ensures Spelling(k) == "--no-audio" <==> k == NoAudio
  {
  }

  lemma OptHasEquals(a: Arg)
    requires a.Opt?
    ensures Render(a)[|Spelling(a.name)|] == '='
  {
  }

  /** The rendering of `--no-video` or `--no-audio` is that switch and
      nothing else. */
  lemma RenderNoMedia(a: Arg, k: Key)
    requires k == NoVideo || k == NoAudio
    requires Render(a) == Spelling(k)
    ensures a == Flag(k)
  {
    Spellings("");
    SpellMedia(a.name);
    if a.Opt? {
      OptHasEquals(a);
      assert false;
    }
  }

  /** A media switch among the rendered arguments comes from that switch. */
  lemma RenderedMedia(args: seq<Arg>, k: Key)
    requires k == NoVideo || k == NoAudio
    requires Spelling(k) in Renders(args)
    ensures Flag(k) in args
  {
    var i :| 0 <= i < |Renders(args)| && Renders(args)[i] == Spelling(k);
    RenderNoMedia(args[i], k);
  }

  /** `--no-video` (or `--no-audio`) is launched exactly when the pro page
      turned that half off. */
  lemma MediaFlag(s: Settings, isDir: string -> bool, convert: string -> Option<int>, flag: Key)
    requires s.pro && Run(s, isDir, convert).Launch?
    requires flag == NoVideo || flag == NoAudio
    ensures Spelling(flag) in Run(s, isDir, convert).args <==>
              (if flag == NoVideo then !s.video.enabled else !s.audio.enabled)
  {
    if Spelling(flag) in Run(s, isDir, convert).args {
      MediaFlagSent(s, isDir, convert, flag);
    }
    if (flag == NoVideo && !s.video.enabled) || (flag == NoAudio && !s.audio.enabled) {
      MediaFlagLaunched(s, isDir, convert, flag);
    }
  }

  lemma MediaFlagLaunched(s: Settings, isDir: string -> bool, convert: string -> Option<int>, flag: Key)
    requires s.pro && Run(s, isDir, convert).Launch?
    requires (flag == NoVideo && !s.video.enabled) || (flag == NoAudio && !s.audio.enabled)
    ensures Spelling(flag) in Run(s, isDir, convert).args
  {
    MediaFlagAssembled(s, isDir, convert, flag);
    assert Kept(Flag(flag));
    Launched(s, isDir, convert, Flag(flag));
  }

  lemma MediaFlagSent(s: Settings, isDir: string -> bool, convert: string -> Option<int>, flag: Key)
    requires s.pro && Run(s, isDir, convert).Launch?
    requires flag == NoVideo || flag == NoAudio
    requires Spelling(flag) in Run(s, isDir, convert).args
    ensures flag == NoVideo ==> !s.video.enabled
    ensures flag == NoAudio ==> !s.audio.enabled
  {
    SentFlag(s, isDir, convert, flag);
    SentFlagInPro(s, isDir, convert, flag);
    ProNamesMedia(s);
  }

  lemma SentFlag(s: Settings, isDir: string -> bool, convert: string -> Option<int>, flag: Key)
    requires Run(s, isDir, convert).Launch?
    requires flag == NoVideo || flag == NoAudio
    requires Spelling(flag) in Run(s, isDir, convert).args
    ensures Flag(flag) in Sent(s, isDir, convert)
  {
    RunNames(s, isDir, convert);
    RenderedMedia(Sent(s, isDir, convert), flag);
  }

  lemma SentFlagInPro(s: Settings, isDir: string -> bool, convert: string -> Option<int>, flag: Key)
    requires Run(s, isDir, convert).Launch?
    requires flag == NoVideo || flag == NoAudio
    requires Flag(flag) in Sent(s, isDir, convert)
    ensures flag in ProNames(s)
  {
    var sent := Sent(s, isDir, convert);
    RunNames(s, isDir, convert);
    SectionsDisjoint(s);
    var i :| 0 <= i < |sent| && sent[i] == Flag(flag);
    assert flag in SwitchNames + RecordNames + ProNames(s) + PortNames;
    assert flag !in SwitchNames + RecordNames + PortNames;
  }

  /** `--no-video` and `--no-audio` belong to the pro page only when their
      half is off. */
  lemma ProNamesMedia(s: Settings)
    ensures NoVideo in ProNames(s) <==> s.pro && !s.video.enabled
    ensures NoAudio in ProNames(s) <==> s.pro && !s.audio.enabled
  {
    assert NoVideo !in VideoNames && NoVideo !in AudioNames;
    assert NoAudio !in VideoNames && NoAudio !in AudioNames;
  }

  lemma MediaFlagAssembled(s: Settings, isDir: string -> bool, convert: string -> Option<int>, flag: Key)
    requires s.pro && Assemble(s, isDir, convert).Success?
    requires (flag == NoVideo && !s.video.enabled) || (flag == NoAudio && !s.audio.enabled)
    ensures Flag(flag) in Assemble(s, isDir, convert).value
  {
    AssembleParts(s, isDir, convert);
    ProInAssembled(s, isDir, convert, Flag(flag));
  }

  /** Whatever the pro page produced is among the assembled arguments. */
  lemma ProInAssembled(s: Settings, isDir: string -> bool, convert: string -> Option<int>, a: Arg)
    requires s.pro && Assemble(s, isDir, convert).Success?
    requires RecordArgs(s.record, isDir).Success? && ProArgs(s, convert).Success?
    requires a in VideoArgs(s.video, convert).value + AudioArgs(s.audio, convert).value
    ensures a in Assemble(s, isDir, convert).value
  {
    AssembleParts(s, isDir, convert);
    InPart(SwitchArgs(s) + RecordArgs(s.record, isDir).value, ProArgs(s, convert).value, PortArgs(s), a);
  }

  lemma InPart<T>(before: seq<T>, part: seq<T>, after: seq<T>, x: T)
    requires x in part
    ensures x in before + part + after
  {
    var i :| 0 <= i < |part| && part[i] == x;
    assert (before + part + after)[|before| + i] == x;
  }

  /** The converted bit rates are among the assembled arguments when their
      half of the pro page is on. */
  lemma BitRateAssembled(s: Settings, isDir: string -> bool, convert: string -> Option<int>)
    requires s.pro && Assemble(s, isDir, convert).Success?
    ensures s.video.enabled ==>
              Opt(VideoBitRate, ShowInt(convert(s.video.bitRate).value)) in Assemble(s, isDir, convert).value
    ensures s.audio.enabled ==>
              Opt(AudioBitRate, ShowInt(convert(s.audio.bitRate).value)) in Assemble(s, isDir, convert).value
  {
    AssembleParts(s, isDir, convert);
    var video := VideoArgs(s.video, convert).value;
    var audio := AudioArgs(s.audio, convert).value;
    if s.video.enabled {
      InPart([], video, audio, Last(video));
      ProInAssembled(s, isDir, convert, Last(video));
    }
    if s.audio.enabled {
      InPart(video, audio, [], Last(audio));
      ProInAssembled(s, isDir, convert, Last(audio));
    }
  }

  /** With the pro page on, a launch carries `--no-video` exactly when video
      is off and otherwise the converted video bit rate; likewise for audio. */
  lemma RunMediaChoice(s: Settings, isDir: string -> bool, convert: string -> Option<int>)
    requires s.pro && Run(s, isDir, convert).Launch?
    ensures "--no-video" in Run(s, isDir, convert).args <==> !s.video.enabled
    ensures s.video.enabled ==>
              "--video-bit-rate=" + ShowInt(convert(s.video.bitRate).value) in Run(s, isDir, convert).args
    ensures "--no-audio" in Run(s, isDir, convert).args <==> !s.audio.enabled
    ensures s.audio.enabled ==>
              "--audio-bit-rate=" + ShowInt(convert(s.audio.bitRate).value) in Run(s, isDir, convert).args
  {
    MediaFlag(s, isDir, convert, NoVideo);
    MediaFlag(s, isDir, convert, NoAudio);
    SpellNoMedia();
    BitRateAssembled(s, isDir, convert);
    if s.video.enabled {
      RunCarries(s, isDir, convert, VideoBitRate, convert(s.video.bitRate).value);
      SpellBitRates(ShowInt(convert(s.video.bitRate).value));
    }
    if s.audio.enabled {
      RunCarries(s, isDir, convert, AudioBitRate, convert(s.audio.bitRate).value);
      SpellBitRates(ShowInt(convert(s.audio.bitRate).value));
    }
  }

  /** An assembled `--name=<number>` reaches the launch. */
  lemma RunCarries(s: Settings, isDir: string -> bool, convert: string -> Option<int>, k: Key, n: int)
    requires Assemble(s, isDir, convert).Success? && Opt(k, ShowInt(n)) in Assemble(s, isDir, convert).value
    ensures Render(Opt(k, ShowInt(n))) in Run(s, isDir, convert).args
  {
    KeptOpt(k, ShowInt(n));
    Launched(s, isDir, convert, Opt(k, ShowInt(n)));
  }


}
