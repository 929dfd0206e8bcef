/** How the window shows devices and reads the user's choice back: each ready
    device is listed as `name | serial`, the selected entry is turned back into
    a serial for `ANDROID_SERIAL`, and when no device is ready a warning names
    the unauthorized or offline serials. Also the `[高速]` marker that is
    stripped from a camera size before it is passed on. */
module DeviceLabels {
  import opened Wrappers
  import opened Seqs
  import opened Text
  import opened OrderedDict
  import opened DeviceList
  import CameraSizes

  const LabelSep := " | "
  /** The separator of the serials in the warning text (an ideographic comma). */
  const WarningSep := "\U{3001}"

  /** The list entry for one ready device. */
  function DeviceLabel(serial: string, name: string): (shown: string)
    ensures StartsWith(shown, name) && EndsWith(shown, serial)
    ensures MatchAt(shown, LabelSep, |name|)
    ensures |shown| == |name| + |LabelSep| + |serial|
  {
    name + LabelSep + serial
  }

  /** The serial as the selection handler reads it: the last piece of
      `split(" | ")`. Correct only while the name holds no `|`. */
  function SerialOfLabel(shown: string): (serial: string)
    ensures EndsWith(shown, serial)
  {
    var parts := Split(shown, LabelSep);
    JoinSplit(shown, LabelSep);
    LastPieceIsSuffix(parts, LabelSep);
    Last(parts)
  }

  lemma {:induction false} LastPieceIsSuffix(parts: seq<string>, sep: string)
    requires |parts| > 0
    ensures EndsWith(Join(parts, sep), Last(parts))
    decreases |parts|
  {
    if |parts| > 1 {
      LastPieceIsSuffix(parts[1..], sep);
      assert Last(parts[1..]) == Last(parts);
      assert Join(parts, sep) == parts[0] + sep + Join(parts[1..], sep);
    }
  }

  /** The last index at or below `k` where `pat` occurs (`str.rfind`). */
  function FindLastFrom(s: string, pat: string, k: nat): (r: Option<nat>)
    ensures r.Some? ==> r.value <= k && MatchAt(s, pat, r.value)
    ensures r.Some? ==> forall j: nat :: r.value < j <= k ==> !MatchAt(s, pat, j)
    ensures r.None? ==> forall j: nat :: j <= k ==> !MatchAt(s, pat, j)
    decreases k
  {
    if MatchAt(s, pat, k) then Some(k)
    else if k == 0 then None
    else FindLastFrom(s, pat, k - 1)
  }

  /** The serial as the text after the LAST ` | ` (`rsplit(" | ", 1)[-1]`):
      a name may hold separators, a serial may not. */
  function SerialAfterLastSep(shown: string): (serial: string)
    ensures EndsWith(shown, serial)
    ensures !Contains(serial, LabelSep)
  {
    match FindLastFrom(shown, LabelSep, |shown|)
    case None => shown
    case Some(i) =>
      var tail := shown[i + |LabelSep|..];
      assert forall j: nat :: j <= |tail| ==> !MatchAt(tail, LabelSep, j) by {
        forall j: nat | j <= |tail|
          ensures !MatchAt(tail, LabelSep, j)
        {
          assert !MatchAt(shown, LabelSep, i + 3 + j);
          if j + 3 <= |tail| {
            assert tail[j..j + 3] == shown[i + 3 + j..i + 3 + j + 3];
          }
        }
      }
      tail
  }

  /** No occurrence of the separator starts inside or just after a
      whitespace-free serial. */
  lemma NoSepAfterName(name: string, serial: string, j: nat)
    requires NoSpace(serial) && |name| < j
    ensures !MatchAt(DeviceLabel(serial, name), LabelSep, j)
  {
    var s := DeviceLabel(serial, name);
    if j + 3 <= |s| {
      if j >= |name| + 3 {
        assert s[j..j + 3][0] == serial[j - |name| - 3];
      } else if j == |name| + 1 {
        assert s[j..j + 3][0] == '|';
      } else {
        assert s[j..j + 3][2] == serial[1];
      }
    }
  }

  /** The corrected reading gives back the serial of every label whose serial
      has no whitespace, whatever the name. */
  lemma SerialAfterLastSepRoundTrip(serial: string, name: string)
    requires NoSpace(serial)
    ensures SerialAfterLastSep(DeviceLabel(serial, name)) == serial
  {
    var s := DeviceLabel(serial, name);
    assert MatchAt(s, LabelSep, |name|);
    forall j: nat | |name| < j <= |s|
      ensures !MatchAt(s, LabelSep, j)
    {
      NoSepAfterName(name, serial, j);
    }
    assert FindLastFrom(s, LabelSep, |s|) == Some(|name|) by {
      FindLastIs(s, LabelSep, |s|, |name|);
    }
    assert s[|name| + 3..] == serial;
  }

  lemma {:induction false} FindLastIs(s: string, pat: string, k: nat, i: nat)
    requires i <= k && MatchAt(s, pat, i)
    requires forall j: nat :: i < j <= k ==> !MatchAt(s, pat, j)
    ensures FindLastFrom(s, pat, k) == Some(i)
    decreases k
  {
    if k > i {
      FindLastIs(s, pat, k - 1, i);
    }
  }

  /** The handler's own reading is right when the name holds no `|`: the
      first separator is then the one the label put there. */
  lemma SerialOfLabelRoundTrip(serial: string, name: string)
    requires NoSpace(serial) && '|' !in name
    ensures SerialOfLabel(DeviceLabel(serial, name)) == serial
    ensures Split(DeviceLabel(serial, name), LabelSep) == [name, serial]
  {
    var s := DeviceLabel(serial, name);
    forall j: nat | j < |name|
      ensures !MatchAt(s, LabelSep, j)
    {
      if j + 3 <= |s| {
        if j + 1 < |name| {
          assert s[j..j + 3][1] == name[j + 1];
        } else {
          assert s[j..j + 3][1] == ' ';
        }
      }
    }
    FindFirst(s, LabelSep, 0, |name|);
    var rest := s[|name| + 3..];
    assert rest == serial;
    forall j: nat | j + 3 <= |serial|
      ensures !MatchAt(serial, LabelSep, j)
    {
      assert serial[j..j + 3][0] == serial[j];
    }
    assert FindFrom(serial, LabelSep, 0).None?;
    assert s[..|name|] == name;
    assert Split(s, LabelSep) == [name] + Split(serial, LabelSep);
  }

  /** A name ending in ` |` makes the handler read the wrong serial:
      `"x |"` with serial `"s"` is listed as `"x | | s"` and read as `"| s"`. */
  lemma SerialOfLabelMisreads()
    ensures DeviceLabel("s", "x |") == "x | | s"
    ensures SerialOfLabel(DeviceLabel("s", "x |")) == "| s"
    ensures SerialAfterLastSep(DeviceLabel("s", "x |")) == "s"
  {
    var s := DeviceLabel("s", "x |");
    assert s == "x | | s";
    assert MatchAt(s, LabelSep, 1) by {
      assert s[1..4] == LabelSep;
    }
    assert !MatchAt(s, LabelSep, 0) by {
      assert s[0] != ' ';
    }
    FindFirst(s, LabelSep, 0, 1);
    var rest := s[4..];
    assert rest == "| s";
    forall j: nat
      ensures !MatchAt(rest, LabelSep, j)
    {
      if j + 3 <= |rest| {
        assert j == 0;
        assert rest[0] != ' ';
      }
    }
    assert FindFrom(rest, LabelSep, 0).None?;
    assert Split(rest, LabelSep) == [rest];
    assert s[..1] == "x";
    assert Split(s, LabelSep) == [s[..1]] + Split(rest, LabelSep);
    assert Split(s, LabelSep) == ["x", "| s"];
    SerialAfterLastSepRoundTrip("s", "x |");
  }

  /** The entries of the device list, one per ready device, in order. */
  function DeviceItems(ready: Dict<string, string>): (items: seq<string>)
    ensures |items| == |ready|
    ensures forall k :: 0 <= k < |ready| ==>
              StartsWith(items[k], ready[k].1) && EndsWith(items[k], ready[k].0)
    decreases |ready|
  {
    if |ready| == 0 then []
    else [DeviceLabel(ready[0].0, ready[0].1)] + DeviceItems(ready[1..])
  }

  lemma {:induction false} DeviceItemAt(ready: Dict<string, string>, k: nat)
    requires k < |ready|
    ensures DeviceItems(ready)[k] == DeviceLabel(ready[k].0, ready[k].1)
    decreases k
  {
    if k > 0 {
      DeviceItemAt(ready[1..], k - 1);
    }
  }

  /** What the selection handler sets `ANDROID_SERIAL` to: `None` when nothing
      is selected (the variable is removed), otherwise the serial of the first
      selected entry, read with `split(" | ")[-1]`. */
  function SelectedSerial(selected: seq<string>): (r: Option<string>)
    ensures r.None? <==> |selected| == 0
    ensures r.Some? ==> EndsWith(selected[0], r.value)
  {
    if |selected| == 0 then None else Some(SerialOfLabel(selected[0]))
  }

  /** Selecting the k-th entry of the list built from `adb devices` sets the
      k-th ready serial, provided that device's name holds no `|`. */
  lemma SelectDevice(output: string, nameOf: string -> string, k: nat)
    requires k < |ParseDevices(output, nameOf).ready|
    ensures var ready := ParseDevices(output, nameOf).ready;
      '|' !in ready[k].1 ==> SelectedSerial([DeviceItems(ready)[k]]) == Some(Keys(ready)[k])
  {
    var ready := ParseDevices(output, nameOf).ready;
    if '|' !in ready[k].1 {
      SerialsAreTokens(output, nameOf);
      assert ready[k].0 == Keys(ready)[k];
      DeviceItemAt(ready, k);
      SerialOfLabelRoundTrip(ready[k].0, ready[k].1);
    }
  }

  /** The selection as the handler would read it with the corrected reading,
      the text after the last separator. */
  function CorrectedSelectedSerial(selected: seq<string>): (r: Option<string>)
    ensures r.None? <==> |selected| == 0
    ensures r.Some? ==> EndsWith(selected[0], r.value) && !Contains(r.value, LabelSep)
  {
    if |selected| == 0 then None else Some(SerialAfterLastSep(selected[0]))
  }

  /** With the corrected reading, selecting the k-th entry sets the k-th ready
      serial whatever the device names are. */
  lemma CorrectedSelectDevice(output: string, nameOf: string -> string, k: nat)
    requires k < |ParseDevices(output, nameOf).ready|
    ensures CorrectedSelectedSerial([DeviceItems(ParseDevices(output, nameOf).ready)[k]])
         == Some(Keys(ParseDevices(output, nameOf).ready)[k])
  {
    var ready := ParseDevices(output, nameOf).ready;
    SerialsAreTokens(output, nameOf);
    assert ready[k].0 == Keys(ready)[k];
    DeviceItemAt(ready, k);
    SerialAfterLastSepRoundTrip(ready[k].0, ready[k].1);
  }

  /** The as-written selection of the entry for a device named `x |` with
      serial `s` sets `| s`; the corrected reading sets `s`. */
  lemma SelectionMisreads()
    ensures SelectedSerial([DeviceItems([("s", "x |")])[0]]) == Some("| s")
    ensures CorrectedSelectedSerial([DeviceItems([("s", "x |")])[0]]) == Some("s")
  {
    DeviceItemAt([("s", "x |")], 0);
    SerialOfLabelMisreads();
  }

  /** What `get_devices` shows after a scan. */
  datatype DeviceView =
    | Items(items: seq<string>)
    | Unauthorized(count: nat, serials: string)
    | Offline(count: nat, serials: string)
    | NoDevice

  function ViewOf(d: Devices): (v: DeviceView)
    ensures v.Items? <==> |d.ready| > 0
    ensures v.Unauthorized? <==> |d.ready| == 0 && |d.unauthorized| > 0
    ensures v.Offline? <==> |d.ready| == 0 && |d.unauthorized| == 0 && |d.offline| > 0
    ensures v.NoDevice? <==> |d.ready| == 0 && |d.unauthorized| == 0 && |d.offline| == 0
    ensures v.Items? ==> |v.items| == |d.ready|
    ensures v.Unauthorized? ==> v.count == |d.unauthorized|
    ensures v.Offline? ==> v.count == |d.offline|
  {
    if |d.ready| > 0 then Items(DeviceItems(d.ready))
    else if |d.unauthorized| > 0 then Unauthorized(|d.unauthorized|, Join(d.unauthorized, WarningSep))
    else if |d.offline| > 0 then Offline(|d.offline|, Join(d.offline, WarningSep))
    else NoDevice
  }

  /** The warning names exactly the serials it counts: splitting its text at
      the comma gives them back, as long as no serial holds that comma. */
  lemma WarningListsSerials(d: Devices)
    requires ViewOf(d).Unauthorized? || ViewOf(d).Offline?
    requires forall s :: s in d.unauthorized + d.offline ==> WarningSep[0] !in s
    ensures ViewOf(d).Unauthorized? ==> Split(ViewOf(d).serials, WarningSep) == d.unauthorized
    ensures ViewOf(d).Offline? ==> Split(ViewOf(d).serials, WarningSep) == d.offline
  {
    if ViewOf(d).Unauthorized? {
      forall k, i | 0 <= k < |d.unauthorized| && 0 <= i < |d.unauthorized[k]|
        ensures d.unauthorized[k][i] != WarningSep[0]
      {
        assert d.unauthorized[k] in d.unauthorized + d.offline;
      }
      SplitJoin(d.unauthorized, WarningSep);
    } else {
      forall k, i | 0 <= k < |d.offline| && 0 <= i < |d.offline[k]|
        ensures d.offline[k][i] != WarningSep[0]
      {
        assert d.offline[k] in d.unauthorized + d.offline;
      }
      SplitJoin(d.offline, WarningSep);
    }
  }

  /** The `--camera-size=` value: the chosen entry with `[高速]` removed. */
  function CameraSizeArg(entry: string): (size: string)
    ensures size == Join(Split(entry, CameraSizes.HighSpeedMarker), "")
    ensures |size| <= |entry|
  {
    RemoveAllSplitJoin(entry, CameraSizes.HighSpeedMarker);
    RemoveAll(entry, CameraSizes.HighSpeedMarker)
  }

  /** A high-speed entry, a size followed by the marker, is passed on as the
      bare size. */
  lemma {:induction false} CameraSizeOfHighSpeed(base: string)
    requires '[' !in base
    ensures CameraSizeArg(base + CameraSizes.HighSpeedMarker) == base
    decreases |base|
  {
    var m := CameraSizes.HighSpeedMarker;
    var s := base + m;
    if |base| == 0 {
      assert s == m;
      assert MatchAt(s, m, 0);
      assert s[|m|..] == "";
    } else {
      assert !MatchAt(s, m, 0) by {
        assert s[0..|m|][0] == base[0] != m[0];
      }
      assert s[1..] == base[1..] + m;
      CameraSizeOfHighSpeed(base[1..]);
      assert base == [base[0]] + base[1..];
    }
  }

  /** An entry without the marker is passed on unchanged. */
  lemma CameraSizeOfNormal(entry: string)
    requires !Contains(entry, CameraSizes.HighSpeedMarker)
    ensures CameraSizeArg(entry) == entry
  {
    RemoveAllAbsent(entry, CameraSizes.HighSpeedMarker);
  }
}
