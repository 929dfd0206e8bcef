/** The parsing half of `util.devices()`: the captured output of `adb devices`
    sorted into ready devices (serial -> device name), unauthorized serials and
    offline serials. The per-device `adb shell settings get global device_name`
    call is the parameter `nameOf`, which maps a serial to that call's output. */
module DeviceList {
  import opened Wrappers
  import opened Seqs
  import opened Text
  import opened OrderedDict

  datatype Devices = Devices(
    ready: Dict<string, string>,
    unauthorized: seq<string>,
    offline: seq<string>)

  const NoDevices := Devices([], [], [])

  /** One line of the listing. Only a line of exactly two whitespace-separated
      tokens `serial status` is considered, and only three statuses are known. */
  function Classify(acc: Devices, line: string, nameOf: string -> string): Devices
  {
    var parts := Tokens(line);
    if |parts| != 2 then acc
    else if parts[1] == "device" then
      acc.(ready := Put(acc.ready, parts[0], Strip(nameOf(parts[0]))))
    else if parts[1] == "unauthorized" then
      acc.(unauthorized := acc.unauthorized + [parts[0]])
    else if parts[1] == "offline" then
      acc.(offline := acc.offline + [parts[0]])
    else acc
  }

  /** `Classify` folded over the lines in order. */
  function ScanFrom(acc: Devices, lines: seq<string>, nameOf: string -> string): Devices
    decreases |lines|
  {
    if |lines| == 0 then acc
    else Classify(ScanFrom(acc, lines[..|lines| - 1], nameOf), Last(lines), nameOf)
  }

  lemma ScanFromStep(acc: Devices, lines: seq<string>, nameOf: string -> string)
    requires |lines| > 0
    ensures ScanFrom(acc, lines, nameOf)
         == Classify(ScanFrom(acc, lines[..|lines| - 1], nameOf), Last(lines), nameOf)
  {
  }

  /** `devices()` once the command's output is captured: the header line is skipped. */
  function ParseDevices(output: string, nameOf: string -> string): Devices
  {
    ScanFrom(NoDevices, Lines(output)[1..], nameOf)
  }

  /** Reference definition: the serials of the lines `serial status`, in order. */
  function SerialsWithStatus(lines: seq<string>, status: string): seq<string>
    decreases |lines|
  {
    if |lines| == 0 then []
    else Entry(lines[0], status) + SerialsWithStatus(lines[1..], status)
  }

  lemma SerialsWithStatusOne(line: string, status: string)
    ensures SerialsWithStatus([line], status) == Entry(line, status)
  {
    assert [line][0] == line && [line][1..] == [];
    assert SerialsWithStatus([], status) == [];
    assert Entry(line, status) + [] == Entry(line, status);
  }

  /** The serial of one line `serial status`, if it is one. */
  function Entry(line: string, status: string): (entry: seq<string>)
    ensures |entry| <= 1
    ensures forall s :: s in entry <==> Tokens(line) == [s, status]
  {
    var parts := Tokens(line);
    if |parts| == 2 && parts[1] == status then [parts[0]] else []
  }

  lemma {:induction false} SerialsWithStatusConcat(a: seq<string>, b: seq<string>, status: string)
    ensures SerialsWithStatus(a + b, status)
         == SerialsWithStatus(a, status) + SerialsWithStatus(b, status)
    decreases |a|
  {
    if |a| > 0 {
      assert (a + b)[0] == a[0];
      assert (a + b)[1..] == a[1..] + b;
      SerialsWithStatusConcat(a[1..], b, status);
    } else {
      assert a + b == b;
    }
  }

  /** A serial is listed under `status` exactly when some line reads `serial status`. */
  lemma {:induction false} SerialsWithStatusMembers(lines: seq<string>, status: string, s: string)
    ensures s in SerialsWithStatus(lines, status)
        <==> exists i :: 0 <= i < |lines| && Tokens(lines[i]) == [s, status]
    decreases |lines|
  {
    if |lines| > 0 {
      SerialsWithStatusMembers(lines[1..], status, s);
      if exists i :: 0 <= i < |lines| && Tokens(lines[i]) == [s, status] {
        var i :| 0 <= i < |lines| && Tokens(lines[i]) == [s, status];
        if i > 0 {
          assert lines[1..][i - 1] == lines[i];
        }
      }
      if exists i :: 0 <= i < |lines[1..]| && Tokens(lines[1..][i]) == [s, status] {
        var i :| 0 <= i < |lines[1..]| && Tokens(lines[1..][i]) == [s, status];
        assert lines[i + 1] == lines[1..][i];
      }
    }
  }

  /** Folding over two pieces is folding over the first, then the second. */
  lemma {:induction false} ScanAppend(acc: Devices, a: seq<string>, b: seq<string>, nameOf: string -> string)
    ensures ScanFrom(acc, a + b, nameOf) == ScanFrom(ScanFrom(acc, a, nameOf), b, nameOf)
    decreases |b|
  {
    if |b| == 0 {
      assert a + b == a;
    } else {
      assert (a + b)[..|a + b| - 1] == a + b[..|b| - 1];
      ScanAppend(acc, a, b[..|b| - 1], nameOf);
    }
  }

  /** The list a status other than `device` is appended to. */
  function ListFor(d: Devices, status: string): seq<string>
    requires status == "unauthorized" || status == "offline"
  {
    if status == "unauthorized" then d.unauthorized else d.offline
  }

  lemma ClassifyList(acc: Devices, line: string, nameOf: string -> string, status: string)
    requires status == "unauthorized" || status == "offline"
    ensures ListFor(Classify(acc, line, nameOf), status)
         == ListFor(acc, status) + SerialsWithStatus([line], status)
  {
    assert [line][1..] == [];
  }

  lemma ClassifyReady(acc: Devices, line: string, nameOf: string -> string)
    ensures var parts := Tokens(line);
      if |parts| == 2 && parts[1] == "device" then
        && SerialsWithStatus([line], "device") == [parts[0]]
        && Classify(acc, line, nameOf).ready == Put(acc.ready, parts[0], Strip(nameOf(parts[0])))
      else
        && SerialsWithStatus([line], "device") == []
        && Classify(acc, line, nameOf).ready == acc.ready
  {
    assert [line][1..] == [];
  }

  /** The unauthorized and offline lists hold their serials in line order,
      repeats kept, as the reference definition does. */
  lemma {:induction false} ScanList(lines: seq<string>, nameOf: string -> string, status: string)
    requires status == "unauthorized" || status == "offline"
    ensures ListFor(ScanFrom(NoDevices, lines, nameOf), status) == SerialsWithStatus(lines, status)
    decreases |lines|
  {
    if |lines| > 0 {
      var init := lines[..|lines| - 1];
      ScanList(init, nameOf, status);
      assert lines == init + [Last(lines)];
      SerialsWithStatusConcat(init, [Last(lines)], status);
      ClassifyList(ScanFrom(NoDevices, init, nameOf), Last(lines), nameOf, status);
    }
  }

  /** The ready map holds each `device` serial once, at the position of its first line. */
  lemma {:induction false} ScanReadyKeys(lines: seq<string>, nameOf: string -> string)
    ensures Keys(ScanFrom(NoDevices, lines, nameOf).ready) == Dedup(SerialsWithStatus(lines, "device"))
    decreases |lines|
  {
    if |lines| > 0 {
      var init := lines[..|lines| - 1];
      var acc := ScanFrom(NoDevices, init, nameOf);
      var d := SerialsWithStatus(init, "device");
      var tail := SerialsWithStatus([Last(lines)], "device");
      assert SerialsWithStatus(lines, "device") == d + tail by {
        assert lines == init + [Last(lines)];
        SerialsWithStatusConcat(init, [Last(lines)], "device");
      }
      ScanFromStep(NoDevices, lines, nameOf);
      ScanReadyKeys(init, nameOf);
      ReadyKeysStep(acc, Last(lines), nameOf, d);
    }
  }

  /** One line keeps the ready keys equal to the deduplicated `device` serials. */
  lemma ReadyKeysStep(acc: Devices, line: string, nameOf: string -> string, d: seq<string>)
    requires Keys(acc.ready) == Dedup(d)
    ensures Keys(Classify(acc, line, nameOf).ready) == Dedup(d + SerialsWithStatus([line], "device"))
  {
    var parts := Tokens(line);
    var found := SerialsWithStatus([line], "device");
    SerialsWithStatusOne(line, "device");
    var ready := Classify(acc, line, nameOf).ready;
    if |parts| == 2 && parts[1] == "device" {
      assert found == [parts[0]];
      assert ready == Put(acc.ready, parts[0], Strip(nameOf(parts[0])));
      DedupSnoc(d, parts[0]);
    } else {
      assert found == [] && ready == acc.ready;
      assert d + [] == d;
    }
  }

  /** Every ready serial is mapped to the trimmed output of its name lookup. */
  lemma {:induction false} ScanReadyNames(lines: seq<string>, nameOf: string -> string)
    ensures forall s :: s in Keys(ScanFrom(NoDevices, lines, nameOf).ready) ==>
              Get(ScanFrom(NoDevices, lines, nameOf).ready, s) == Some(Strip(nameOf(s)))
    decreases |lines|
  {
    if |lines| > 0 {
      var init := lines[..|lines| - 1];
      ScanReadyNames(init, nameOf);
      var acc := ScanFrom(NoDevices, init, nameOf);
      assert ScanFrom(NoDevices, lines, nameOf) == Classify(acc, Last(lines), nameOf);
      ClassifyReady(acc, Last(lines), nameOf);
    }
  }

  /** `devices()` in terms of the reference definition over the lines after the header. */
  lemma ParseDevicesSpec(output: string, nameOf: string -> string)
    ensures ParseDevices(output, nameOf).unauthorized
         == SerialsWithStatus(Lines(output)[1..], "unauthorized")
    ensures ParseDevices(output, nameOf).offline
         == SerialsWithStatus(Lines(output)[1..], "offline")
    ensures Keys(ParseDevices(output, nameOf).ready)
         == Dedup(SerialsWithStatus(Lines(output)[1..], "device"))
    ensures forall s :: s in Keys(ParseDevices(output, nameOf).ready) ==>
              Get(ParseDevices(output, nameOf).ready, s) == Some(Strip(nameOf(s)))
  {
    ScanList(Lines(output)[1..], nameOf, "unauthorized");
    ScanList(Lines(output)[1..], nameOf, "offline");
    ScanReadyKeys(Lines(output)[1..], nameOf);
    ScanReadyNames(Lines(output)[1..], nameOf);
  }

  /** A line that is not two tokens with a known status changes nothing,
      wherever it stands. */
  lemma IgnoredLine(before: seq<string>, line: string, after: seq<string>, nameOf: string -> string)
    requires |Tokens(line)| != 2
          || (Tokens(line)[1] != "device" && Tokens(line)[1] != "unauthorized"
              && Tokens(line)[1] != "offline")
    ensures ScanFrom(NoDevices, before + [line] + after, nameOf)
         == ScanFrom(NoDevices, before + after, nameOf)
  {
    ScanAppend(NoDevices, before + [line], after, nameOf);
    ScanAppend(NoDevices, before, [line], nameOf);
    ScanAppend(NoDevices, before, after, nameOf);
    assert [line][..0] == [];
  }

  lemma {:induction false} SerialsWithStatusAreTokens(lines: seq<string>, status: string)
    ensures forall s :: s in SerialsWithStatus(lines, status) ==> |s| > 0 && NoSpace(s)
    decreases |lines|
  {
    if |lines| > 0 {
      SerialsWithStatusAreTokens(lines[1..], status);
    }
  }

  /** Every serial the parser reports is a non-empty token without whitespace. */
  lemma SerialsAreTokens(output: string, nameOf: string -> string)
    ensures forall s :: s in Keys(ParseDevices(output, nameOf).ready) ==> |s| > 0 && NoSpace(s)
    ensures forall s :: s in ParseDevices(output, nameOf).unauthorized ==> |s| > 0 && NoSpace(s)
    ensures forall s :: s in ParseDevices(output, nameOf).offline ==> |s| > 0 && NoSpace(s)
  {
    var lines := Lines(output)[1..];
    ParseDevicesSpec(output, nameOf);
    SerialsWithStatusAreTokens(lines, "device");
    SerialsWithStatusAreTokens(lines, "unauthorized");
    SerialsWithStatusAreTokens(lines, "offline");
  }
}
