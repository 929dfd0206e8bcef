/** The bit-rate sliders of the main window: `update_audio_bitrate` and
    `update_video_bitrate` turn a slider position into the label shown next to
    it, which `run` later hands to `convert_bitrate`. */
module BitrateLabels {
  import opened Wrappers
  import opened Seqs
  import opened Text

  // ---------------------------------------------------------------------------
  // Reading a label

  /** The rate a label names, in kbit/s: `<int> K`, `<int> M` or
      `<int>.<two digits> M`, with or without the space before the unit. */
  function LabelKbps(shown: string): (r: Option<int>)
    ensures r.Some? ==> |shown| > 0 && (Last(shown) == 'K' || Last(shown) == 'M')
  {
    if |shown| == 0 then None
    else
      var body := shown[..|shown| - 1];
      if Last(shown) == 'K' then ParseInt(body)
      else if Last(shown) == 'M' then
        var parts := Split(Strip(body), ".");
        if |parts| == 1 then
          match ParseInt(parts[0])
          case None => None
          case Some(w) => Some(w * 1000)
        else if |parts| == 2 && |parts[1]| == 2 && AllDigits(parts[1]) && AllDigits(parts[0]) && |parts[0]| > 0 then
          Some(MegaKbps(DigitsValue(parts[0]), DigitsValue(parts[1])))
        else None
      else None
  }

  /** `units.hundredths` Mbit/s in kbit/s. */
  function MegaKbps(units: int, hundredths: int): int
  {
    (units * 100 + hundredths) * 10
  }

  // ---------------------------------------------------------------------------
  // Audio

  /** `update_audio_bitrate(value)`: the slider is cut into bands, each naming
      one rate; a value of 100 or more falls through to the default `128K`. */
  function AudioBitrateLabel(value: int): (shown: string)
    ensures shown in {"32K", "64K", "128K", "256K", "512K", "1M", "2M"}
  {
    if value < 10 then "32K"
    else if 10 <= value < 20 then "64K"
    else if 20 <= value < 40 then "128K"
    else if 40 <= value < 60 then "256K"
    else if 60 <= value < 80 then "512K"
    else if 80 <= value < 95 then "1M"
    else if 95 <= value < 100 then "2M"
    else "128K"
  }

  /** A label `<int>K` names that many kbit/s. */
  lemma ReadKilo(n: int)
    ensures LabelKbps(ShowInt(n) + "K") == Some(n)
  {
    assert (ShowInt(n) + "K")[..|ShowInt(n)|] == ShowInt(n);
    ParseShowInt(n);
  }

  /** A label `<int>M` names a thousand times that many kbit/s. */
  lemma ReadMega(n: nat)
    ensures LabelKbps(ShowInt(n) + "M") == Some(n * 1000)
  {
    var d := ShowInt(n);
    assert (d + "M")[..|d|] == d;
    ShowIntNoSpace(n);
    StripNoSpace(d);
    assert forall i :: 0 <= i < |d| ==> IsDigit(d[i]);
    SplitJoin([d], ".");
    ParseShowInt(n);
  }

  /** The decimal renderings the audio labels are made of. */
  lemma AudioNumerals()
    ensures ShowInt(32) == "32" && ShowInt(64) == "64" && ShowInt(128) == "128"
    ensures ShowInt(256) == "256" && ShowInt(512) == "512"
    ensures ShowInt(1) == "1" && ShowInt(2) == "2"
  {
    assert ShowNat(32) == ShowNat(3) + [DigitChar(2)];
    assert ShowNat(64) == ShowNat(6) + [DigitChar(4)];
    assert ShowNat(128) == ShowNat(12) + [DigitChar(8)];
    assert ShowNat(12) == ShowNat(1) + [DigitChar(2)];
    assert ShowNat(256) == ShowNat(25) + [DigitChar(6)];
    assert ShowNat(25) == ShowNat(2) + [DigitChar(5)];
    assert ShowNat(512) == ShowNat(51) + [DigitChar(2)];
    assert ShowNat(51) == ShowNat(5) + [DigitChar(1)];
  }

  function Pow2(k: nat): (r: nat)
    ensures r >= 1
  {
    if k == 0 then 1 else 2 * Pow2(k - 1)
  }

  /** The audio rate as a ladder: 32 kbit/s below 10, then doubling every 20
      steps from 64 kbit/s at 10 up to 512 kbit/s, 1 Mbit/s from 80, 2 Mbit/s
      from 95, and back to 128 kbit/s at 100 and beyond. */
  function AudioLadder(value: int): (kbps: int)
    ensures kbps > 0
  {
    if value >= 100 then 128
    else if value >= 95 then 2000
    else if value >= 80 then 1000
    else if value < 10 then 32
    else 32 * Pow2(value / 20 + 1)
  }

  /** How a rate in kbit/s is written in the audio labels: `<int>K` below
      1000, `<int>M` for whole Mbit/s. */
  function LadderLabel(kbps: int): string
  {
    if kbps < 1000 then ShowInt(kbps) + "K" else ShowInt(kbps / 1000) + "M"
  }

  /** Each audio label is the ladder's rate written out. */
  lemma AudioLabelIsLadder(value: int)
    ensures AudioBitrateLabel(value) == LadderLabel(AudioLadder(value))
  {
    AudioNumerals();
    if 10 <= value < 20 {
      assert value / 20 == 0 && Pow2(1) == 2;
    } else if 20 <= value < 40 {
      assert value / 20 == 1 && Pow2(2) == 4;
    } else if 40 <= value < 60 {
      assert value / 20 == 2 && Pow2(3) == 8;
    } else if 60 <= value < 80 {
      assert value / 20 == 3 && Pow2(4) == 16;
    }
  }

  /** Every audio label names the rate of the ladder. */
  lemma AudioLabelMeaning(value: int)
    ensures LabelKbps(AudioBitrateLabel(value)) == Some(AudioLadder(value))
  {
    AudioLabelIsLadder(value);
    var k := AudioLadder(value);
    if 10 <= value < 80 {
      assert 1 <= value / 20 + 1 <= 4;
      Pow2Monotone(value / 20 + 1, 4);
      assert Pow2(4) == 16;
    }
    if k < 1000 {
      ReadKilo(k);
    } else {
      assert k == 1000 || k == 2000;
      ReadMega(k / 1000);
    }
  }

  lemma Pow2Monotone(j: nat, k: nat)
    requires j <= k
    ensures Pow2(j) <= Pow2(k)
    decreases k
  {
    if j < k {
      Pow2Monotone(j, k - 1);
    }
  }

  /** Moving the slider up never lowers the audio rate, up to the last step
      before 100. */
  lemma AudioLadderMonotone(v: int, w: int)
    requires v <= w < 100
    ensures AudioLadder(v) <= AudioLadder(w)
  {
    if 10 <= v && w < 80 {
      Pow2Monotone(v / 20 + 1, w / 20 + 1);
    } else if 10 <= v < 80 {
      assert v / 20 + 1 <= 4;
      Pow2Monotone(v / 20 + 1, 4);
    }
  }

  // ---------------------------------------------------------------------------
  // Video

  /** The slider position `update_video_bitrate` uses: 0 counts as 1, and 99
      or more as 100. */
  function VideoPosition(value: int): (c: int)
    ensures value >= 0 ==> 1 <= c <= 100
    ensures c != 0 && c != 99
  {
    var v := if value == 0 then 1 else value;
    if v >= 99 then 100 else v
  }

  /** The rate in kbit/s: fifty per slider step. */
  function VideoKbps(value: int): int
  {
    VideoPosition(value) * 50
  }

  /** `update_video_bitrate(value)`: below 1000 kbit/s the label is the integer
      rate and ` K`; otherwise the rate in Mbit/s with two decimals and ` M`.
      The rate is a multiple of 50, so the float quotient `rate / 1000` that
      Python formats with `.2f` has exactly `rate / 10` hundredths. */
  function VideoBitrateLabel(value: int): (shown: string)
    ensures VideoKbps(value) < 1000 <==> EndsWith(shown, " K")
    ensures VideoKbps(value) >= 1000 <==> EndsWith(shown, " M")
    ensures EndsWith(shown, " K") ==> IntegerText(shown[..|shown| - 2])
    ensures EndsWith(shown, " K") && value >= 0 ==> AllDigits(shown[..|shown| - 2])
    ensures EndsWith(shown, " M") ==> TwoDecimals(shown[..|shown| - 2])
  {
    var rate := VideoKbps(value);
    if rate < 1000 then
      var shown := ShowInt(rate) + " K";
      assert shown[..|shown| - 2] == ShowInt(rate);
      assert shown[|shown| - 2..] == " K";
      shown
    else
      var hundredths := rate / 10;
      var whole := ShowNat(hundredths / 100);
      var cents := Pad2(hundredths % 100);
      var num := whole + "." + cents;
      var shown := num + " M";
      assert shown[..|shown| - 2] == num;
      assert shown[|shown| - 2..] == " M";
      assert num[..|num| - 3] == whole && num[|num| - 3] == '.' && num[|num| - 2..] == cents;
      shown
  }

  /** What `str(int)` prints: digits, with a minus sign in front when negative. */
  predicate IntegerText(s: string) {
    || (|s| > 0 && AllDigits(s))
    || (|s| > 1 && s[0] == '-' && AllDigits(s[1..]))
  }

  /** What `f"{x:.2f}"` prints for a non-negative `x`: digits, a dot and
      exactly two digits. */
  predicate TwoDecimals(s: string) {
    && |s| >= 4
    && s[|s| - 3] == '.'
    && AllDigits(s[..|s| - 3])
    && AllDigits(s[|s| - 2..])
  }

  /** A label `<int> K` names that many kbit/s. */
  lemma ReadKiloSpaced(n: int)
    ensures LabelKbps(ShowInt(n) + " K") == Some(n)
  {
    var d := ShowInt(n);
    var shown := d + " K";
    var body := shown[..|shown| - 1];
    assert body == d + " ";
    assert Last(shown) == 'K';
    ShowIntNoSpace(n);
    StripTrailingSpace(d);
    StripNoSpace(d);
    assert Strip(body) == Strip(d);
    assert ParseInt(body) == ParseInt(d);
    ParseShowInt(n);
  }

  /** Two digit strings joined by a dot split back on the dot. */
  lemma SplitDecimal(w: string, f: string)
    requires AllDigits(w) && AllDigits(f)
    ensures Split(w + "." + f, ".") == [w, f]
  {
    assert Join([w, f], ".") == w + "." + f by {
      assert [w, f][1..] == [f];
    }
    forall k, i | 0 <= k < 2 && 0 <= i < |[w, f][k]|
      ensures [w, f][k][i] != "."[0]
    {
      assert IsDigit([w, f][k][i]);
    }
    SplitJoin([w, f], ".");
  }

  /** A decimal number has no whitespace. */
  lemma DecimalNoSpace(w: string, f: string)
    requires AllDigits(w) && AllDigits(f)
    ensures NoSpace(w + "." + f)
  {
    var num := w + "." + f;
    forall i | 0 <= i < |num| ensures !IsSpace(num[i]) {
      if i < |w| {
        assert num[i] == w[i];
        assert IsDigit(w[i]);
      } else if i > |w| {
        assert num[i] == f[i - |w| - 1];
        assert IsDigit(f[i - |w| - 1]);
      } else {
        assert num[i] == '.';
      }
    }
  }

  /** A label `<digits>.<two digits> M` names the number it shows, in Mbit/s. */
  lemma ReadDecimal(w: string, f: string)
    requires |w| > 0 && AllDigits(w) && |f| == 2 && AllDigits(f)
    ensures LabelKbps(w + "." + f + " M") == Some(MegaKbps(DigitsValue(w), DigitsValue(f)))
  {
    var num := w + "." + f;
    var shown := num + " M";
    var body := shown[..|shown| - 1];
    assert body == num + " ";
    DecimalNoSpace(w, f);
    StripTrailingSpace(num);
    SplitDecimal(w, f);
    var parts := Split(Strip(body), ".");
    assert parts == [w, f];
    assert Last(shown) == 'M';
    assert LabelKbps(shown) == Some(MegaKbps(DigitsValue(parts[0]), DigitsValue(parts[1])));
  }

  /** A label `<int>.<two digits> M` names that many hundredths of Mbit/s,
      times ten, in kbit/s. */
  lemma ReadMegaSpaced(q: nat, r: nat)
    requires r < 100
    ensures LabelKbps(ShowNat(q) + "." + Pad2(r) + " M") == Some(MegaKbps(q, r))
  {
    ReadDecimal(ShowNat(q), Pad2(r));
    ShowNatValue(q);
    Pad2Digits(r);
  }

  /** The hundredths of a rate that is a multiple of 10, split into units and
      two decimals, give the rate back. */
  lemma HundredthsOf(rate: int)
    requires rate >= 0 && rate % 10 == 0
    ensures MegaKbps(rate / 10 / 100, rate / 10 % 100) == rate
  {
    var h := rate / 10;
    assert h / 100 * 100 + h % 100 == h;
    assert h * 10 == rate;
  }

  /** Reading the video label gives back the rate. */
  lemma VideoLabelMeaning(value: int)
    ensures LabelKbps(VideoBitrateLabel(value)) == Some(VideoKbps(value))
  {
    var rate := VideoKbps(value);
    if rate < 1000 {
      ReadKiloSpaced(rate);
    } else {
      var h := rate / 10;
      assert rate % 10 == 0 by {
        assert rate == VideoPosition(value) * 50;
      }
      ReadMegaSpaced(h / 100, h % 100);
      HundredthsOf(rate);
    }
  }

  /** For slider positions 0 and up the rate stays between 50 kbit/s and
      5 Mbit/s, and never goes down as the slider goes up. */
  lemma VideoKbpsBounds(v: int, w: int)
    requires 0 <= v <= w
    ensures 50 <= VideoKbps(v) <= VideoKbps(w) <= 5000
  {
  }
}
