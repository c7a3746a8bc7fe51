/** The text of the main clock: Python picks an strftime pattern from the clock state
    (digital_clock.py), the browser builds the text itself in `formatTime` (script.js). */
module TimeFormat {

  import opened Wrappers
  import opened Decimal
  import Glyphs

  /** A local wall-clock reading, as `datetime.now()` or `Date.getHours()` /
      `getMinutes()` / `getSeconds()` deliver it. */
  datatype WallClock = WallClock(hour: int, minute: int, second: int)

  predicate ValidClock(t: WallClock) {
    0 <= t.hour < 24 && 0 <= t.minute < 60 && 0 <= t.second < 60
  }

  /** The hour on a 12-hour dial: `hours % 12` with 0 shown as 12 (script.js), and
      strftime's `%I`. */
  function Hour12(h: nat): (r: nat)
    ensures 1 <= r <= 12
    ensures r % 12 == h % 12
  {
    if h % 12 == 0 then 12 else h % 12
  }

  /** The 24-hour hour that a 12-hour reading stands for. */
  function Hour24(h12: nat, pm: bool): nat {
    h12 % 12 + (if pm then 12 else 0)
  }

  /** The 12-hour dial and the AM/PM flag together lose nothing. */
  lemma TwelveHourLossless(h: nat)
    requires h < 24
    ensures Hour24(Hour12(h), h >= 12) == h
    ensures Hour12(0) == 12 && Hour12(12) == 12 && Hour12(13) == 1
  {
  }

  // ---------------------------------------------------------------------------------
  // digital_clock.py: the strftime pattern, expanded in the C locale.

  /** The pattern `update_display` hands to strftime: a 12-hour pattern exactly when
      `time_format == 12`, any other value gets the 24-hour one; seconds only when shown.
      The patterns are written piece by piece ("%I" + ":%M" + ":%S" + " %p" is the
      string "%I:%M:%S %p"). */
  function StrftimePattern(timeFormat: int, showSeconds: bool): (p: string)
    ensures Aligned(p)
    ensures |p| == 5 + (if showSeconds then 3 else 0) + (if timeFormat == 12 then 3 else 0)
    ensures p[..2] == (if timeFormat == 12 then "%I" else "%H") && p[2..5] == ":%M"
    ensures showSeconds ==> p[5..8] == ":%S"
    ensures timeFormat == 12 <==> p[|p| - 3..] == " %p"
  {
    AlignedPieces();
    assert ("%I" + ":%M" + ":%S" + " %p")[5..8] == ":%S";
    assert ("%H" + ":%M" + ":%S")[5..8] == ":%S";
    if timeFormat == 12 then
      (if showSeconds then "%I" + ":%M" + ":%S" + " %p" else "%I" + ":%M" + " %p")
    else
      (if showSeconds then "%H" + ":%M" + ":%S" else "%H" + ":%M")
  }

  /** Every '%' in `p` starts a two-character directive. */
  predicate Aligned(p: string)
    decreases |p|
  {
    if p == [] then true
    else if p[0] == '%' then |p| >= 2 && Aligned(p[2..])
    else Aligned(p[1..])
  }

  /** Joining two aligned patterns gives an aligned pattern. */
  lemma {:induction false} AlignedAppend(a: string, b: string)
    requires Aligned(a) && Aligned(b)
    ensures Aligned(a + b)
    decreases |a|
  {
    if a == [] {
      assert a + b == b;
    } else if a[0] == '%' {
      assert (a + b)[0] == '%' && |a + b| >= 2;
      assert (a + b)[2..] == a[2..] + b;
      AlignedAppend(a[2..], b);
    } else {
      assert (a + b)[0] == a[0];
      assert (a + b)[1..] == a[1..] + b;
      AlignedAppend(a[1..], b);
    }
  }

  lemma AlignedPieces()
    ensures Aligned("%I" + ":%M" + ":%S" + " %p") && Aligned("%I" + ":%M" + " %p")
    ensures Aligned("%H" + ":%M" + ":%S") && Aligned("%H" + ":%M")
  {
    PiecesAligned();
    AlignedAppend("%H", ":%M");
    AlignedAppend("%H" + ":%M", ":%S");
    AlignedAppend("%I", ":%M");
    AlignedAppend("%I" + ":%M", ":%S");
    AlignedAppend("%I" + ":%M", " %p");
    AlignedAppend("%I" + ":%M" + ":%S", " %p");
  }

  /** The directives the patterns use, as the C locale expands them ("%%" is a percent
      sign); any other character after '%' is kept as written. */
  function Directive(d: char, t: WallClock): (r: string)
    requires ValidClock(t)
    ensures d in "HIMS" ==> |r| == 2 && AllDigits(r)
    ensures d == 'H' ==> DecimalValue(r) == t.hour
    ensures d == 'I' ==> DecimalValue(r) == Hour12(t.hour)
    ensures d == 'M' ==> DecimalValue(r) == t.minute
    ensures d == 'S' ==> DecimalValue(r) == t.second
    ensures d == 'p' ==> r == (if t.hour < 12 then "AM" else "PM")
  {
    match d
    case 'H' => Pad2(t.hour)
    case 'I' => Pad2(Hour12(t.hour))
    case 'M' => Pad2(t.minute)
    case 'S' => Pad2(t.second)
    case 'p' => if t.hour < 12 then "AM" else "PM"
    case '%' => "%"
    case _ => ['%', d]
  }

  /** `datetime.strftime` in the C locale, reading the pattern left to right. */
  function Strftime(p: string, t: WallClock): string
    requires ValidClock(t)
    decreases |p|
  {
    if p == [] then ""
    else if p[0] == '%' && |p| >= 2 then Directive(p[1], t) + Strftime(p[2..], t)
    else [p[0]] + Strftime(p[1..], t)
  }

  /** A pattern whose directives are complete expands piece by piece. */
  lemma {:induction false} StrftimeAppend(a: string, b: string, t: WallClock)
    requires ValidClock(t) && Aligned(a)
    ensures Strftime(a + b, t) == Strftime(a, t) + Strftime(b, t)
    ensures Aligned(b) ==> Aligned(a + b)
    decreases |a|
  {
    if a == [] {
      assert a + b == b;
    } else if a[0] == '%' {
      assert (a + b)[0] == '%' && (a + b)[1] == a[1];
      assert (a + b)[2..] == a[2..] + b;
      StrftimeAppend(a[2..], b, t);
    } else {
      assert (a + b)[0] == a[0];
      assert (a + b)[1..] == a[1..] + b;
      StrftimeAppend(a[1..], b, t);
    }
  }

  /** Text without a '%' is copied as written. */
  lemma {:induction false} StrftimeLiteral(p: string, t: WallClock)
    requires ValidClock(t) && '%' !in p
    ensures Strftime(p, t) == p
    decreases |p|
  {
    if p != [] {
      assert p[0] in p;
      assert forall c :: c in p[1..] ==> c in p;
      StrftimeLiteral(p[1..], t);
    }
  }

  /** What each piece of the four patterns expands to. */
  lemma PieceTexts(t: WallClock)
    requires ValidClock(t)
    ensures Strftime("%H", t) == Pad2(t.hour) && Strftime("%I", t) == Pad2(Hour12(t.hour))
    ensures Strftime(":%M", t) == ":" + Pad2(t.minute)
    ensures Strftime(":%S", t) == ":" + Pad2(t.second)
    ensures Strftime(" %p", t) == if t.hour >= 12 then " PM" else " AM"
  {
    PieceText(':', 'M', t);
    PieceText(':', 'S', t);
    PieceText(' ', 'p', t);
  }

  lemma PieceText(c: char, d: char, t: WallClock)
    requires ValidClock(t) && c != '%'
    ensures Strftime([c, '%', d], t) == [c] + Directive(d, t)
  {
    assert [c, '%', d][1..] == ['%', d];
    assert ['%', d][2..] == [];
    assert Strftime(['%', d], t) == Directive(d, t) + Strftime([], t);
    assert Strftime([c, '%', d], t) == [c] + Strftime(['%', d], t);
  }

  lemma PiecesAligned()
    ensures Aligned("%H") && Aligned("%I") && Aligned(":%M") && Aligned(":%S") && Aligned(" %p")
  {
  }

  /** Each of the four patterns expands to exactly the text `formatTime` builds for the
      same mode. */
  lemma ExpandTwentyFour(t: WallClock)
    requires ValidClock(t)
    ensures Aligned("%H" + ":%M")
    ensures Strftime("%H" + ":%M", t) == FormatTime(t, true, false)
  {
    PiecesAligned();
    PieceTexts(t);
    StrftimeAppend("%H", ":%M", t);
  }

  lemma ExpandTwentyFourSeconds(t: WallClock)
    requires ValidClock(t)
    ensures Aligned("%H" + ":%M" + ":%S")
    ensures Strftime("%H" + ":%M" + ":%S", t) == FormatTime(t, true, true)
  {
    ExpandTwentyFour(t);
    PiecesAligned();
    PieceTexts(t);
    StrftimeAppend("%H" + ":%M", ":%S", t);
  }

  lemma ExpandTwelve(t: WallClock)
    requires ValidClock(t)
    ensures Aligned("%I" + ":%M") && Aligned("%I" + ":%M" + " %p")
    ensures Strftime("%I" + ":%M", t) == Pad2(Hour12(t.hour)) + ":" + Pad2(t.minute)
    ensures Strftime("%I" + ":%M" + " %p", t) == FormatTime(t, false, false)
  {
    PiecesAligned();
    PieceTexts(t);
    StrftimeAppend("%I", ":%M", t);
    StrftimeAppend("%I" + ":%M", " %p", t);
  }

  lemma ExpandTwelveSeconds(t: WallClock)
    requires ValidClock(t)
    ensures Aligned("%I" + ":%M" + ":%S" + " %p")
    ensures Strftime("%I" + ":%M" + ":%S" + " %p", t) == FormatTime(t, false, true)
  {
    ExpandTwelve(t);
    PiecesAligned();
    PieceTexts(t);
    StrftimeAppend("%I" + ":%M", ":%S", t);
    StrftimeAppend("%I" + ":%M" + ":%S", " %p", t);
  }

  /** The characters `str.isspace()` accepts, which `str.strip()` removes. */
  predicate IsSpace(c: char) {
    || c == ' ' || '\t' <= c <= '\r' || '\U{1C}' <= c <= '\U{1F}'
    || c == '\U{85}' || c == '\U{A0}' || c == '\U{1680}' || '\U{2000}' <= c <= '\U{200A}'
    || c == '\U{2028}' || c == '\U{2029}' || c == '\U{202F}' || c == '\U{205F}' || c == '\U{3000}'
  }

  /** The text without its leading white space. */
  function StripLeft(s: string): (r: string)
    ensures |r| <= |s| && r == s[|s| - |r|..]
    ensures forall k :: 0 <= k < |s| - |r| ==> IsSpace(s[k])
    ensures r != [] ==> !IsSpace(r[0])
    decreases |s|
  {
    if s != [] && IsSpace(s[0]) then StripLeft(s[1..]) else s
  }

  /** The text without its trailing white space. */
  function StripRight(s: string): (r: string)
    ensures |r| <= |s| && r == s[..|r|]
    ensures forall k :: |r| <= k < |s| ==> IsSpace(s[k])
    ensures r != [] ==> !IsSpace(r[|r| - 1])
    decreases |s|
  {
    if s != [] && IsSpace(s[|s| - 1]) then StripRight(s[..|s| - 1]) else s
  }

  /** `r` is `s[i..j]`, and everything of `s` outside `i..j` is white space. */
  predicate CutAt(s: string, r: string, i: int, j: int) {
    && 0 <= i <= j <= |s| && r == s[i..j]
    && (forall k :: 0 <= k < i ==> IsSpace(s[k]))
    && (forall k :: j <= k < |s| ==> IsSpace(s[k]))
  }

  /** `str.strip()`: the slice of the text between a white-space prefix and a
      white-space suffix that neither starts nor ends with white space. */
  function Strip(s: string): (r: string)
    ensures exists i, j :: CutAt(s, r, i, j)
    ensures r != [] ==> !IsSpace(r[0]) && !IsSpace(r[|r| - 1])
    ensures s == [] || (!IsSpace(s[0]) && !IsSpace(s[|s| - 1])) ==> r == s
  {
    var l := StripLeft(s);
    var r := StripRight(l);
    StripCut(s, l, r);
    StripEnds(s, l, r);
    r
  }

  lemma StripCut(s: string, l: string, r: string)
    requires |l| <= |s| && l == s[|s| - |l|..] && forall k :: 0 <= k < |s| - |l| ==> IsSpace(s[k])
    requires |r| <= |l| && r == l[..|r|] && forall k :: |r| <= k < |l| ==> IsSpace(l[k])
    ensures CutAt(s, r, |s| - |l|, |s| - |l| + |r|)
  {
    var i := |s| - |l|;
    SliceOfSuffix(s, i, |r|);
    SpaceAfter(s, i, |r|);
  }

  lemma SliceOfSuffix(s: string, i: nat, n: nat)
    requires i + n <= |s|
    ensures s[i..][..n] == s[i..i + n]
  {
  }

  lemma StripEnds(s: string, l: string, r: string)
    requires l == StripLeft(s) && r == StripRight(l)
    ensures r != [] ==> !IsSpace(r[0]) && !IsSpace(r[|r| - 1])
    ensures s == [] || (!IsSpace(s[0]) && !IsSpace(s[|s| - 1])) ==> r == s
  {
    if r != [] {
      assert r[0] == l[0];
    }
    if s != [] && !IsSpace(s[0]) && !IsSpace(s[|s| - 1]) {
      assert l == s;
      assert l[|l| - 1] == s[|s| - 1];
    }
  }

  /** White space after position `n` of the suffix `s[i..]` is white space after
      position `i + n` of `s`. */
  lemma SpaceAfter(s: string, i: nat, n: nat)
    requires i + n <= |s|
    requires forall k :: n <= k < |s[i..]| ==> IsSpace(s[i..][k])
    ensures forall k :: i + n <= k < |s| ==> IsSpace(s[k])
  {
    forall k | i + n <= k < |s|
      ensures IsSpace(s[k])
    {
      assert s[k] == s[i..][k - i];
    }
  }

  /** `now.strftime(time_format_str).strip()` in `update_display`: the text `formatTime`
      builds for 24-hour mode exactly when `time_format` is not 12. */
  function PythonTimeText(timeFormat: int, showSeconds: bool, t: WallClock): (r: string)
    requires ValidClock(t)
    ensures r == FormatTime(t, timeFormat != 12, showSeconds)
  {
    PatternExpands(timeFormat, showSeconds, t);
    Strip(Strftime(StrftimePattern(timeFormat, showSeconds), t))
  }

  /** Each of the four patterns expands, in the C locale, to the text `formatTime` builds
      for the same mode, and stripping it changes nothing. */
  lemma PatternExpands(timeFormat: int, showSeconds: bool, t: WallClock)
    requires ValidClock(t)
    ensures Strip(Strftime(StrftimePattern(timeFormat, showSeconds), t))
      == FormatTime(t, timeFormat != 12, showSeconds)
  {
    var p := StrftimePattern(timeFormat, showSeconds);
    var text := FormatTime(t, timeFormat != 12, showSeconds);
    if timeFormat == 12 {
      if showSeconds {
        ExpandTwelveSeconds(t);
        assert p == "%I" + ":%M" + ":%S" + " %p";
      } else {
        ExpandTwelve(t);
        assert p == "%I" + ":%M" + " %p";
      }
    } else {
      if showSeconds {
        ExpandTwentyFourSeconds(t);
        assert p == "%H" + ":%M" + ":%S";
      } else {
        ExpandTwentyFour(t);
        assert p == "%H" + ":%M";
      }
    }
    assert Strftime(p, t) == text;
    FormatTimeUnpadded(t, timeFormat != 12, showSeconds);
  }

  // ---------------------------------------------------------------------------------
  // script.js: formatTime.

  /** `formatTime(date, format24h, includeSeconds)`: zero-padded `HH:MM`, then `:SS` when
      seconds are included, then " AM"/" PM" in 12-hour mode. Every character it produces
      has a glyph, so the renderer's blank fallback is never used for it. */
  function FormatTime(t: WallClock, format24h: bool, includeSeconds: bool): (r: string)
    requires ValidClock(t)
    ensures |r| == 5 + (if includeSeconds then 3 else 0) + (if format24h then 0 else 3)
    ensures forall k :: 0 <= k < |r| ==> Glyphs.HasGlyph(r[k])
    ensures !format24h ==> r[|r| - 3..] == (if t.hour >= 12 then " PM" else " AM")
    ensures IsDigit(r[0]) && !IsSpace(r[|r| - 1])
  {
    var ampm := if format24h then "" else if t.hour >= 12 then " PM" else " AM";
    var hours := if format24h then t.hour else Hour12(t.hour);
    var secs := if includeSeconds then ":" + Pad2(t.second) else "";
    var r := Pad2(hours) + ":" + Pad2(t.minute) + secs + ampm;
    forall k | 0 <= k < |r| ensures Glyphs.HasGlyph(r[k]) {
      Glyphs.HasGlyphIsTableKey(r[k]);
    }
    r
  }

  // ---------------------------------------------------------------------------------
  // Reading a time text back.

  /** What a time text says: the hour as displayed, the minute, the seconds when present
      and the AM/PM flag when present. */
  datatype Reading = Reading(hour: nat, minute: nat, second: Option<nat>, pm: Option<bool>)

  /** Parses `HH:MM`, optionally followed by `:SS`, optionally followed by " AM" / " PM". */
  function ReadTime(r: string): Option<Reading> {
    if |r| < 5 || r[2] != ':' || !AllDigits(r[..2]) || !AllDigits(r[3..5]) then None
    else ReadSeconds(Reading(DecimalValue(r[..2]), DecimalValue(r[3..5]), None, None), r[5..])
  }

  /** The part after `HH:MM`: an optional `:SS`, then the suffix. */
  function ReadSeconds(hm: Reading, rest: string): Option<Reading> {
    if |rest| >= 3 && rest[0] == ':' && AllDigits(rest[1..3]) then
      ReadSuffix(hm.(second := Some(DecimalValue(rest[1..3]))), rest[3..])
    else ReadSuffix(hm, rest)
  }

  /** The suffix: nothing, " AM" or " PM". */
  function ReadSuffix(reading: Reading, tail: string): Option<Reading> {
    if tail == "" then Some(reading)
    else if tail == " AM" then Some(reading.(pm := Some(false)))
    else if tail == " PM" then Some(reading.(pm := Some(true)))
    else None
  }

  /** What 12-hour mode appends: " PM" from noon, " AM" before; nothing in 24-hour mode. */
  function SuffixText(pm: Option<bool>): string {
    match pm
    case None => ""
    case Some(p) => if p then " PM" else " AM"
  }

  lemma ReadSuffixText(reading: Reading, pm: Option<bool>)
    requires reading.pm.None?
    ensures ReadSuffix(reading, SuffixText(pm)) == Some(reading.(pm := pm))
  {
  }

  lemma ReadSecondsParts(hm: Reading, ss: string, withSeconds: bool, pm: Option<bool>)
    requires hm.second.None? && hm.pm.None? && |ss| == 2 && AllDigits(ss)
    ensures ReadSeconds(hm, (if withSeconds then ":" + ss else "") + SuffixText(pm))
      == Some(hm.(second := if withSeconds then Some(DecimalValue(ss)) else None, pm := pm))
  {
    var rest := (if withSeconds then ":" + ss else "") + SuffixText(pm);
    if withSeconds {
      assert rest[1..3] == ss && rest[3..] == SuffixText(pm);
      ReadSuffixText(hm.(second := Some(DecimalValue(ss))), pm);
    } else {
      assert rest == SuffixText(pm);
      assert rest != "" ==> rest[0] == ' ';
      ReadSuffixText(hm, pm);
    }
  }

  /** Reading back a text assembled from two-digit fields, an optional seconds field
      and an optional AM/PM suffix gives the fields' values. */
  lemma ReadTimeParts(hh: string, mm: string, ss: string, withSeconds: bool, pm: Option<bool>)
    requires |hh| == 2 && |mm| == 2 && |ss| == 2
    requires AllDigits(hh) && AllDigits(mm) && AllDigits(ss)
    ensures ReadTime(hh + ":" + mm + (if withSeconds then ":" + ss else "") + SuffixText(pm))
      == Some(Reading(DecimalValue(hh), DecimalValue(mm),
        if withSeconds then Some(DecimalValue(ss)) else None, pm))
  {
    var rest := (if withSeconds then ":" + ss else "") + SuffixText(pm);
    var r := hh + ":" + mm + rest;
    assert r == hh + ":" + mm + (if withSeconds then ":" + ss else "") + SuffixText(pm);
    assert r[..2] == hh && r[2] == ':' && r[3..5] == mm && r[5..] == rest;
    ReadSecondsParts(Reading(DecimalValue(hh), DecimalValue(mm), None, None), ss, withSeconds, pm);
  }

  /** Reading back what `formatTime` wrote gives the displayed hour, the minute, the
      seconds exactly when they were included, and AM/PM exactly in 12-hour mode. */
  lemma FormatTimeReadBack(t: WallClock, format24h: bool, includeSeconds: bool)
    requires ValidClock(t)
    ensures ReadTime(FormatTime(t, format24h, includeSeconds)) == Some(Reading(
      if format24h then t.hour else Hour12(t.hour),
      t.minute,
      if includeSeconds then Some(t.second) else None,
      if format24h then None else Some(t.hour >= 12)))
  {
    var pm := if format24h then None else Some(t.hour >= 12);
    assert FormatTime(t, format24h, includeSeconds)
      == Pad2(if format24h then t.hour else Hour12(t.hour)) + ":" + Pad2(t.minute)
        + (if includeSeconds then ":" + Pad2(t.second) else "") + SuffixText(pm);
    ReadTimeParts(Pad2(if format24h then t.hour else Hour12(t.hour)), Pad2(t.minute),
      Pad2(t.second), includeSeconds, pm);
  }

  /** So the text of a valid reading determines its hour and minute, and its second when
      seconds are shown, in either mode. */
  lemma FormatTimeInjective(t: WallClock, t': WallClock, format24h: bool, includeSeconds: bool)
    requires ValidClock(t) && ValidClock(t')
    requires FormatTime(t, format24h, includeSeconds) == FormatTime(t', format24h, includeSeconds)
    ensures t.hour == t'.hour && t.minute == t'.minute
    ensures includeSeconds ==> t.second == t'.second
  {
    FormatTimeReadBack(t, format24h, includeSeconds);
    FormatTimeReadBack(t', format24h, includeSeconds);
    if !format24h {
      TwelveHourLossless(t.hour);
      TwelveHourLossless(t'.hour);
    }
  }

  /** Both front ends show the same text for the two formats the state can hold. */
  lemma PythonMatchesScript(timeFormat: int, showSeconds: bool, t: WallClock)
    requires ValidClock(t)
    requires timeFormat == 12 || timeFormat == 24
    ensures PythonTimeText(timeFormat, showSeconds, t) == FormatTime(t, timeFormat == 24, showSeconds)
  {
  }

  /** `formatTime` text has no surrounding white space, so stripping leaves it alone. */
  lemma FormatTimeUnpadded(t: WallClock, format24h: bool, includeSeconds: bool)
    requires ValidClock(t)
    ensures Strip(FormatTime(t, format24h, includeSeconds)) == FormatTime(t, format24h, includeSeconds)
  {
    var text := FormatTime(t, format24h, includeSeconds);
    assert IsDigit(text[0]);
  }

  /** Outside {12, 24} the two front ends disagree: Python falls back to 24-hour text,
      the browser to 12-hour text. */
  lemma FrontEndsDivergeOutsideFormats()
    ensures PythonTimeText(0, false, WallClock(13, 0, 0)) == "13:00"
    ensures FormatTime(WallClock(13, 0, 0), 0 == 24, false) == "01:00 PM"
  {
    TwelveHourExample();
    TwentyFourHourExample();
  }

  /** 13:00 in 12-hour mode without seconds reads "01:00 PM". */
  lemma TwelveHourExample()
    ensures FormatTime(WallClock(13, 0, 0), false, false) == "01:00 PM"
  {
    Pad2Digits(1);
    Pad2Digits(0);
  }

  /** 09:05:03 in 24-hour mode with seconds reads "09:05:03". */
  lemma SecondsExample()
    ensures FormatTime(WallClock(9, 5, 3), true, true) == "09:05:03"
  {
    Pad2Digits(9);
    Pad2Digits(5);
    Pad2Digits(3);
  }

  /** 13:00 in 24-hour mode without seconds reads "13:00". */
  lemma TwentyFourHourExample()
    ensures FormatTime(WallClock(13, 0, 0), true, false) == "13:00"
  {
    Pad2Digits(13);
    Pad2Digits(0);
  }
}
