/** The world-time rows. The browser fills each row on its own and shows "--:--" only
    in a row whose zone lookup failed; the Python app formats all five zones inside one
    `try` and, if any of them fails, shows "--:--" in every row. Zone conversion is a
    foreign time-zone database here: a lookup that either yields a result or fails. */
module WorldTimes {
  import opened Wrappers
  import opened Decimal
  import TimeFormat

  /** What the browser shows when a zone cannot be formatted, and what Python shows in
      every row after any failure. */
  const Placeholder: string := "--:--"

  // ---------------------------------------------------------------------------------
  // script.js: updateWorldTimes.

  /** One entry of the `timezones` object: the element it fills, the zone identifier,
      the flag and the city name. */
  datatype Zone = Zone(elementId: string, timeZone: string, flag: string, city: string)

  const ScriptZones: seq<Zone> := [
    Zone("worldNY", "America/New_York", "\U{1F5FD}", "New York"),
    Zone("worldLondon", "Europe/London", "\U{1F3F0}", "London"),
    Zone("worldTokyo", "Asia/Tokyo", "\U{1F5FE}", "Tokyo"),
    Zone("worldSydney", "Australia/Sydney", "\U{1F1E6}\U{1F1FA}", "Sydney"),
    Zone("worldDubai", "Asia/Dubai", "\U{1F3DC}\U{FE0F}", "Dubai")
  ]

  /** `s.padEnd(n)`: `s` followed by spaces up to length `n`; a longer `s` is unchanged. */
  function PadEnd(s: string, n: nat): (r: string)
    ensures |r| == if |s| < n then n else |s|
    ensures r[..|s|] == s
    ensures forall k :: |s| <= k < |r| ==> r[k] == ' '
    decreases n - |s|
  {
    if |s| < n then PadEnd(s + " ", n) else s
  }

  /** The text a zone lookup shows: the formatted time, or the placeholder. */
  function Shown(time: Option<string>): (r: string)
    ensures (time.Some? ==> IsClockText(time.value)) ==> (IsClockText(r) <==> time.Some?)
    ensures |r| == 5 || time.Some?
  {
    match time
    case Some(t) => t
    case None => Placeholder
  }

  /** `${info.flag} ${info.city.padEnd(8)} ${timeInZone}`, with "--:--" in the `catch`. */
  function EntryText(z: Zone, time: Option<string>): (r: string)
    ensures |r| == |z.flag| + 2 + |PadEnd(z.city, 8)| + |Shown(time)|
    ensures r[..|z.flag| + 1] == z.flag + " "
    ensures r[|r| - |Shown(time)|..] == Shown(time)
  {
    z.flag + " " + PadEnd(z.city, 8) + " " + Shown(time)
  }

  /** A two-digit hour, a colon and a two-digit minute: what a zone lookup formats with
      `hour: '2-digit', minute: '2-digit', hour12: false`. */
  predicate IsClockText(s: string) {
    |s| == 5 && s[2] == ':' && IsDigit(s[0]) && IsDigit(s[1]) && IsDigit(s[3]) && IsDigit(s[4])
  }

  /** When lookups produce clock texts, a row ends in the placeholder exactly when its
      own lookup failed. */
  lemma PlaceholderIffFailed(z: Zone, time: Option<string>)
    requires time.Some? ==> IsClockText(time.value)
    ensures EntryText(z, time)[|EntryText(z, time)| - 5..] == Placeholder <==> time.None?
  {
    var r := EntryText(z, time);
    if time.Some? {
      assert r[|r| - 5..] == time.value;
      assert time.value[0] != Placeholder[0];
    }
  }

  /** All rows the browser writes, entry by entry, for a given zone lookup. */
  function ScriptRows(lookup: string -> Option<string>): (rows: seq<string>)
    ensures |rows| == |ScriptZones|
    ensures forall i :: 0 <= i < |rows| ==>
      rows[i] == EntryText(ScriptZones[i], lookup(ScriptZones[i].timeZone))
  {
    seq(|ScriptZones|, i requires 0 <= i < |ScriptZones| =>
      EntryText(ScriptZones[i], lookup(ScriptZones[i].timeZone)))
  }

  /** A row of the browser depends only on its own zone: two lookups that agree on one
      zone give the same row for it, whatever happens to the others. */
  lemma ScriptRowsIsolated(lookup: string -> Option<string>, lookup': string -> Option<string>, i: nat)
    requires i < |ScriptZones|
    requires lookup(ScriptZones[i].timeZone) == lookup'(ScriptZones[i].timeZone)
    ensures ScriptRows(lookup)[i] == ScriptRows(lookup')[i]
  {
  }

  /** The element ids the browser writes are all different, so no row overwrites
      another. */
  lemma ElementIdsDistinct(i: nat, j: nat)
    requires i < |ScriptZones| && j < |ScriptZones| && i != j
    ensures ScriptZones[i].elementId != ScriptZones[j].elementId
  {
    assert ScriptZones[0].elementId[5] == 'N' && ScriptZones[1].elementId[5] == 'L';
    assert ScriptZones[2].elementId[5] == 'T' && ScriptZones[3].elementId[5] == 'S';
    assert ScriptZones[4].elementId[5] == 'D';
  }

  /** The element texts after the first `k` rows have been written over `text`. */
  function Written(text: map<string, string>, rows: seq<string>, k: nat): map<string, string>
    requires k <= |ScriptZones| && |rows| == |ScriptZones|
  {
    if k == 0 then text
    else Written(text, rows, k - 1)[ScriptZones[k - 1].elementId := rows[k - 1]]
  }

  /** `id` is the element of one of the first `k` entries. */
  predicate WrittenBy(id: string, k: nat)
    requires k <= |ScriptZones|
  {
    exists i :: 0 <= i < k && id == ScriptZones[i].elementId
  }

  /** After writing `k` rows, each of them holds its own text and every other element
      keeps its old one. */
  lemma {:induction false} WrittenContents(text: map<string, string>, rows: seq<string>, k: nat)
    requires k <= |ScriptZones| && |rows| == |ScriptZones|
    ensures forall i :: 0 <= i < k ==>
      ScriptZones[i].elementId in Written(text, rows, k)
      && Written(text, rows, k)[ScriptZones[i].elementId] == rows[i]
    ensures forall id :: id in text ==> id in Written(text, rows, k)
    ensures forall id :: id in text && !WrittenBy(id, k) ==> Written(text, rows, k)[id] == text[id]
  {
    if k > 0 {
      WrittenContents(text, rows, k - 1);
      forall i | 0 <= i < k - 1
        ensures ScriptZones[i].elementId != ScriptZones[k - 1].elementId
      {
        ElementIdsDistinct(i, k - 1);
      }
    }
  }

  /** The page's element texts, by element id. */
  class ScriptPage {
    var text: map<string, string>

    /** `updateWorldTimes`: one `try`/`catch` per entry, each writing its own element;
        every row ends up with its own entry's text and no other element changes. */
    method UpdateWorldTimes(lookup: string -> Option<string>)
      modifies this
      ensures text == Written(old(text), ScriptRows(lookup), |ScriptZones|)
    {
      ghost var rows := ScriptRows(lookup);
      var k := 0;
      while k < |ScriptZones|
        invariant 0 <= k <= |ScriptZones|
        invariant text == Written(old(text), rows, k)
      {
        var info := ScriptZones[k];
        var shown := lookup(info.timeZone);
        text := text[info.elementId := EntryText(info, shown)];
        k := k + 1;
      }
    }
  }

  // ---------------------------------------------------------------------------------
  // digital_clock.py: update_world_times.

  /** The zones, in the order of the `times` keys 'ny', 'london', 'tokyo', 'sydney',
      'dubai'. */
  const PythonZoneIds: seq<string> :=
    ["America/New_York", "Europe/London", "Asia/Tokyo", "Australia/Sydney", "Asia/Dubai"]

  /** The fixed label in front of each row's time: flag, space, city padded to twelve
      columns. */
  const PythonLabels: seq<string> := [
    "\U{1F5FD} New York    ",
    "\U{1F3F0} London      ",
    "\U{1F5FE} Tokyo       ",
    "\U{1F1E6}\U{1F1FA} Sydney      ",
    "\U{1F3DC}\U{FE0F} Dubai       "
  ]

  /** Every zone's lookup succeeded. */
  predicate AllFound(lookup: string -> Option<TimeFormat.WallClock>) {
    forall i :: 0 <= i < |PythonZoneIds| ==> lookup(PythonZoneIds[i]).Some?
  }

  /** Every successful lookup gives a valid time of day. */
  ghost predicate ValidLookups(lookup: string -> Option<TimeFormat.WallClock>) {
    forall id :: lookup(id).Some? ==> TimeFormat.ValidClock(lookup(id).value)
  }

  /** `update_world_times`: each zone's time through `strftime("%H:%M")` when all five
      succeed; otherwise the `except` branch writes the placeholder in every row. */
  function PythonRows(lookup: string -> Option<TimeFormat.WallClock>): (rows: seq<string>)
    requires ValidLookups(lookup)
    ensures |rows| == |PythonLabels|
    ensures forall i :: 0 <= i < |rows| ==>
      (|rows[i]| == |PythonLabels[i]| + 5 && rows[i][..|PythonLabels[i]|] == PythonLabels[i])
    ensures forall i :: 0 <= i < |rows| ==> (Blanked(rows[i], PythonLabels[i]) <==> !AllFound(lookup))
  {
    if AllFound(lookup) then
      ZoneTexts(lookup);
      seq(|PythonLabels|, i requires 0 <= i < |PythonLabels| =>
        PythonLabels[i] + TimeFormat.Strftime("%H" + ":%M", lookup(PythonZoneIds[i]).value))
    else
      seq(|PythonLabels|, i requires 0 <= i < |PythonLabels| => PythonLabels[i] + Placeholder)
  }

  /** With every zone found, each zone's "%H:%M" text is the browser's 24-hour text. */
  lemma ZoneTexts(lookup: string -> Option<TimeFormat.WallClock>)
    requires ValidLookups(lookup) && AllFound(lookup)
    ensures forall i :: 0 <= i < |PythonZoneIds| ==>
      TimeFormat.Strftime("%H" + ":%M", lookup(PythonZoneIds[i]).value)
        == TimeFormat.FormatTime(lookup(PythonZoneIds[i]).value, true, false)
  {
    forall i | 0 <= i < |PythonZoneIds|
      ensures TimeFormat.Strftime("%H" + ":%M", lookup(PythonZoneIds[i]).value)
        == TimeFormat.FormatTime(lookup(PythonZoneIds[i]).value, true, false)
    {
      TimeFormat.ExpandTwentyFour(lookup(PythonZoneIds[i]).value);
    }
  }

  /** The row shows the placeholder after its label. */
  predicate Blanked(row: string, prefix: string) {
    |prefix| <= |row| && row[|prefix|..] == Placeholder
  }

  /** All or nothing: with every lookup found, each row shows its own zone's `HH:MM`;
      with any lookup failed, every row shows the placeholder, including the rows whose
      own lookup succeeded. */
  lemma PythonAllOrNothing(lookup: string -> Option<TimeFormat.WallClock>, i: nat)
    requires ValidLookups(lookup) && i < |PythonLabels|
    ensures AllFound(lookup) ==>
      PythonRows(lookup)[i]
        == PythonLabels[i] + TimeFormat.FormatTime(lookup(PythonZoneIds[i]).value, true, false)
    ensures !AllFound(lookup) ==> PythonRows(lookup)[i] == PythonLabels[i] + Placeholder
  {
    if AllFound(lookup) {
      TimeFormat.ExpandTwentyFour(lookup(PythonZoneIds[i]).value);
    }
  }

  /** One failed zone: the browser keeps the other rows' times, while Python blanks the
      row of a zone that was found. */
  lemma FrontEndsDivergeOnOneFailure(
    lookup: string -> Option<string>, pyLookup: string -> Option<TimeFormat.WallClock>)
    requires lookup("Australia/Sydney").None? && lookup("America/New_York") == Some("09:30")
    requires ValidLookups(pyLookup) && pyLookup("Australia/Sydney").None?
    ensures ScriptRows(lookup)[0] == "\U{1F5FD} New York 09:30"
    ensures PythonRows(pyLookup)[0] == "\U{1F5FD} New York    --:--"
  {
    assert !AllFound(pyLookup) by {
      assert PythonZoneIds[3] == "Australia/Sydney";
    }
    assert PadEnd("New York", 8) == "New York";
  }
}
