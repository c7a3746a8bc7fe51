# clock_app core, in Dafny

clock_app is a digital clock with two front ends that share their logic. One is a
Textual terminal app (`digital_clock.py`). The other is a browser page (`script.js`).
This project models the deterministic core under both and proves properties of it.

- **Glyphs**: the `ASCII_DIGITS` table, and the big-clock renderer `create_big_time` /
  `createBigTime`.
  - The renderer upper-cases the text and looks up each character, using the blank
    glyph when a character has no entry.
  - It appends that glyph's row `i` and a space to output row `i`, then joins the five
    rows with newlines.
  - The renderer is a method over a five-element `array` with nested loops. It is
    proved equal to the specification function `Render`, and the properties of the
    picture are lemmas about `Render`.
- **TimeFormat**: the text of the main clock.
  - Python picks one of four strftime patterns from `(time_format, show_seconds)`,
    expands it, and strips it. strftime is modelled with the C locale.
  - The browser builds the text in `formatTime`.
  - The two are proved equal on the states the toggles keep. They are shown to differ
    outside them: Python takes the 12-hour branch only when `time_format == 12`, while
    the browser takes the 24-hour branch only when `timeFormat === 24`.
  - A small parser reads a formatted text back, so the formatting loses nothing.
- **Uptime**: the status-bar uptime.
  - Python uses `divmod`, which floors.
  - The browser uses `Math.floor` for the divisions but JavaScript's truncating `%` for
    the remainders.
  - The model proves the two splits exact, normal and equal for non-negative uptime, and
    exhibits the difference at -1 second. It also proves that the `HH:MM:SS` text
    round-trips.
- **ClockState**: the three state fields and their toggles.
  - They appear as two classes: the Python app's reactive fields with the
    `action_toggle_*` methods, and the browser's globals with the `toggle*` functions.
  - Each toggle is a `modifies this` method that states the new value of every field.
  - The theme cycle laws are proved generically in module `Cycles`.
- **WorldTimes**: the five world-clock rows, with the zone lookup taken as a parameter.
  - The browser fills each row in its own `try`/`catch`, so a failed lookup blanks only
    its own row.
  - Python formats all five zones in one `try`, so any failure blanks all five rows.

Module `Decimal` holds the digit strings behind `padStart(2, '0')` and `{n:02d}`. Module
`DivMod` holds the quotient/remainder facts used by the uptime and cycle proofs.
Module `Wrappers` holds `Option`.

## Model

| member | source | states |
|---|---|---|
| Decimal.Pad2 | script.js:93 | `n.toString().padStart(2, '0')` and `{n:02d}`: at least two digits, reads back as `n`, exactly two below 100, a leading zero exactly below 10 |
| Decimal.DecimalString | script.js:56 | `n.toString()`: digits only, no leading zero, one digit exactly below 10, two digits from 10 to 99 |
| Decimal.DecimalRoundTrip | script.js:56 | the decimal spelling of a number reads back as that number |
| Glyphs.Lookup | digital_clock.py:20-36 | every entry of `ASCII_DIGITS` has five rows, each 1 to 7 columns wide and free of newlines |
| Glyphs.HasGlyphIsTableKey | digital_clock.py:20-36 | the keys of `ASCII_DIGITS` are exactly the ten digits, ":", "A", "P", "M" and the space |
| Glyphs.UpperChar | digital_clock.py:216 | ASCII upper-casing: lower-case letters move up by 32, every other character is unchanged |
| Glyphs.Upper | script.js:34 | `toUpperCase()` keeps the length and upper-cases each character in place |
| Glyphs.GlyphFor | digital_clock.py:218 | `ASCII_DIGITS.get(char, ASCII_DIGITS[' '])`: no row holds a newline, and a missing key gives the blank glyph |
| Glyphs.GlyphsOf | digital_clock.py:216-218 | one glyph per upper-cased character, in order |
| Glyphs.CreateBigTime | digital_clock.py:208-224 | the five row buffers extended in the nested loops and joined by "\n" give exactly `Render(timeStr)` (also `createBigTime`, script.js:31-42) |
| Glyphs.RowsExtend | digital_clock.py:219-221 | one more character appends its glyph's row `i` and a space to row `i`, for each of the five rows |
| Glyphs.Join | digital_clock.py:224 | `"\n".join(lines)` starts with the first line |
| Glyphs.Render | digital_clock.py:214-224 | the text `create_big_time` returns has exactly four newlines, and splitting it at them gives back the five rows, row `i` being glyph row `i` plus a space per character |
| Glyphs.SplitJoin | digital_clock.py:224 | joining newline-free rows with "\n" gives `rows - 1` newlines and splits back into the same rows |
| Glyphs.RowShape | digital_clock.py:221 | row `i` has no newline, its length is the sum of the glyph row widths plus one per character, and it ends in a space when non-empty |
| Glyphs.RenderRows | digital_clock.py:214-224 | the picture has exactly four newlines and five rows; row `i` is the concatenation of glyph row `i` plus a space over the upper-cased characters; its width is the sum of those widths; it ends in a space for non-empty input |
| Glyphs.GlyphWidths | digital_clock.py:21-35 | every glyph row is 7 columns wide, except the colon's rows (1 column) and row 3 of '2' (6 columns) |
| Glyphs.UniformRowWidth | digital_clock.py:21-35 | a row is at most 8 columns per character, and exactly 8 per character iff no ':' is drawn and, for row 3, no '2' |
| Glyphs.UnknownIsBlank | digital_clock.py:218 | a character without a table entry draws as seven spaces plus the separator in every row |
| Glyphs.RenderIgnoresCase | script.js:34 | rendering the upper-cased text gives the same picture; "a", "p" and "m" draw as "A", "P" and "M" |
| Glyphs.RenderEmpty | digital_clock.py:214 | empty input gives five empty rows, "\n\n\n\n" |
| TimeFormat.Hour12 | script.js:52-53 | `hours % 12` with 0 shown as 12: in 1..12 and congruent to the hour mod 12 |
| TimeFormat.TwelveHourLossless | script.js:50-54 | the 12-hour hour and the PM flag give back the 24-hour hour; 0 -> 12, 12 -> 12, 13 -> 1 |
| TimeFormat.StrftimePattern | digital_clock.py:181-184 | "%I" exactly when `time_format == 12`, else "%H"; then ":%M"; ":%S" when seconds are shown; " %p" exactly in 12-hour mode; directives aligned; length 5/8/8/11 |
| TimeFormat.Directive | digital_clock.py:182-184 | `%H`, `%I`, `%M`, `%S` give two digits reading back as the hour, the 12-hour hour, the minute and the second; `%p` gives "AM" before noon and "PM" from noon |
| TimeFormat.Strftime | digital_clock.py:186 | `now.strftime(pattern)` in the C locale, read left to right; it carries no contract of its own, and its behaviour is stated by `StrftimeLiteral`, `PieceTexts`, `StrftimeAppend` and the four `Expand*` lemmas |
| TimeFormat.StrftimeLiteral | digital_clock.py:186 | strftime copies pattern text without '%' unchanged |
| TimeFormat.PieceTexts | digital_clock.py:182-184 | what "%H", "%I", ":%M", ":%S" and " %p" each expand to |
| TimeFormat.StrftimeAppend | digital_clock.py:186 | strftime of a pattern whose directives are complete expands piece by piece |
| TimeFormat.ExpandTwentyFour | digital_clock.py:184 | "%H:%M" expands to the browser's 24-hour text without seconds |
| TimeFormat.ExpandTwentyFourSeconds | digital_clock.py:184 | "%H:%M:%S" expands to the browser's 24-hour text with seconds |
| TimeFormat.ExpandTwelve | digital_clock.py:182 | "%I:%M %p" expands to the browser's 12-hour text without seconds |
| TimeFormat.ExpandTwelveSeconds | digital_clock.py:182 | "%I:%M:%S %p" expands to the browser's 12-hour text with seconds |
| TimeFormat.StripLeft | digital_clock.py:186 | a suffix of the text; everything removed is white space; the result does not start with white space |
| TimeFormat.StripRight | digital_clock.py:186 | a prefix of the text; everything removed is white space; the result does not end with white space |
| TimeFormat.Strip | digital_clock.py:186 | `.strip()` with `str.isspace` white space: the result is a slice `s[i..j]` with only white space outside it, has no white space at either end, and is the input itself when the input has none there |
| TimeFormat.PythonTimeText | digital_clock.py:181-186 | the stripped strftime text is exactly `formatTime`'s text, in 24-hour mode exactly when `time_format != 12` |
| TimeFormat.PatternExpands | digital_clock.py:181-186 | each selected pattern, expanded and stripped, is `formatTime`'s text for the mode it selects |
| TimeFormat.FormatTime | script.js:44-58 | length 5 + 3 with seconds + 3 in 12-hour mode; every character has a glyph; suffix " PM" iff `hours >= 12` in 12-hour mode; starts with a digit |
| TimeFormat.ReadTimeParts | script.js:56 | a text made of two-digit hour and minute fields, an optional seconds field and an optional suffix parses back into those fields |
| TimeFormat.FormatTimeReadBack | script.js:44-58 | reading `formatTime`'s text back gives the displayed hour, the minute, the seconds exactly when included, and AM/PM exactly in 12-hour mode |
| TimeFormat.FormatTimeInjective | script.js:44-58 | equal texts mean equal hour and minute, and equal seconds when they are shown, in either mode |
| TimeFormat.FormatTimeUnpadded | digital_clock.py:186 | the browser's text has no surrounding white space, so stripping leaves it unchanged |
| TimeFormat.PythonMatchesScript | digital_clock.py:181-186 | for `time_format` in {12, 24}, the stripped strftime text equals `formatTime(now, timeFormat === 24, showSeconds)` |
| TimeFormat.FrontEndsDivergeOutsideFormats | digital_clock.py:181 | with format 0, Python shows "13:00" at 13:00 and the browser shows "01:00 PM" |
| TimeFormat.TwelveHourExample | script.js:50-56 | 13:00 in 12-hour mode without seconds reads "01:00 PM" |
| TimeFormat.SecondsExample | script.js:56 | 09:05:03 in 24-hour mode with seconds reads "09:05:03" |
| TimeFormat.TwentyFourHourExample | script.js:56 | 13:00 in 24-hour mode without seconds reads "13:00" |
| Uptime.PythonSplit | digital_clock.py:200-202 | `divmod` twice: `hours*3600 + minutes*60 + seconds == uptime` with minutes and seconds in 0..59, for every integer |
| Uptime.ScriptRem | script.js:91-92 | JavaScript `%`: for a non-negative dividend, the floor remainder; for a negative one, the negated remainder of its absolute value, in `(-b, 0]` |
| Uptime.ScriptSplit | script.js:89-92 | for non-negative uptime the browser's split is exact and normal |
| Uptime.SplitUnique | digital_clock.py:201-202 | an exact, normal split is unique, so it is Python's |
| Uptime.SplitsAgree | script.js:90-92 | for non-negative uptime both front ends compute the same split |
| Uptime.SplitsDivergeBeforeStart | script.js:91-92 | at -1 second Python gives -1 h 59 min 59 s while the browser gives -1 h -1 min -1 s, which is not -1 second |
| Uptime.UptimeText | digital_clock.py:201-203 | `HH:MM:SS` with colons at the last two field boundaries; exactly eight characters iff the uptime is under 100 hours; the three fields are digits reading back as the `divmod` split's hours, minutes (0..59) and seconds (0..59); the hours field starts with '0' exactly below 10 hours |
| Uptime.ParseFields | script.js:93 | three digit fields joined by colons, the last two two wide, read back field by field |
| Uptime.UptimeRoundTrip | digital_clock.py:200-203 | reading the uptime text back gives the uptime |
| Cycles.IndexOf | script.js:128 | `indexOf`: -1 iff absent, else a position holding the element |
| Cycles.IndexOfFirst | digital_clock.py:262 | `list.index` finds the first occurrence |
| Cycles.Advance | script.js:129 | `themes[(i + 1) % themes.length]` is always an element of the cycle |
| Cycles.AdvanceAt | digital_clock.py:263 | in a cycle without repeats one step goes from position `i` to `i + 1`, the last back to the first |
| Cycles.WrapIsMod | digital_clock.py:263 | the wrap-around position is `% len(themes)` |
| Cycles.AdvanceNAt | digital_clock.py:263 | `n` steps go from position `i` to position `(i + n) % len` |
| Cycles.FullCycle | digital_clock.py:261-263 | `len` steps restore an element, and no shorter positive walk does |
| Cycles.AdvanceInjective | digital_clock.py:263 | different elements step to different elements |
| ClockState.ThemesDistinct | digital_clock.py:261 | the four theme names are pairwise different |
| ClockState.NextTheme | script.js:127-129 | the toggled theme is always one of the four |
| ClockState.NextThemeIsSuccessor | digital_clock.py:261-263 | the toggle moves each theme to the next one in the list, "cyberpunk" back to "neon" |
| ClockState.UnknownThemeToNeon | script.js:128-129 | in the browser an unknown theme (`indexOf` gives -1) toggles to "neon" |
| ClockState.FourTogglesRestore | script.js:127-129 | four toggles restore a theme, and one to three toggles do not |
| ClockState.NextThemeInjective | digital_clock.py:263 | different themes toggle to different themes |
| ClockState.ToggledFormat | digital_clock.py:271 | the toggled format is 12 or 24, and 12 exactly when it was 24 |
| ClockState.FormatToggleInvolution | script.js:136 | toggling twice restores the format exactly when it is 12 or 24 |
| ClockState.DigitalClockApp.constructor | digital_clock.py:49-51 | starts at "neon", 24 and seconds shown, a valid state |
| ClockState.DigitalClockApp.ActionToggleTheme | digital_clock.py:259-263 | requires the theme to be in the list (`.index` raises otherwise); the theme becomes the next one; the other fields are unchanged; validity is kept |
| ClockState.DigitalClockApp.ActionToggleFormat | digital_clock.py:269-271 | the format becomes the toggled one; the other fields are unchanged; the new state is valid when the theme is in the list |
| ClockState.DigitalClockApp.ActionToggleSeconds | digital_clock.py:273-275 | the flag is negated; the other fields are unchanged; validity is kept |
| ClockState.DigitalClockApp.UpdateDisplay | digital_clock.py:181-188 | the big time is the rendered, stripped strftime text for the current state |
| ClockState.ScriptClock.constructor | script.js:23-25 | starts at "neon", 24 and seconds shown, a valid state |
| ClockState.ScriptClock.ToggleTheme | script.js:127-129 | total: the theme becomes the next one, or "neon" when unknown; the other globals are unchanged |
| ClockState.ScriptClock.ToggleFormat | script.js:135-137 | the format becomes the toggled one; the other globals are unchanged |
| ClockState.ScriptClock.ToggleSeconds | script.js:139-141 | the flag is negated; the other globals are unchanged; validity is kept |
| ClockState.ScriptClock.UpdateDisplay | script.js:70-71 | the big time is the rendered `formatTime(now, timeFormat === 24, showSeconds)` |
| ClockState.SameStateSameFace | script.js:70-71 | in the same valid state both front ends draw the same clock face |
| ClockState.ClocksInStepDrawAlike | digital_clock.py:186-188 | a terminal app and a browser page, both `Valid()` and with equal format and seconds flag, draw the same clock face through their `UpdateDisplay` |
| WorldTimes.PadEnd | script.js:119 | `padEnd(n)`: length `max(len, n)`, the original as prefix, spaces after it |
| WorldTimes.Shown | script.js:116-122 | the time text, or "--:--" in the `catch`: a clock text exactly when the lookup succeeded, given that lookups yield clock texts |
| WorldTimes.EntryText | script.js:118-122 | `${flag} ${city.padEnd(8)} ${time}`: starts with flag and space, ends with the time or "--:--" |
| WorldTimes.PlaceholderIffFailed | script.js:120-122 | a row ends in "--:--" exactly when its own lookup failed |
| WorldTimes.ScriptRows | script.js:108-123 | row `i` is entry `i`'s text for its own lookup result |
| WorldTimes.ScriptRowsIsolated | script.js:109-123 | a row depends only on its own zone's lookup |
| WorldTimes.ElementIdsDistinct | script.js:101-107 | the five element ids are pairwise different |
| WorldTimes.WrittenContents | script.js:118-122 | after `k` writes, each written element holds its own row and every other element keeps its text |
| WorldTimes.ScriptPage.UpdateWorldTimes | script.js:100-125 | the loop writes each entry's row to its own element and nothing else |
| WorldTimes.PythonRows | digital_clock.py:226-257 | five rows, each its fixed label followed by five characters; each row shows "--:--" after its label exactly when some lookup failed |
| WorldTimes.ZoneTexts | digital_clock.py:231-235 | with every zone found, each zone's `strftime("%H:%M")` text is the browser's 24-hour text |
| WorldTimes.PythonAllOrNothing | digital_clock.py:228-257 | all lookups found: each row shows its zone's "%H:%M"; any lookup failed: every row shows "--:--" |
| WorldTimes.FrontEndsDivergeOnOneFailure | digital_clock.py:252-253 | with only Sydney failing, the browser keeps New York's time and Python blanks it |

## Left out

- Textual and DOM plumbing is not modelled: `compose`, CSS, `query_one(...).update`, `getElementById`, class changes and the keyboard and visibility listeners. Writing a widget's text is modelled only for the world-time elements, as a map from element id to text.
- Timers and clock reads (`set_interval`, `setInterval`, `datetime.now`, `time.time`, `Date.now`) are not modelled. The wall-clock time and the elapsed seconds are parameters.
- strftime is modelled for the C locale only, so `%p` is "AM"/"PM". Other locales are not modelled.
- The date line is not modelled: `%A, %B %d, %Y`, `isocalendar`, `toLocaleDateString` and `getWeekNumber`. They depend on calendar and locale data and floating-point day counts. The status line is modelled only for its uptime part; the theme name, the format and the zone name are left out.
- `ZoneInfo`, `pytz` and `Intl.DateTimeFormat` zone resolution are foreign databases. Each is a lookup function parameter. The browser's lookup is assumed to yield "HH:MM" text where `PlaceholderIffFailed` needs that.
- WorldTimes.PythonRows: the Python `try` also covers the widget updates, whose failures are not modelled. The `pytz` fallback branch has the same all-or-nothing shape and is not modelled separately.
- Glyphs.Upper: upper-casing is ASCII-only. Python's `str.upper()` can change the length of non-ASCII text, for example 'ß' becomes "SS".
- Uptime: the elapsed seconds are a parameter, so the conversion before the split is not modelled. Python's `int(...)` truncates and the browser's `Math.floor` floors, so for a clock set back half a second Python shows uptime 0 and the browser -1.
- Uptime.UptimeText: modelled for non-negative uptime only, which is all a forward clock produces. Python formats a negative field with a sign.
- WorldTimes.PadEnd counts Unicode code points, while JavaScript's `padEnd` counts UTF-16 units. The two agree for the ASCII city names padded here.
- ClockState.DigitalClockApp.ActionToggleTheme: Python raises `ValueError` for a theme outside the list. The model makes this a precondition instead of modelling the exception.
