/** The clock's mutable state (theme, hour format, seconds flag) and the key actions
    that change it: the Python app's reactive fields with `action_toggle_*`, and the
    browser's module-level globals with `toggle*`. */
module ClockState {
  import Glyphs
  import TimeFormat
  import opened Cycles

  /** The theme cycle, in the order both front ends list it. */
  const Themes: seq<string> := ["neon", "classic", "matrix", "cyberpunk"]

  /** The four themes are different names (their second letters already differ). */
  lemma ThemesDistinct()
    ensures |Themes| == 4 && Distinct(Themes)
  {
    assert Themes[0][1] == 'e' && Themes[1][1] == 'l';
    assert Themes[2][1] == 'a' && Themes[3][1] == 'y';
  }

  // ---------------------------------------------------------------------------------
  // The theme toggle on the four themes.

  /** The theme after one toggle. */
  function NextTheme(theme: string): (r: string)
    ensures r in Themes
  {
    Advance(Themes, theme)
  }

  /** A toggle moves a theme of the cycle to its successor, the last one back to the
      first. */
  lemma NextThemeIsSuccessor(i: nat)
    requires i < |Themes|
    ensures NextTheme(Themes[i]) == Themes[(i + 1) % |Themes|]
  {
    ThemesDistinct();
    AdvanceAt(Themes, i, Themes[i]);
  }

  /** In the browser, a theme outside the cycle toggles to "neon". */
  lemma UnknownThemeToNeon(theme: string)
    requires theme !in Themes
    ensures NextTheme(theme) == "neon"
  {
  }

  /** The theme after `n` toggles. */
  function Toggled(theme: string, n: nat): string {
    AdvanceN(Themes, theme, n)
  }

  /** Four toggles restore a theme of the cycle, and no fewer than four do. */
  lemma FourTogglesRestore(theme: string, n: nat)
    requires theme in Themes
    ensures Toggled(theme, 4) == theme
    ensures 0 < n < 4 ==> Toggled(theme, n) != theme
  {
    ThemesDistinct();
    FullCycle(Themes, theme, n);
  }

  /** Distinct themes of the cycle stay distinct after a toggle. */
  lemma NextThemeInjective(a: string, b: string)
    requires a in Themes && b in Themes && a != b
    ensures NextTheme(a) != NextTheme(b)
  {
    ThemesDistinct();
    AdvanceInjective(Themes, a, b);
  }

  /** `12 if time_format == 24 else 24`, and `timeFormat === 24 ? 12 : 24`. */
  function ToggledFormat(timeFormat: int): (r: int)
    ensures r == 12 || r == 24
    ensures r == 12 <==> timeFormat == 24
  {
    if timeFormat == 24 then 12 else 24
  }

  /** On the two formats the toggle swaps them, so toggling twice restores the format;
      any other value goes to 24 and then 12, so it is not restored. */
  lemma FormatToggleInvolution(timeFormat: int)
    ensures timeFormat == 12 || timeFormat == 24 <==>
      ToggledFormat(ToggledFormat(timeFormat)) == timeFormat
  {
  }

  /** The Python app: the three reactive fields and the three key actions. */
  class DigitalClockApp {
    var clockTheme: string
    var timeFormat: int
    var showSeconds: bool

    /** The states the actions keep: a theme of the cycle and one of the two formats. */
    predicate Valid()
      reads this
    {
      clockTheme in Themes && (timeFormat == 12 || timeFormat == 24)
    }

    /** `reactive("neon")`, `reactive(24)`, `reactive(True)`. */
    constructor ()
      ensures clockTheme == "neon" && timeFormat == 24 && showSeconds
      ensures Valid()
    {
      clockTheme := "neon";
      timeFormat := 24;
      showSeconds := true;
    }

    /** `action_toggle_theme`: `themes.index` raises for a theme outside the cycle, so
        the current theme must be in it. */
    method ActionToggleTheme()
      requires clockTheme in Themes
      modifies this
      ensures clockTheme == NextTheme(old(clockTheme))
      ensures timeFormat == old(timeFormat) && showSeconds == old(showSeconds)
      ensures old(Valid()) ==> Valid()
    {
      var themes := Themes;
      var currentIdx := IndexOf(themes, clockTheme);
      clockTheme := themes[(currentIdx + 1) % |themes|];
    }

    /** `action_toggle_format`. */
    method ActionToggleFormat()
      modifies this
      ensures timeFormat == ToggledFormat(old(timeFormat))
      ensures clockTheme == old(clockTheme) && showSeconds == old(showSeconds)
      ensures old(clockTheme in Themes) ==> Valid()
    {
      timeFormat := if timeFormat == 24 then 12 else 24;
    }

    /** `action_toggle_seconds`. */
    method ActionToggleSeconds()
      modifies this
      ensures showSeconds == !old(showSeconds)
      ensures clockTheme == old(clockTheme) && timeFormat == old(timeFormat)
      ensures old(Valid()) ==> Valid()
    {
      showSeconds := !showSeconds;
    }

    /** The main-time part of `update_display`: the stripped strftime text for the
        current format, drawn in glyphs. */
    method UpdateDisplay(t: TimeFormat.WallClock) returns (bigTime: string)
      requires TimeFormat.ValidClock(t)
      ensures bigTime
        == Glyphs.Render(TimeFormat.PythonTimeText(timeFormat, showSeconds, t))
    {
      var timeStr := TimeFormat.PythonTimeText(timeFormat, showSeconds, t);
      bigTime := Glyphs.CreateBigTime(timeStr);
    }
  }

  /** The browser page: the globals `currentTheme`, `timeFormat`, `showSeconds` and the
      three toggles. */
  class ScriptClock {
    var currentTheme: string
    var timeFormat: int
    var showSeconds: bool

    predicate Valid()
      reads this
    {
      currentTheme in Themes && (timeFormat == 12 || timeFormat == 24)
    }

    /** `let currentTheme = 'neon'`, `let timeFormat = 24`, `let showSeconds = true`. */
    constructor ()
      ensures currentTheme == "neon" && timeFormat == 24 && showSeconds
      ensures Valid()
    {
      currentTheme := "neon";
      timeFormat := 24;
      showSeconds := true;
    }

    /** `toggleTheme`: total; an unknown theme is found at -1 and moves to "neon". */
    method ToggleTheme()
      modifies this
      ensures currentTheme == NextTheme(old(currentTheme))
      ensures timeFormat == old(timeFormat) && showSeconds == old(showSeconds)
      ensures old(timeFormat == 12 || timeFormat == 24) ==> Valid()
    {
      var currentIndex := IndexOf(Themes, currentTheme);
      currentTheme := Themes[(currentIndex + 1) % |Themes|];
    }

    /** `toggleFormat`. */
    method ToggleFormat()
      modifies this
      ensures timeFormat == ToggledFormat(old(timeFormat))
      ensures currentTheme == old(currentTheme) && showSeconds == old(showSeconds)
      ensures old(currentTheme in Themes) ==> Valid()
    {
      timeFormat := if timeFormat == 24 then 12 else 24;
    }

    /** `toggleSeconds`. */
    method ToggleSeconds()
      modifies this
      ensures showSeconds == !old(showSeconds)
      ensures currentTheme == old(currentTheme) && timeFormat == old(timeFormat)
      ensures old(Valid()) ==> Valid()
    {
      showSeconds := !showSeconds;
    }

    /** The main-time part of `updateDisplay`: `formatTime(now, timeFormat === 24,
        showSeconds)` drawn in glyphs. */
    method UpdateDisplay(t: TimeFormat.WallClock) returns (bigTime: string)
      requires TimeFormat.ValidClock(t)
      ensures bigTime
        == Glyphs.Render(TimeFormat.FormatTime(t, timeFormat == 24, showSeconds))
    {
      var timeStr := TimeFormat.FormatTime(t, timeFormat == 24, showSeconds);
      bigTime := Glyphs.CreateBigTime(timeStr);
    }
  }

  /** Two front ends in the same valid state draw the same clock face at the same time. */
  lemma SameStateSameFace(timeFormat: int, showSeconds: bool, t: TimeFormat.WallClock)
    requires TimeFormat.ValidClock(t)
    requires timeFormat == 12 || timeFormat == 24
    ensures Glyphs.Render(TimeFormat.PythonTimeText(timeFormat, showSeconds, t))
      == Glyphs.Render(TimeFormat.FormatTime(t, timeFormat == 24, showSeconds))
  {
    TimeFormat.PythonMatchesScript(timeFormat, showSeconds, t);
  }

  /** A terminal app and a browser page in the same valid state: their `UpdateDisplay`
      methods draw the same clock face at the same time. */
  lemma ClocksInStepDrawAlike(app: DigitalClockApp, page: ScriptClock, t: TimeFormat.WallClock)
    requires TimeFormat.ValidClock(t)
    requires app.Valid() && page.Valid()
    requires app.timeFormat == page.timeFormat && app.showSeconds == page.showSeconds
    ensures Glyphs.Render(TimeFormat.PythonTimeText(app.timeFormat, app.showSeconds, t))
      == Glyphs.Render(TimeFormat.FormatTime(t, page.timeFormat == 24, page.showSeconds))
  {
    SameStateSameFace(app.timeFormat, app.showSeconds, t);
  }
}
