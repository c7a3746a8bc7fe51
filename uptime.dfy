/** The uptime shown in the status bar: whole seconds since start split into hours,
    minutes and seconds, then written as zero-padded `HH:MM:SS`. The elapsed seconds
    are a parameter; the clock reads that produce them are not modelled. */
module Uptime {
  import opened Wrappers
  import opened Decimal
  import opened DivMod

  datatype Split = Split(hours: int, minutes: int, seconds: int)

  /** The number of seconds a split stands for. */
  function Seconds(s: Split): int {
    s.hours * 3600 + s.minutes * 60 + s.seconds
  }

  /** Minutes and seconds both in 0..59. */
  predicate Normal(s: Split) {
    0 <= s.minutes < 60 && 0 <= s.seconds < 60
  }

  /** `divmod(uptime, 3600)` then `divmod(remainder, 60)`. Python's divmod floors, which
      for a positive divisor is Dafny's `/` and `%`, so the split is exact and normal for
      every integer, negative ones included. */
  function PythonSplit(uptime: int): (r: Split)
    ensures Seconds(r) == uptime && Normal(r)
  {
    var hours := uptime / 3600;
    var remainder := uptime % 3600;
    Split(hours, remainder / 60, remainder % 60)
  }

  /** JavaScript's `%`: the remainder takes the sign of the dividend. */
  function ScriptRem(a: int, b: int): (r: int)
    requires b > 0
    ensures a >= 0 ==> 0 <= r < b && r == a % b
    ensures a < 0 ==> -b < r <= 0 && r == -((-a) % b)
  {
    if a >= 0 then a % b else -((-a) % b)
  }

  /** `Math.floor(uptime / 3600)`, `Math.floor((uptime % 3600) / 60)`, `uptime % 60`:
      the divisions floor (Dafny's `/` for a positive divisor) but the remainders
      truncate. For non-negative uptime the split is exact and normal. */
  function ScriptSplit(uptime: int): (r: Split)
    ensures uptime >= 0 ==> Seconds(r) == uptime && Normal(r)
  {
    Split(uptime / 3600, ScriptRem(uptime, 3600) / 60, ScriptRem(uptime, 60))
  }

  /** An exact, normal split is unique: it is the one Python computes. */
  lemma SplitUnique(uptime: int, s: Split)
    requires Seconds(s) == uptime && Normal(s)
    ensures s == PythonSplit(uptime)
  {
    var below := s.minutes * 60 + s.seconds;
    DivModUnique(uptime, 3600, s.hours, below);
    DivModUnique(below, 60, s.minutes, s.seconds);
  }

  /** For the elapsed times that actually occur, both front ends compute the same split. */
  lemma SplitsAgree(uptime: int)
    requires uptime >= 0
    ensures ScriptSplit(uptime) == PythonSplit(uptime)
  {
    SplitUnique(uptime, ScriptSplit(uptime));
  }

  /** One second before the start (a clock set back), the two splits part ways: Python
      still splits exactly into -1 h 59 min 59 s, while the browser's truncating
      remainders give -1 h -1 min -1 s, which is not -1 second. */
  lemma SplitsDivergeBeforeStart()
    ensures PythonSplit(-1) == Split(-1, 59, 59)
    ensures ScriptSplit(-1) == Split(-1, -1, -1)
    ensures Seconds(ScriptSplit(-1)) != -1
  {
    assert -1 / 3600 == -1 && -1 % 3600 == 3599;
    assert 3599 / 60 == 59 && 3599 % 60 == 59;
    assert ScriptRem(-1, 3600) == -1 && ScriptRem(-1, 60) == -1;
    assert -1 / 60 == -1;
  }

  /** `f"{hours:02d}:{minutes:02d}:{seconds:02d}"`, which is also what the browser builds
      with `padStart(2, '0')`: each field at least two digits, hours may use more. */
  function UptimeText(uptime: nat): (r: string)
    ensures |r| >= 8 && r[|r| - 3] == ':' && r[|r| - 6] == ':'
    ensures uptime < 100 * 3600 <==> |r| == 8
    ensures AllDigits(r[..|r| - 6]) && DecimalValue(r[..|r| - 6]) == PythonSplit(uptime).hours
    ensures r[0] == '0' <==> PythonSplit(uptime).hours < 10
    ensures AllDigits(r[|r| - 5..|r| - 3]) && DecimalValue(r[|r| - 5..|r| - 3]) == PythonSplit(uptime).minutes
    ensures AllDigits(r[|r| - 2..]) && DecimalValue(r[|r| - 2..]) == PythonSplit(uptime).seconds
  {
    var s := PythonSplit(uptime);
    var hh, mm, ss := Pad2(s.hours), Pad2(s.minutes), Pad2(s.seconds);
    var r := hh + ":" + mm + ":" + ss;
    assert r[..|r| - 6] == hh;
    assert r[|r| - 5..|r| - 3] == mm;
    assert r[|r| - 2..] == ss;
    assert r[0] == hh[0];
    r
  }

  /** Reads `H...H:MM:SS` back into a number of seconds; None for any other shape. */
  function ParseUptime(r: string): Option<int> {
    if |r| < 8 || r[|r| - 3] != ':' || r[|r| - 6] != ':' then None
    else
      var h := r[..|r| - 6];
      var m := r[|r| - 5..|r| - 3];
      var s := r[|r| - 2..];
      if AllDigits(h) && AllDigits(m) && AllDigits(s) then
        Some(Seconds(Split(DecimalValue(h), DecimalValue(m), DecimalValue(s))))
      else None
  }

  /** Three digit fields joined by colons, the last two of width two, read back field
      by field. */
  lemma ParseFields(hh: string, mm: string, ss: string)
    requires 2 <= |hh| && |mm| == 2 && |ss| == 2
    requires AllDigits(hh) && AllDigits(mm) && AllDigits(ss)
    ensures ParseUptime(hh + ":" + mm + ":" + ss)
      == Some(Seconds(Split(DecimalValue(hh), DecimalValue(mm), DecimalValue(ss))))
  {
    var r := hh + ":" + mm + ":" + ss;
    assert |r| == |hh| + 6;
    assert r[|r| - 3] == ':' && r[|r| - 6] == ':';
    assert r[..|r| - 6] == hh;
    assert r[|r| - 5..|r| - 3] == mm;
    assert r[|r| - 2..] == ss;
    var h, m, s := r[..|r| - 6], r[|r| - 5..|r| - 3], r[|r| - 2..];
    assert AllDigits(h) && AllDigits(m) && AllDigits(s);
    assert DecimalValue(h) == DecimalValue(hh);
    assert DecimalValue(m) == DecimalValue(mm);
    assert DecimalValue(s) == DecimalValue(ss);
    assert ParseUptime(r) == Some(Seconds(Split(DecimalValue(h), DecimalValue(m), DecimalValue(s))));
  }

  /** The uptime text determines the uptime: reading it back gives the seconds. */
  lemma UptimeRoundTrip(uptime: nat)
    ensures ParseUptime(UptimeText(uptime)) == Some(uptime)
  {
    var sp := PythonSplit(uptime);
    ParseFields(Pad2(sp.hours), Pad2(sp.minutes), Pad2(sp.seconds));
  }
}
