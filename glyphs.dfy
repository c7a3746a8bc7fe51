/** The big ASCII-art renderer shared by both front ends: the `ASCII_DIGITS` table and
    `create_big_time` (digital_clock.py) / `createBigTime` (script.js). */
module Glyphs {

  import opened Wrappers

  const Rows: nat := 5

  /** `ASCII_DIGITS`: every entry has five rows; the colon's rows are one column wide and
      row 3 of '2' is six columns wide, every other row seven. */
  function Lookup(c: char): (r: Option<seq<string>>)
    ensures r.Some? ==> |r.value| == Rows
    ensures r.Some? ==> forall i :: 0 <= i < |r.value| ==> 1 <= |r.value[i]| <= 7 && '\n' !in r.value[i]
  {
    match c
    case '0' => Some([" ##### ", "#     #", "#     #", "#     #", " ##### "])
    case '1' => Some(["  #    ", " ##    ", "  #    ", "  #    ", " ###   "])
    case '2' => Some([" ##### ", "     # ", " ##### ", "#     ", " ##### "])
    case '3' => Some([" ##### ", "     # ", "  #### ", "     # ", " ##### "])
    case '4' => Some(["#   #  ", "#   #  ", "#######", "    #  ", "    #  "])
    case '5' => Some([" ##### ", "#      ", " ####  ", "     # ", " ##### "])
    case '6' => Some([" ##### ", "#      ", " ##### ", "#     #", " ##### "])
    case '7' => Some([" ##### ", "    #  ", "   #   ", "  #    ", " #     "])
    case '8' => Some([" ##### ", "#     #", " ##### ", "#     #", " ##### "])
    case '9' => Some([" ##### ", "#     #", " ##### ", "     # ", " ##### "])
    case ':' => Some([" ", "\U{2022}", " ", "\U{2022}", " "])
    case 'A' => Some(["  ###  ", " #   # ", " ##### ", "#     #", "#     #"])
    case 'P' => Some([" ####  ", "#    # ", " ####  ", "#      ", "#      "])
    case 'M' => Some(["#     #", "##   ##", "# # # #", "#  #  #", "#     #"])
    case ' ' => Some(["       ", "       ", "       ", "       ", "       "])
    case _ => None
  }

  const Blank: string := "       "

  /** The characters `Lookup` knows. */
  predicate HasGlyph(c: char) {
    Lookup(c).Some?
  }

  /** The table's keys are the ten digits, the colon, 'A', 'P', 'M' and the space. */
  lemma HasGlyphIsTableKey(c: char)
    ensures HasGlyph(c) <==> '0' <= c <= '9' || c == ':' || c == 'A' || c == 'P' || c == 'M' || c == ' '
  {
    if '0' <= c <= '9' {
      var n := c as int - '0' as int;
      assert c == ('0' as int + n) as char;
      assert 0 <= n < 10;
    }
  }

  /** ASCII-only upper-casing of one character. */
  function UpperChar(c: char): (u: char)
    ensures 'a' <= c <= 'z' ==> 'A' <= u <= 'Z' && u as int == c as int - 32
    ensures !('a' <= c <= 'z') ==> u == c
  {
    if 'a' <= c <= 'z' then (c as int - 32) as char else c
  }

  /** `time_str.upper()` / `timeStr.toUpperCase()` on ASCII text. */
  function Upper(s: string): (u: string)
    ensures |u| == |s|
    ensures forall k :: 0 <= k < |s| ==> u[k] == UpperChar(s[k])
  {
    seq(|s|, k requires 0 <= k < |s| => UpperChar(s[k]))
  }

  /** A glyph: one string per row. */
  type Glyph = g: seq<string> | |g| == Rows witness ["", "", "", "", ""]

  const Blank5: Glyph := [Blank, Blank, Blank, Blank, Blank]

  /** The glyph drawn for an (already upper-cased) character: its table entry, or the
      blank glyph when it has none. */
  function GlyphFor(c: char): (g: Glyph)
    ensures forall i :: 0 <= i < Rows ==> '\n' !in g[i]
    ensures Lookup(c).None? ==> g == Blank5
  {
    match Lookup(c)
    case Some(g) => g
    case None => Blank5
  }

  /** The glyph of every character of `u`, in order. */
  function GlyphsOf(u: string): (gs: seq<Glyph>)
    ensures |gs| == |u|
    ensures forall k :: 0 <= k < |u| ==> gs[k] == GlyphFor(u[k])
  {
    seq(|u|, k requires 0 <= k < |u| => GlyphFor(u[k]))
  }

  /** No glyph row holds a newline. */
  ghost predicate NoNewlines(gs: seq<Glyph>) {
    forall k, i :: 0 <= k < |gs| && 0 <= i < Rows ==> '\n' !in gs[k][i]
  }

  /** Row `i` of the picture of the glyphs `gs`: each glyph's row `i` followed by one
      separating space, in order. */
  function Row(gs: seq<Glyph>, i: nat): string
    requires i < Rows
    decreases |gs|
  {
    if gs == [] then "" else Row(gs[..|gs| - 1], i) + gs[|gs| - 1][i] + " "
  }

  /** `"\n".join(lines)` */
  function Join(lines: seq<string>): (r: string)
    ensures |lines| >= 1 ==> |lines[0]| <= |r| && r[..|lines[0]|] == lines[0]
    decreases |lines|
  {
    if |lines| == 0 then ""
    else if |lines| == 1 then lines[0]
    else lines[0] + "\n" + Join(lines[1..])
  }

  function RowsOf(gs: seq<Glyph>): (ls: seq<string>)
    ensures |ls| == Rows
    ensures forall i :: 0 <= i < Rows ==> ls[i] == Row(gs, i)
  {
    [Row(gs, 0), Row(gs, 1), Row(gs, 2), Row(gs, 3), Row(gs, 4)]
  }

  /** The text `create_big_time(s)` returns. */
  function Render(s: string): (r: string)
    ensures CountChar(r, '\n') == Rows - 1
    ensures SplitLines(r) == RowsOf(GlyphsOf(Upper(s)))
  {
    var ls := RowsOf(GlyphsOf(Upper(s)));
    forall i | 0 <= i < Rows
      ensures '\n' !in ls[i]
    {
      RowShape(GlyphsOf(Upper(s)), i);
    }
    SplitJoin(ls);
    Join(ls)
  }

  /** `create_big_time` / `createBigTime`: five row buffers, each extended in place by one
      glyph row and a space per upper-cased character, then joined with newlines. */
  method CreateBigTime(timeStr: string) returns (bigTime: string)
    ensures bigTime == Render(timeStr)
  {
    var u := Upper(timeStr);
    ghost var gs := GlyphsOf(u);
    var outputLines := new string[Rows](_ => "");
    var k := 0;
    while k < |u|
      invariant 0 <= k <= |u|
      invariant outputLines.Length == Rows
      invariant outputLines[..] == RowsOf(gs[..k])
    {
      var pattern := GlyphFor(u[k]);
      ghost var before := outputLines[..];
      var i := 0;
      while i < Rows
        invariant 0 <= i <= Rows
        invariant forall j :: 0 <= j < i ==> outputLines[j] == before[j] + pattern[j] + " "
        invariant forall j :: i <= j < Rows ==> outputLines[j] == before[j]
      {
        outputLines[i] := outputLines[i] + pattern[i] + " ";
        i := i + 1;
      }
      assert outputLines[..] == Extend(before, pattern);
      RowsExtend(gs, k);
      k := k + 1;
    }
    assert gs[..k] == gs;
    bigTime := Join(outputLines[..]);
  }

  /** Each of five rows followed by the glyph's row of the same index and a space. */
  function Extend(lines: seq<string>, g: Glyph): (r: seq<string>)
    requires |lines| == Rows
    ensures |r| == Rows
  {
    seq(Rows, j requires 0 <= j < Rows => lines[j] + g[j] + " ")
  }

  lemma RowsExtend(gs: seq<Glyph>, k: nat)
    requires k < |gs|
    ensures RowsOf(gs[..k + 1]) == Extend(RowsOf(gs[..k]), gs[k])
  {
    assert gs[..k + 1][..k] == gs[..k];
  }

  // ---------------------------------------------------------------------------------
  // Splitting text at newlines (Python's `str.split("\n")`), to read the rows back.

  function SplitLines(s: string): (ls: seq<string>)
    ensures |ls| >= 1
    decreases |s|
  {
    if s == [] then [""]
    else if s[0] == '\n' then [""] + SplitLines(s[1..])
    else
      var rest := SplitLines(s[1..]);
      [[s[0]] + rest[0]] + rest[1..]
  }

  function CountChar(s: string, c: char): nat
    decreases |s|
  {
    if s == [] then 0 else (if s[0] == c then 1 else 0) + CountChar(s[1..], c)
  }

  lemma {:induction false} CountAppend(a: string, b: string, c: char)
    ensures CountChar(a + b, c) == CountChar(a, c) + CountChar(b, c)
    decreases |a|
  {
    if a == [] {
      assert a + b == b;
    } else {
      assert (a + b)[0] == a[0];
      assert (a + b)[1..] == a[1..] + b;
      CountAppend(a[1..], b, c);
    }
  }

  lemma {:induction false} CountAbsent(s: string, c: char)
    requires c !in s
    ensures CountChar(s, c) == 0
    decreases |s|
  {
    if s != [] {
      CountAbsent(s[1..], c);
    }
  }

  lemma {:induction false} SplitLineThenRest(a: string, rest: string)
    requires '\n' !in a
    ensures SplitLines(a + "\n" + rest) == [a] + SplitLines(rest)
    decreases |a|
  {
    if a == [] {
      assert a + "\n" + rest == "\n" + rest;
    } else {
      assert a[0] in a;
      assert (a + "\n" + rest)[0] == a[0];
      assert (a + "\n" + rest)[1..] == a[1..] + "\n" + rest;
      assert forall x :: x in a[1..] ==> x in a;
      SplitLineThenRest(a[1..], rest);
      assert [a[0]] + a[1..] == a;
    }
  }

  lemma {:induction false} SplitSingleLine(a: string)
    requires '\n' !in a
    ensures SplitLines(a) == [a]
    decreases |a|
  {
    if a != [] {
      assert a[0] in a;
      assert forall x :: x in a[1..] ==> x in a;
      SplitSingleLine(a[1..]);
      assert [a[0]] + a[1..] == a;
    }
  }

  /** Joining lines that hold no newline with "\n" can be undone by splitting. */
  lemma {:induction false} SplitJoin(lines: seq<string>)
    requires |lines| >= 1
    requires forall k :: 0 <= k < |lines| ==> '\n' !in lines[k]
    ensures SplitLines(Join(lines)) == lines
    ensures CountChar(Join(lines), '\n') == |lines| - 1
    decreases |lines|
  {
    if |lines| == 1 {
      SplitSingleLine(lines[0]);
      CountAbsent(lines[0], '\n');
    } else {
      SplitJoin(lines[1..]);
      SplitLineThenRest(lines[0], Join(lines[1..]));
      assert [lines[0]] + lines[1..] == lines;
      CountAppend(lines[0] + "\n", Join(lines[1..]), '\n');
      CountAppend(lines[0], "\n", '\n');
      CountAbsent(lines[0], '\n');
    }
  }

  // ---------------------------------------------------------------------------------
  // Properties of the rendered picture.

  /** The sum, over the glyphs, of the width of their row `i` plus the separating space. */
  function RowWidth(gs: seq<Glyph>, i: nat): nat
    requires i < Rows
    decreases |gs|
  {
    if gs == [] then 0 else RowWidth(gs[..|gs| - 1], i) + |gs[|gs| - 1][i]| + 1
  }

  lemma {:induction false} RowShape(gs: seq<Glyph>, i: nat)
    requires i < Rows && NoNewlines(gs)
    ensures '\n' !in Row(gs, i)
    ensures |Row(gs, i)| == RowWidth(gs, i)
    ensures gs != [] ==> Row(gs, i)[|Row(gs, i)| - 1] == ' '
    decreases |gs|
  {
    if gs != [] {
      var init := gs[..|gs| - 1];
      RowShape(init, i);
      var p := gs[|gs| - 1][i];
      assert Row(gs, i) == Row(init, i) + p + " ";
      assert forall c :: c in Row(gs, i) ==> c in Row(init, i) || c in p || c == ' ';
    }
  }

  /** The picture always has exactly five rows (four newlines); row `i` is the
      concatenation of every upper-cased character's glyph row `i`, each followed by a
      space; its length is the sum of those widths; for non-empty input it ends in a
      space. */
  lemma RenderRows(s: string)
    ensures CountChar(Render(s), '\n') == Rows - 1
    ensures |SplitLines(Render(s))| == Rows
    ensures forall i :: 0 <= i < Rows ==>
      && SplitLines(Render(s))[i] == Row(GlyphsOf(Upper(s)), i)
      && |SplitLines(Render(s))[i]| == RowWidth(GlyphsOf(Upper(s)), i)
      && (s != [] ==> SplitLines(Render(s))[i][|SplitLines(Render(s))[i]| - 1] == ' ')
  {
    var gs := GlyphsOf(Upper(s));
    var ls := RowsOf(gs);
    assert SplitLines(Render(s)) == ls;
    assert s != [] ==> gs != [];
    forall i | 0 <= i < Rows
      ensures |ls[i]| == RowWidth(gs, i)
      ensures s != [] ==> ls[i][|ls[i]| - 1] == ' '
    {
      RowShape(gs, i);
    }
  }

  /** Every glyph row is seven columns wide except the colon's (one column) and row 3 of
      '2' (six columns). */
  lemma GlyphWidths(c: char, i: nat)
    requires i < Rows
    ensures c == ':' ==> |GlyphFor(c)[i]| == 1
    ensures c == '2' && i == 3 ==> |GlyphFor(c)[i]| == 6
    ensures c != ':' && !(c == '2' && i == 3) ==> |GlyphFor(c)[i]| == 7
  {
  }

  /** So a row is at most eight columns per character, and exactly eight per character
      when no colon is drawn and, for row 3, no '2'. */
  lemma {:induction false} UniformRowWidth(u: string, i: nat)
    requires i < Rows
    ensures RowWidth(GlyphsOf(u), i) <= 8 * |u|
    ensures RowWidth(GlyphsOf(u), i) == 8 * |u| <==> ':' !in u && (i == 3 ==> '2' !in u)
    decreases |u|
  {
    if u != [] {
      var init := u[..|u| - 1];
      var c := u[|u| - 1];
      UniformRowWidth(init, i);
      GlyphWidths(c, i);
      assert GlyphsOf(u)[..|u| - 1] == GlyphsOf(init);
      assert RowWidth(GlyphsOf(u), i) == RowWidth(GlyphsOf(init), i) + |GlyphFor(c)[i]| + 1;
      InInitOrLast(u, ':');
      InInitOrLast(u, '2');
    }
  }

  lemma InInitOrLast(u: string, x: char)
    requires u != []
    ensures (x in u) == (x in u[..|u| - 1] || x == u[|u| - 1])
  {
    assert u == u[..|u| - 1] + [u[|u| - 1]];
  }

  /** A character without a table entry draws as the blank glyph: seven spaces in every
      row, plus the separator. */
  lemma UnknownIsBlank(c: char)
    requires Lookup(UpperChar(c)).None?
    ensures GlyphFor(UpperChar(c)) == Blank5
    ensures var row := "        "; Render([c]) == row + "\n" + row + "\n" + row + "\n" + row + "\n" + row
  {
    var gs := GlyphsOf(Upper([c]));
    assert gs == [Blank5];
    assert gs[..0] == [];
    var row := Blank + " ";
    assert row == "        ";
    assert forall i :: 0 <= i < Rows ==> Row(gs, i) == row;
    JoinFive(RowsOf(gs));
  }

  lemma JoinFive(ls: seq<string>)
    requires |ls| == 5
    ensures Join(ls) == ls[0] + "\n" + ls[1] + "\n" + ls[2] + "\n" + ls[3] + "\n" + ls[4]
  {
    assert ls[1..][1..] == ls[2..];
    assert ls[2..][1..] == ls[3..];
    assert ls[3..][1..] == ls[4..];
    assert Join(ls[4..]) == ls[4];
    assert Join(ls[3..]) == ls[3] + "\n" + Join(ls[4..]);
    assert Join(ls[2..]) == ls[2] + "\n" + Join(ls[3..]);
    assert Join(ls[1..]) == ls[1] + "\n" + Join(ls[2..]);
  }

  /** Rendering ignores ASCII case: `s` and its upper-cased form draw the same picture, so
      "am"/"pm" draw as "AM"/"PM". */
  lemma RenderIgnoresCase(s: string)
    ensures Render(Upper(s)) == Render(s)
    ensures Render("a") == Render("A") && Render("p") == Render("P") && Render("m") == Render("M")
  {
    assert Upper(Upper(s)) == Upper(s);
    assert Upper("a") == "A" && Upper("A") == "A";
    assert Upper("p") == "P" && Upper("P") == "P";
    assert Upper("m") == "M" && Upper("M") == "M";
  }

  /** Empty input gives five empty rows. */
  lemma RenderEmpty()
    ensures Render("") == "\n\n\n\n"
  {
    assert GlyphsOf(Upper("")) == [];
    JoinFive(RowsOf([]));
  }
}
