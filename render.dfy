/**
 * The text layout of a room (display): a bordered block of glyphs with an
 * optional "[name]" centred in the bottom border.
 */
module Layout {
  import opened Wrappers
  import opened Glyphs
  import opened Walk

  /** c * n in Python: n copies of c, none when n <= 0. */
  function Repeat(c: char, n: int): (s: string)
    ensures |s| == Max(n, 0)
    ensures forall i :: 0 <= i < |s| ==> s[i] == c
  {
    if n <= 0 then "" else Repeat(c, n - 1) + [c]
  }

  /** The left padding of CPython's str.center: half the margin, one more when margin and width are both odd. */
  function CenterLeft(len: int, width: int): int {
    var marg := width - len;
    marg / 2 + (if marg % 2 == 1 && width % 2 == 1 then 1 else 0)
  }

  /** str.center(width, fill): s unchanged when it is at least width long. */
  function Center(s: string, width: int, fill: char): (r: string)
    ensures |s| >= width ==> r == s
    ensures |s| < width ==> |r| == width
    ensures |s| < width ==>
      var (left, right) := (CenterLeft(|s|, width), width - |s| - CenterLeft(|s|, width));
      && 0 <= left && 0 <= right
      && ((width - |s|) % 2 == 0 ==> left == right)
      && ((width - |s|) % 2 == 1 && width % 2 == 1 ==> left == right + 1)
      && ((width - |s|) % 2 == 1 && width % 2 == 0 ==> right == left + 1)
      && r == Repeat(fill, left) + s + Repeat(fill, right)
  {
    if |s| >= width then s
    else
      var left := CenterLeft(|s|, width);
      Repeat(fill, left) + s + Repeat(fill, width - |s| - left)
  }

  /** '+' + '-' * w + '+' */
  function TopBorder(w: int): (s: string)
    ensures |s| == Max(w, 0) + 2 && s[0] == '+' && s[|s| - 1] == '+'
    ensures forall i :: 1 <= i < |s| - 1 ==> s[i] == '-'
  {
    "+" + Repeat('-', w) + "+"
  }

  /** The name is shown unless hashalg is None or the empty string. */
  predicate HasLabel(hashalg: Option<string>) {
    hashalg.Some? && hashalg.value != ""
  }

  function Bracketed(name: string): string {
    "[" + name + "]"
  }

  /** The bottom border: the top border without a name, else "+", the centred "[name]", "+". */
  function BottomBorder(w: int, hashalg: Option<string>): (s: string)
    ensures !HasLabel(hashalg) ==> s == TopBorder(w)
    ensures HasLabel(hashalg) ==> |s| == Max(w, |hashalg.value| + 2) + 2 && s[0] == '+' && s[|s| - 1] == '+'
  {
    if HasLabel(hashalg) then "+" + Center(Bracketed(hashalg.value), w, '-') + "+"
    else TopBorder(w)
  }

  /** The glyphs of row y over the columns 0..n-1. */
  function RowGlyphs(room: Room, y: int, n: int): (s: string)
    ensures |s| == Max(n, 0)
  {
    if n <= 0 then "" else RowGlyphs(room, y, n - 1) + [CoinSym(Count(room, (n - 1, y)))]
  }

  /** Body row y of a room w columns wide: '|', the glyphs, '|'. */
  function Row(room: Room, w: int, y: int): (s: string)
    ensures |s| == Max(w, 0) + 2 && s[0] == '|' && s[|s| - 1] == '|'
  {
    "|" + RowGlyphs(room, y, w) + "|"
  }

  /** The body rows 0..n-1. */
  function Rows(room: Room, w: int, n: int): (rs: seq<string>)
    ensures |rs| == Max(n, 0)
  {
    if n <= 0 then [] else Rows(room, w, n - 1) + [Row(room, w, n - 1)]
  }

  /** The lines of the block, top border first. */
  function Lines(size: (int, int), room: Room, hashalg: Option<string>): (ls: seq<string>)
    ensures |ls| == Max(size.1, 0) + 2
    ensures ls[0] == TopBorder(size.0) && ls[|ls| - 1] == BottomBorder(size.0, hashalg)
  {
    [TopBorder(size.0)] + Rows(room, size.0, size.1) + [BottomBorder(size.0, hashalg)]
  }

  /** Each line followed by a newline. */
  function Terminated(ls: seq<string>): string {
    if ls == [] then "" else Terminated(ls[..|ls| - 1]) + ls[|ls| - 1] + "\n"
  }

  /** '\n'.join(ls): no trailing newline. */
  function JoinLines(ls: seq<string>): (s: string)
    requires ls != []
    ensures |ls| == 1 ==> s == ls[0]
    ensures |s| >= |ls[|ls| - 1]| && s[|s| - |ls[|ls| - 1]|..] == ls[|ls| - 1]
  {
    Terminated(ls[..|ls| - 1]) + ls[|ls| - 1]
  }

  /** The whole text block display returns. */
  function Render(size: (int, int), room: Room, hashalg: Option<string>): (s: string)
    ensures var bottom := BottomBorder(size.0, hashalg); |s| >= |bottom| && s[|s| - |bottom|..] == bottom
  {
    JoinLines(Lines(size, room, hashalg))
  }

  /** str.split('\n'), the inverse of JoinLines on lines without newlines. */
  function SplitLines(s: string): seq<string> {
    SplitFrom(s, "")
  }

  /** Splitting the rest of a string, with cur the part of the current line read so far. */
  function SplitFrom(s: string, cur: string): (ls: seq<string>)
    ensures ls != []
    decreases |s|
  {
    if s == [] then [cur]
    else if s[0] == '\n' then [cur] + SplitFrom(s[1..], "")
    else SplitFrom(s[1..], cur + [s[0]])
  }

  /** Cell c is drawn as ch: line c.1 + 1 of the block has a character c.0 + 1, and it is ch. */
  predicate ShowsAt(lines: seq<string>, c: Cell, ch: char) {
    0 <= c.1 + 1 < |lines| && 0 <= c.0 + 1 < |lines[c.1 + 1]| && lines[c.1 + 1][c.0 + 1] == ch
  }

  predicate NoNewline(s: string) {
    forall i :: 0 <= i < |s| ==> s[i] != '\n'
  }

  // ------------------------------------------------------------------- lemmas

  /** Column x of a row's glyphs is the glyph of the count of cell (x, y). */
  lemma {:induction false} RowGlyphsAt(room: Room, y: int, n: int, x: int)
    requires 0 <= x < n
    ensures RowGlyphs(room, y, n)[x] == CoinSym(Count(room, (x, y)))
    decreases n
  {
    if x < n - 1 {
      RowGlyphsAt(room, y, n - 1, x);
    }
  }

  /** Body row y is the row of cells (x, y). */
  lemma {:induction false} RowsAt(room: Room, w: int, n: int, y: int)
    requires 0 <= y < n
    ensures Rows(room, w, n)[y] == Row(room, w, y)
    decreases n
  {
    if y < n - 1 {
      RowsAt(room, w, n - 1, y);
    }
  }

  lemma {:induction false} SplitFromLine(l: string, rest: string, cur: string)
    requires NoNewline(l)
    ensures SplitFrom(l + rest, cur) == SplitFrom(rest, cur + l)
    decreases |l|
  {
    if l == [] {
      assert l + rest == rest && cur + l == cur;
    } else {
      assert (l + rest)[0] == l[0] && (l + rest)[1..] == l[1..] + rest;
      SplitFromLine(l[1..], rest, cur + [l[0]]);
      assert cur + [l[0]] + l[1..] == cur + l;
    }
  }

  lemma {:induction false} TerminatedCons(l: string, ls: seq<string>)
    ensures Terminated([l] + ls) == l + "\n" + Terminated(ls)
    decreases |ls|
  {
    if ls != [] {
      var init := ls[..|ls| - 1];
      TerminatedCons(l, init);
      assert ([l] + ls)[..|ls|] == [l] + init;
    } else {
      assert [l] + ls == [l];
      assert Terminated([l]) == Terminated([]) + l + "\n";
    }
  }

  /** Splitting the joined lines gives the lines back. */
  lemma {:induction false} SplitJoin(ls: seq<string>)
    requires ls != []
    requires forall i :: 0 <= i < |ls| ==> NoNewline(ls[i])
    ensures SplitLines(JoinLines(ls)) == ls
    decreases |ls|
  {
    var l := ls[0];
    if |ls| == 1 {
      assert JoinLines(ls) == l;
      SplitFromLine(l, "", "");
      assert l + "" == l;
    } else {
      var rest := ls[1..];
      TerminatedCons(l, rest[..|rest| - 1]);
      assert ls == [l] + rest;
      assert ls[..|ls| - 1] == [l] + rest[..|rest| - 1];
      assert JoinLines(ls) == l + ("\n" + JoinLines(rest));
      var x := "\n" + JoinLines(rest);
      SplitFromLine(l, x, "");
      assert "" + l == l;
      assert x[0] == '\n' && x[1..] == JoinLines(rest);
      assert SplitFrom(x, l) == [l] + SplitFrom(JoinLines(rest), "");
      SplitJoin(rest);
    }
  }

  /** A glyph is never a newline. */
  lemma GlyphNotNewline(coins: int)
    ensures CoinSym(coins) != '\n'
  {
  }

  /** The block has h + 2 lines: the top border, the body rows in order of y, the bottom border. */
  lemma LinesShape(size: (int, int), room: Room, hashalg: Option<string>)
    requires size.1 >= 0
    ensures |Lines(size, room, hashalg)| == size.1 + 2
    ensures Lines(size, room, hashalg)[0] == TopBorder(size.0)
    ensures Lines(size, room, hashalg)[size.1 + 1] == BottomBorder(size.0, hashalg)
    ensures forall y :: 0 <= y < size.1 ==> Lines(size, room, hashalg)[y + 1] == Row(room, size.0, y)
  {
    forall y | 0 <= y < size.1 ensures Lines(size, room, hashalg)[y + 1] == Row(room, size.0, y) {
      RowsAt(room, size.0, size.1, y);
    }
  }

  /** A body row is w + 2 characters: '|', the glyph of each cell (x, y), '|'. */
  lemma RowShape(room: Room, w: int, y: int)
    requires w >= 0
    ensures |Row(room, w, y)| == w + 2
    ensures Row(room, w, y)[0] == '|' && Row(room, w, y)[w + 1] == '|'
    ensures forall x :: 0 <= x < w ==> Row(room, w, y)[x + 1] == CoinSym(Count(room, (x, y)))
  {
    forall x | 0 <= x < w ensures Row(room, w, y)[x + 1] == CoinSym(Count(room, (x, y))) {
      RowGlyphsAt(room, y, w, x);
    }
  }

  lemma RowNoNewline(room: Room, w: int, y: int)
    ensures NoNewline(Row(room, w, y))
  {
    var g := RowGlyphs(room, y, w);
    forall x | 0 <= x < |g| ensures g[x] != '\n' {
      RowGlyphsAt(room, y, w, x);
      GlyphNotNewline(Count(room, (x, y)));
    }
    assert Row(room, w, y) == "|" + g + "|";
  }

  /** The top border is '+', w dashes, '+'; so is the bottom border without a name. */
  lemma TopShape(w: int, hashalg: Option<string>)
    requires w >= 0
    ensures |TopBorder(w)| == w + 2
    ensures TopBorder(w)[0] == '+' && TopBorder(w)[w + 1] == '+'
    ensures forall i :: 1 <= i <= w ==> TopBorder(w)[i] == '-'
    ensures !HasLabel(hashalg) ==> BottomBorder(w, hashalg) == TopBorder(w)
  {
  }

  /**
   * The bottom border with a name: the bracketed name centred among dashes,
   * w + 2 characters when it fits; when it does not fit it is left unpadded
   * and the line is longer than the others.
   */
  lemma BottomShape(w: int, name: string)
    requires name != ""
    ensures var (b, t, left) := (BottomBorder(w, Some(name)), Bracketed(name), CenterLeft(|Bracketed(name)|, w));
      && (|t| <= w ==>
            && |b| == w + 2 && b[0] == '+' && b[w + 1] == '+'
            && 0 <= left <= w - |t| && b[1 + left..1 + left + |t|] == t)
      && (|t| >= w ==> b == "+" + t + "+")
  {
    var b, t := BottomBorder(w, Some(name)), Bracketed(name);
    if |t| < w {
      var left := CenterLeft(|t|, w);
      var pad, rpad := Repeat('-', left), Repeat('-', w - |t| - left);
      assert b == "+" + (pad + t + rpad) + "+";
      assert b == ("+" + pad) + t + (rpad + "+");
      SliceMiddle("+" + pad, t, rpad + "+");
    } else if |t| == w {
      assert b == "+" + t + "+";
      SliceMiddle("+", t, "+");
    }
  }

  /** The middle of a three-part concatenation. */
  lemma SliceMiddle(a: string, t: string, z: string)
    ensures (a + t + z)[|a|..|a| + |t|] == t
  {
    assert (a + t + z)[|a|..|a| + |t|] == (a + t)[|a|..];
  }

  lemma NoNewlineConcat(a: string, b: string)
    requires NoNewline(a) && NoNewline(b)
    ensures NoNewline(a + b)
  {
    forall i | 0 <= i < |a + b| ensures (a + b)[i] != '\n' {
      if i >= |a| {
        assert (a + b)[i] == b[i - |a|];
      }
    }
  }

  lemma BordersNoNewline(w: int, hashalg: Option<string>)
    requires hashalg.Some? ==> NoNewline(hashalg.value)
    ensures NoNewline(TopBorder(w)) && NoNewline(BottomBorder(w, hashalg))
  {
    NoNewlineConcat("+", Repeat('-', w));
    NoNewlineConcat("+" + Repeat('-', w), "+");
    if HasLabel(hashalg) {
      var t := Bracketed(hashalg.value);
      NoNewlineConcat("[", hashalg.value);
      NoNewlineConcat("[" + hashalg.value, "]");
      var c := Center(t, w, '-');
      if |t| < w {
        var left := CenterLeft(|t|, w);
        var pad, rpad := Repeat('-', left), Repeat('-', w - |t| - left);
        NoNewlineConcat(pad, t);
        NoNewlineConcat(pad + t, rpad);
      }
      NoNewlineConcat("+", c);
      NoNewlineConcat("+" + c, "+");
    }
  }

  /** Every line is free of newlines when the name is. */
  lemma LinesNoNewline(size: (int, int), room: Room, hashalg: Option<string>)
    requires hashalg.Some? ==> NoNewline(hashalg.value)
    ensures forall i :: 0 <= i < |Lines(size, room, hashalg)| ==> NoNewline(Lines(size, room, hashalg)[i])
  {
    var ls := Lines(size, room, hashalg);
    BordersNoNewline(size.0, hashalg);
    forall i | 0 < i < |ls| - 1 ensures NoNewline(ls[i]) {
      RowsAt(room, size.0, size.1, i - 1);
      RowNoNewline(room, size.0, i - 1);
    }
  }

  /**
   * The layout of display: splitting the text at newlines gives exactly the
   * h + 2 lines, so the block has no trailing newline.
   */
  lemma RenderLayout(size: (int, int), room: Room, hashalg: Option<string>)
    requires size.1 >= 0
    requires hashalg.Some? ==> NoNewline(hashalg.value)
    ensures SplitLines(Render(size, room, hashalg)) == Lines(size, room, hashalg)
    ensures |SplitLines(Render(size, room, hashalg))| == size.1 + 2
  {
    LinesNoNewline(size, room, hashalg);
    SplitJoin(Lines(size, room, hashalg));
    LinesShape(size, room, hashalg);
  }

  /**
   * Cell (x, y) of the room is character x + 1 of line y + 1 of the display,
   * and every body line is w + 2 characters.
   */
  lemma RenderCell(size: (int, int), room: Room, hashalg: Option<string>, c: Cell)
    requires size.0 >= 0 && InRoom(size, c)
    requires hashalg.Some? ==> NoNewline(hashalg.value)
    ensures var lines := SplitLines(Render(size, room, hashalg));
      && |lines| == size.1 + 2
      && |lines[c.1 + 1]| == size.0 + 2
      && lines[c.1 + 1][c.0 + 1] == CoinSym(Count(room, c))
  {
    RenderLayout(size, room, hashalg);
    LinesShape(size, room, hashalg);
    RowShape(room, size.0, c.1);
  }

  /** Without a name the 17-column room has the border +-----------------+ at top and bottom. */
  lemma DefaultBorders()
    ensures TopBorder(17) == "+-----------------+"
    ensures BottomBorder(17, None) == TopBorder(17) && BottomBorder(17, Some("")) == TopBorder(17)
  {
  }
}
