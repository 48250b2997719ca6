/** The intro banner (src/tasks/render-intro-message.ts): the terminal size
    check and the centring of the title inside a view of at most 20 rows.
    The title text, the terminal size and the ANSI stripping regex are
    parameters. */
module IntroMessage {
  import opened Basics

  const MaxViewHeight := 20
  const MinRows := 16
  const MinCols := 80

  /** `checkTerminalSize` rejects the terminal exactly when it has fewer
      than 16 rows or fewer than 80 columns. */
  predicate TooSmall(rows: int, columns: int) {
    rows < MinRows || columns < MinCols
  }

  /** The error `checkTerminalSize` reports before exiting, if any. */
  function CheckTerminalSize(rows: int, columns: int): (r: Option<string>)
    ensures r.Some? <==> TooSmall(rows, columns)
    ensures r.Some? ==> IsPrefix("Terminal window too small. ", r.value)
    ensures r.Some? ==> EndsWith(r.value, IntToString(MinCols) + "x" + IntToString(MinRows))
  {
    if rows < MinRows || columns < MinCols then
      Some("Terminal window too small. Minimum size required: "
           + IntToString(MinCols) + "x" + IntToString(MinRows))
    else None
  }

  /** `.filter(line => line.length > 0)`: the non-empty lines, repeats
      included, in their original order (see `NonEmptyLinesAppend`). */
  function NonEmptyLines(lines: seq<string>): (r: seq<string>)
    ensures forall x :: x in r <==> x in lines && x != ""
    ensures |r| <= |lines|
    ensures |lines| == 1 ==> r == (if lines[0] != "" then lines else [])
  {
    if lines == [] then []
    else
      var n := |lines| - 1;
      assert lines == lines[..n] + [lines[n]];
      NonEmptyLines(lines[..n]) + (if lines[n] != "" then [lines[n]] else [])
  }

  /** The filter keeps order and repeats: filtering a concatenation
      concatenates the filtered parts. */
  lemma {:induction false} NonEmptyLinesAppend(a: seq<string>, b: seq<string>)
    ensures NonEmptyLines(a + b) == NonEmptyLines(a) + NonEmptyLines(b)
    decreases |b|
  {
    if b == [] {
      assert a + b == a;
    } else {
      var n := |b| - 1;
      assert (a + b)[..|a + b| - 1] == a + b[..n];
      assert (a + b)[|a + b| - 1] == b[n];
      NonEmptyLinesAppend(a, b[..n]);
    }
  }

  /** The widest visible line; 0 for no lines (where the source's
      `Math.max()` of nothing is never used). */
  function MaxWidth(lines: seq<string>, strip: string -> string): (w: nat)
    ensures forall i :: 0 <= i < |lines| ==> JsLength(strip(lines[i])) <= w
    ensures |lines| > 0 ==> exists i :: 0 <= i < |lines| && JsLength(strip(lines[i])) == w
  {
    if lines == [] then 0
    else
      var n := |lines| - 1;
      var w0 := MaxWidth(lines[..n], strip);
      var here := JsLength(strip(lines[n]));
      assert forall i :: 0 <= i < n ==> lines[..n][i] == lines[i];
      if here > w0 then here else w0
  }

  /** `Math.max(0, Math.floor(x / 2))`; Dafny's division by 2 already
      rounds toward minus infinity. */
  function HalfOrZero(x: int): (r: nat)
    ensures x <= 0 ==> r == 0
    ensures x > 0 ==> r + r == x || r + r + 1 == x
  {
    if x / 2 < 0 then 0 else x / 2
  }

  function Blanks(n: nat): (r: seq<string>)
    ensures |r| == n && forall i :: 0 <= i < n ==> r[i] == ""
  {
    seq(n, i => "")
  }

  function Indent(lines: seq<string>, h: nat): (r: seq<string>)
    ensures |r| == |lines| && forall i :: 0 <= i < |lines| ==> r[i] == Spaces(h) + lines[i]
  {
    seq(|lines|, i requires 0 <= i < |lines| => Spaces(h) + lines[i])
  }

  /** The title's non-empty lines. */
  function TitleLines(title: string): (r: seq<string>)
    ensures forall x :: x in r ==> x != "" && '\n' !in x
  {
    NonEmptyLines(Split(title, '\n'))
  }

  /** Left padding that centres the widest line in `columns`. */
  function HPad(lines: seq<string>, columns: int, strip: string -> string): nat {
    HalfOrZero(columns - MaxWidth(lines, strip))
  }

  /** Blank lines above and below that centre `lines` in the view. */
  function VPad(lines: seq<string>): nat {
    HalfOrZero(MaxViewHeight - |lines|)
  }

  /** The lines of the banner before they are joined. */
  function BannerLines(title: string, columns: int, strip: string -> string): seq<string> {
    var lines := TitleLines(title);
    Blanks(VPad(lines)) + Indent(lines, HPad(lines, columns, strip)) + Blanks(VPad(lines))
  }

  /** `getTrimmedTitleText` */
  function TrimmedTitle(title: string, columns: int, strip: string -> string): string {
    Join(BannerLines(title, columns, strip), "\n")
  }

  /** Indenting a line adds no line break. */
  lemma IndentUnbroken(h: nat, line: string)
    requires '\n' !in line
    ensures '\n' !in Spaces(h) + line
  {
    var s := Spaces(h) + line;
    forall i | 0 <= i < |s|
      ensures s[i] != '\n'
    {
      if i < h {
        assert s[i] == Spaces(h)[i];
      } else {
        assert s[i] == line[i - h];
      }
    }
  }

  /** No banner line holds a line break, since each comes from splitting
      the title at its line breaks or is blank. */
  lemma BannerLinesUnbroken(title: string, columns: int, strip: string -> string)
    ensures var all := BannerLines(title, columns, strip);
      |all| >= 1 && forall k :: 0 <= k < |all| ==> '\n' !in all[k]
  {
    var lines := TitleLines(title);
    var h := HPad(lines, columns, strip);
    var v := VPad(lines);
    var all := BannerLines(title, columns, strip);
    PaddedShape(lines, h, v);
    assert PaddedAs(all, lines, h, v);
    forall k | 0 <= k < |all|
      ensures '\n' !in all[k]
    {
      if v <= k < v + |lines| {
        var i := k - v;
        assert all[v + i] == Spaces(h) + lines[i];
        assert lines[i] in lines;
        IndentUnbroken(h, lines[i]);
      } else {
        assert all[k] == "";
      }
    }
    if |lines| == 0 {
      assert v == 10;
    }
  }

  /** Splitting the banner at its line breaks gives back its lines. */
  lemma BannerSplits(title: string, columns: int, strip: string -> string)
    ensures Split(TrimmedTitle(title, columns, strip), '\n') == BannerLines(title, columns, strip)
  {
    BannerLinesUnbroken(title, columns, strip);
    SplitJoin(BannerLines(title, columns, strip), '\n');
  }

  /** `out` is `v` blank lines, then `lines` each indented by `h` spaces,
      then `v` blank lines. */
  predicate PaddedAs(out: seq<string>, lines: seq<string>, h: nat, v: nat) {
    && |out| == |lines| + 2 * v
    && (forall i :: 0 <= i < v ==> out[i] == "")
    && (forall i :: v + |lines| <= i < |out| ==> out[i] == "")
    && (forall i :: 0 <= i < |lines| ==> out[v + i] == Spaces(h) + lines[i])
  }

  lemma PaddedShape(lines: seq<string>, h: nat, v: nat)
    ensures PaddedAs(Blanks(v) + Indent(lines, h) + Blanks(v), lines, h, v)
  {
    var out := Blanks(v) + Indent(lines, h) + Blanks(v);
    forall i | 0 <= i < |lines|
      ensures out[v + i] == Spaces(h) + lines[i]
    {
      assert out[v + i] == Indent(lines, h)[i];
    }
    forall i | v + |lines| <= i < |out|
      ensures out[i] == ""
    {
      assert out[i] == Blanks(v)[i - v - |lines|];
    }
  }

  /** The banner's lines: `v` blank lines, each non-empty title line
      indented by `h` spaces, `v` blank lines again. */
  lemma BannerShape(title: string, columns: int, strip: string -> string)
    ensures var lines := TitleLines(title);
      PaddedAs(BannerLines(title, columns, strip), lines, HPad(lines, columns, strip), VPad(lines))
  {
    var lines := TitleLines(title);
    PaddedShape(lines, HPad(lines, columns, strip), VPad(lines));
  }

  /** Half the free space goes left, the rest right. */
  lemma SplitFree(x: int)
    requires x >= 0
    ensures x - HalfOrZero(x) == HalfOrZero(x) || x - HalfOrZero(x) == HalfOrZero(x) + 1
    ensures HalfOrZero(x) <= x
  {
  }

  /** The title is centred: when it fits, the space left of the widest line
      equals the space right of it, or is one less, and every line fits. */
  lemma Centred(lines: seq<string>, columns: int, strip: string -> string)
    requires MaxWidth(lines, strip) <= columns
    ensures var right := columns - MaxWidth(lines, strip) - HPad(lines, columns, strip);
      right == HPad(lines, columns, strip) || right == HPad(lines, columns, strip) + 1
    ensures forall i :: 0 <= i < |lines| ==> HPad(lines, columns, strip) + JsLength(strip(lines[i])) <= columns
  {
    var w := MaxWidth(lines, strip);
    var h := HPad(lines, columns, strip);
    SplitFree(columns - w);
    forall i | 0 <= i < |lines|
      ensures h + JsLength(strip(lines[i])) <= columns
    {
      assert JsLength(strip(lines[i])) <= w;
    }
  }

  /** The banner fills the 20-row view: up to 20 lines take 20 or 19 rows
      with the padding; more lines get none. */
  lemma VerticalFill(n: nat)
    ensures n <= MaxViewHeight ==> n + 2 * HalfOrZero(MaxViewHeight - n) == MaxViewHeight ||
                                   n + 2 * HalfOrZero(MaxViewHeight - n) == MaxViewHeight - 1
    ensures n >= MaxViewHeight ==> HalfOrZero(MaxViewHeight - n) == 0
  {
  }
}
