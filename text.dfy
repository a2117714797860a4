/** Text rasterisation (`display` in docs/MAX7219.cpp): glyphs are packed
    left to right from column 0, each followed by one blank spacer column.
    `Strip` is the line of columns the text occupies, `Frame` the
    framebuffer the driver builds from it column by column, and
    `FrameShowsStrip` relates the two bit by bit. */
module Text {
  import opened Glyphs
  import opened Framebuffer

  /** The glyph of every character of `str` can be located in `table`. */
  ghost predicate Lookable(table: seq<bv8>, offset: nat, str: seq<bv8>)
  {
    forall i | 0 <= i < |str| :: Locatable(table, EntryIndex(str[i], offset))
  }

  /** The columns of the glyph for character `c`. */
  function GlyphOf(table: seq<bv8>, offset: nat, c: bv8): seq<bv8>
    requires Locatable(table, EntryIndex(c, offset))
  {
    Glyph(table, EntryIndex(c, offset))
  }

  lemma LookablePrefix(table: seq<bv8>, offset: nat, str: seq<bv8>, n: nat)
    requires Lookable(table, offset, str) && n <= |str|
    ensures Lookable(table, offset, str[..n])
  {
    forall i | 0 <= i < n ensures Locatable(table, EntryIndex(str[..n][i], offset)) {
      assert str[..n][i] == str[i];
    }
  }

  /** The columns of the rendered text, spacers as blank columns. */
  function Strip(table: seq<bv8>, offset: nat, str: seq<bv8>): (s: seq<bv8>)
    requires Lookable(table, offset, str)
    decreases |str|
  {
    if str == [] then []
    else
      var n := |str| - 1;
      LookablePrefix(table, offset, str, n);
      Strip(table, offset, str[..n]) + GlyphOf(table, offset, str[n]) + [0]
  }

  /** Every glyph column lands inside the 32 columns of the framebuffer. */
  ghost predicate Fits(table: seq<bv8>, offset: nat, str: seq<bv8>)
    requires Lookable(table, offset, str)
    decreases |str|
  {
    if str == [] then true
    else
      var n := |str| - 1;
      LookablePrefix(table, offset, str, n);
      var g := GlyphOf(table, offset, str[n]);
      Fits(table, offset, str[..n]) &&
      (g == [] || |Strip(table, offset, str[..n])| + |g| <= Columns)
  }

  lemma {:induction false} FitsPrefix(table: seq<bv8>, offset: nat, str: seq<bv8>, n: nat)
    requires Lookable(table, offset, str) && Fits(table, offset, str) && n <= |str|
    ensures Lookable(table, offset, str[..n]) && Fits(table, offset, str[..n])
    decreases |str| - n
  {
    LookablePrefix(table, offset, str, n);
    if n == |str| {
      assert str[..n] == str;
    } else {
      LookablePrefix(table, offset, str, |str| - 1);
      var init := str[..|str| - 1];
      FitsPrefix(table, offset, init, n);
      assert init[..n] == str[..n];
    }
  }

  /** `rows` with the first `k` columns of `g` drawn from column `pos` on. */
  function Paint(rows: seq<bv32>, pos: nat, g: seq<bv8>, k: nat): (r: seq<bv32>)
    requires |rows| == Rows && k <= |g| && (k == 0 || pos + k <= Columns)
    ensures |r| == Rows
  {
    if k == 0 then rows
    else PutColumn(Paint(rows, pos, g, k - 1), pos + k - 1, g[k - 1])
  }

  /** The framebuffer after `display(str)`: cleared, then every glyph drawn
      at the cursor. */
  function Frame(table: seq<bv8>, offset: nat, str: seq<bv8>): (r: seq<bv32>)
    requires Lookable(table, offset, str) && Fits(table, offset, str)
    ensures |r| == Rows
    decreases |str|
  {
    if str == [] then Blank()
    else
      var n := |str| - 1;
      LookablePrefix(table, offset, str, n);
      var g := GlyphOf(table, offset, str[n]);
      Paint(Frame(table, offset, str[..n]), |Strip(table, offset, str[..n])|, g, |g|)
  }

  /** One character of `display`: the prefix through `str[i]` still fits,
      its glyph is drawn at the cursor, and the cursor moves past the glyph
      and one spacer. */
  lemma RenderStep(table: seq<bv8>, offset: nat, str: seq<bv8>, i: nat)
    requires Lookable(table, offset, str) && Fits(table, offset, str) && i < |str|
    ensures Locatable(table, EntryIndex(str[i], offset))
    ensures Lookable(table, offset, str[..i]) && Fits(table, offset, str[..i])
    ensures Lookable(table, offset, str[..i + 1]) && Fits(table, offset, str[..i + 1])
    ensures var g := GlyphOf(table, offset, str[i]);
            var pos := |Strip(table, offset, str[..i])|;
            (g == [] || pos + |g| <= Columns) &&
            |Strip(table, offset, str[..i + 1])| == pos + |g| + 1 &&
            Frame(table, offset, str[..i + 1]) == Paint(Frame(table, offset, str[..i]), pos, g, |g|)
  {
    FitsPrefix(table, offset, str, i);
    FitsPrefix(table, offset, str, i + 1);
    assert str[..i + 1][..i] == str[..i];
  }

  lemma BlankColumn(j: nat)
    requires j < Rows
    ensures !Dot(0, j)
  {
  }

  /** Painting the first `k` columns of `g` at `pos` sets exactly the
      columns `pos .. pos + k - 1`, each to its glyph column, and leaves
      every other bit as it was. */
  lemma PaintBits(rows: seq<bv32>, pos: nat, g: seq<bv8>, k: nat)
    requires |rows| == Rows && k <= |g| && (k == 0 || pos + k <= Columns)
    ensures forall j, p | 0 <= j < Rows && 0 <= p < Columns ::
      Pixel(Paint(rows, pos, g, k), j, p) ==
        if pos <= p < pos + k then Dot(g[p - pos], j) else Pixel(rows, j, p)
  {
    forall j, p | 0 <= j < Rows && 0 <= p < Columns {
      PaintPixel(rows, pos, g, k, j, p);
    }
  }

  /** One pixel of `PaintBits`. */
  lemma {:induction false} PaintPixel(rows: seq<bv32>, pos: nat, g: seq<bv8>, k: nat, j: nat, p: nat)
    requires |rows| == Rows && k <= |g| && (k == 0 || pos + k <= Columns)
    requires j < Rows && p < Columns
    ensures Pixel(Paint(rows, pos, g, k), j, p) ==
      if pos <= p < pos + k then Dot(g[p - pos], j) else Pixel(rows, j, p)
  {
    if k > 0 {
      var prev := Paint(rows, pos, g, k - 1);
      assert Paint(rows, pos, g, k) == PutColumn(prev, pos + k - 1, g[k - 1]);
      PaintPixel(rows, pos, g, k - 1, j, p);
      PutColumnPixel(prev, pos + k - 1, g[k - 1], j, p);
    }
  }

  /** The framebuffer shows the strip: column `p` of row `j` is lit exactly
      when the strip has a column `p` whose bit `7 - j` is set.  In
      particular spacer columns and the columns after the text are dark. */
  lemma FrameShowsStrip(table: seq<bv8>, offset: nat, str: seq<bv8>)
    requires Lookable(table, offset, str) && Fits(table, offset, str)
    ensures forall j, p | 0 <= j < Rows && 0 <= p < Columns ::
      Pixel(Frame(table, offset, str), j, p) ==
        (p < |Strip(table, offset, str)| && Dot(Strip(table, offset, str)[p], j))
  {
    forall j, p | 0 <= j < Rows && 0 <= p < Columns {
      FramePixel(table, offset, str, j, p);
    }
  }

  /** One pixel of `FrameShowsStrip`. */
  lemma {:induction false} FramePixel(table: seq<bv8>, offset: nat, str: seq<bv8>, j: nat, p: nat)
    requires Lookable(table, offset, str) && Fits(table, offset, str)
    requires j < Rows && p < Columns
    ensures Pixel(Frame(table, offset, str), j, p) ==
      (p < |Strip(table, offset, str)| && Dot(Strip(table, offset, str)[p], j))
    decreases |str|
  {
    if str != [] {
      var init := str[..|str| - 1];
      FrameUnfold(table, offset, str);
      var before := Strip(table, offset, init);
      var g := GlyphOf(table, offset, str[|str| - 1]);
      var s := Strip(table, offset, str);
      FramePixel(table, offset, init, j, p);
      PaintPixel(Frame(table, offset, init), |before|, g, |g|, j, p);
      if p < |before| {
        assert s[p] == before[p];
      } else if p < |before| + |g| {
        assert s[p] == g[p - |before|];
      } else if p == |before| + |g| {
        assert s[p] == 0;
        BlankColumn(j);
      }
    }
  }

  /** The last character of `str` adds its glyph and a spacer to the strip
      of the characters before it, and is painted right after them. */
  lemma FrameUnfold(table: seq<bv8>, offset: nat, str: seq<bv8>)
    requires Lookable(table, offset, str) && Fits(table, offset, str) && str != []
    ensures var init := str[..|str| - 1];
            Lookable(table, offset, init) && Fits(table, offset, init) &&
            var g := GlyphOf(table, offset, str[|str| - 1]);
            var before := Strip(table, offset, init);
            (g == [] || |before| + |g| <= Columns) &&
            Strip(table, offset, str) == before + g + [0] &&
            Frame(table, offset, str) == Paint(Frame(table, offset, init), |before|, g, |g|)
  {
    LookablePrefix(table, offset, str, |str| - 1);
  }

  /** Where each character lands: the glyph of `str[k]` starts at the
      column the cursor reached after the characters before it, occupies
      `|glyph|` columns, and is followed by one blank spacer column, so the
      cursor grows by exactly `|glyph| + 1` per character. */
  lemma {:induction false} StripLayout(table: seq<bv8>, offset: nat, str: seq<bv8>, k: nat)
    requires Lookable(table, offset, str) && k < |str|
    ensures Lookable(table, offset, str[..k]) && Lookable(table, offset, str[..k + 1])
    ensures var pos := |Strip(table, offset, str[..k])|;
            var g := GlyphOf(table, offset, str[k]);
            |Strip(table, offset, str[..k + 1])| == pos + |g| + 1 &&
            pos + |g| < |Strip(table, offset, str)| &&
            Strip(table, offset, str)[pos .. pos + |g|] == g &&
            Strip(table, offset, str)[pos + |g|] == 0
  {
    LookablePrefix(table, offset, str, k);
    LookablePrefix(table, offset, str, k + 1);
    var pre := str[..k + 1];
    assert pre[..k] == str[..k];
    var before := Strip(table, offset, str[..k]);
    var g := GlyphOf(table, offset, str[k]);
    assert Strip(table, offset, pre) == before + g + [0];
    StripPrefix(table, offset, str, k + 1);
    PrefixSlice(before, g, Strip(table, offset, str));
  }

  lemma PrefixSlice(a: seq<bv8>, g: seq<bv8>, s: seq<bv8>)
    requires a + g + [0] <= s
    ensures |a| + |g| < |s| && s[|a| .. |a| + |g|] == g && s[|a| + |g|] == 0
  {
    assert (a + g + [0])[|a| .. |a| + |g|] == g;
  }

  /** The strip of a prefix of the text is a prefix of the strip. */
  lemma {:induction false} StripPrefix(table: seq<bv8>, offset: nat, str: seq<bv8>, n: nat)
    requires Lookable(table, offset, str) && n <= |str|
    ensures Lookable(table, offset, str[..n])
    ensures Strip(table, offset, str[..n]) <= Strip(table, offset, str)
    decreases |str| - n
  {
    LookablePrefix(table, offset, str, n);
    if n < |str| {
      StripPrefix(table, offset, str, n + 1);
      LookablePrefix(table, offset, str, n + 1);
      var pre := str[..n + 1];
      assert pre[..n] == str[..n];
      assert Strip(table, offset, pre) ==
        Strip(table, offset, str[..n]) + GlyphOf(table, offset, str[n]) + [0];
    } else {
      assert str[..n] == str;
    }
  }

  /** Two characters: the second glyph starts one spacer column after the
      last column of the first (two one-column glyphs sit 2 columns apart). */
  lemma TwoCharacters(table: seq<bv8>, offset: nat, a: bv8, b: bv8)
    requires Locatable(table, EntryIndex(a, offset)) && Locatable(table, EntryIndex(b, offset))
    ensures Lookable(table, offset, [a, b]) &&
      Strip(table, offset, [a, b]) ==
        GlyphOf(table, offset, a) + [0] + GlyphOf(table, offset, b) + [0]
  {
    OneCharacter(table, offset, a);
    var str := [a, b];
    assert str[..1] == [a];
  }

  /** One character: its glyph followed by a spacer. */
  lemma OneCharacter(table: seq<bv8>, offset: nat, a: bv8)
    requires Locatable(table, EntryIndex(a, offset))
    ensures Lookable(table, offset, [a]) &&
      Strip(table, offset, [a]) == GlyphOf(table, offset, a) + [0]
  {
    assert [a][..0] == [];
  }
}
