/** `impl fmt::Display for Universe` and `render`: the buffer as text, one line per row. */
module Render {
  import opened Cells
  import opened Torus

  /** The glyph of a cell: U+25FB WHITE MEDIUM SQUARE for Dead, U+25FC BLACK MEDIUM SQUARE for Alive. */
  function Glyph(c: Cell): (g: char)
    ensures g != '\n'
    ensures g == '\U{25FC}' <==> c == Alive
  {
    match c
    case Dead => '\U{25FB}'
    case Alive => '\U{25FC}'
  }

  /** The glyphs of a run of cells, in order. */
  function Glyphs(cells: seq<Cell>): (s: string)
    ensures |s| == |cells|
  {
    if |cells| == 0 then "" else [Glyph(cells[0])] + Glyphs(cells[1..])
  }

  function Min(a: nat, b: nat): nat
  {
    if a <= b then a else b
  }

  /** Reads rendered text back: newlines separate rows, the Alive glyph is Alive, any other glyph Dead. */
  function Unrender(text: string): seq<Cell>
  {
    if |text| == 0 then []
    else if text[0] == '\n' then Unrender(text[1..])
    else [if text[0] == '\U{25FC}' then Alive else Dead] + Unrender(text[1..])
  }

  lemma {:induction false} UnrenderAppend(a: string, b: string)
    ensures Unrender(a + b) == Unrender(a) + Unrender(b)
    decreases |a|
  {
    if |a| == 0 {
      assert a + b == b;
    } else {
      assert (a + b)[1..] == a[1..] + b;
      UnrenderAppend(a[1..], b);
    }
  }

  lemma {:induction false} UnrenderGlyphs(cells: seq<Cell>)
    ensures Unrender(Glyphs(cells)) == cells
    decreases |cells|
  {
    if |cells| > 0 {
      var g := Glyphs(cells);
      assert g[1..] == Glyphs(cells[1..]);
      UnrenderGlyphs(cells[1..]);
      assert cells == [cells[0]] + cells[1..];
    }
  }

  /** Reading back one rendered line and what follows it gives the line's cells, then the rest. */
  lemma UnrenderLine(chunk: seq<Cell>, rest: string)
    ensures Unrender(Glyphs(chunk) + "\n" + rest) == chunk + Unrender(rest)
  {
    var head := Glyphs(chunk);
    var newline: string := "\n";
    assert newline[1..] == [];
    assert Unrender(newline) == [];
    UnrenderAppend(head, newline);
    UnrenderGlyphs(chunk);
    assert Unrender(head + newline) == chunk;
    UnrenderAppend(head + newline, rest);
  }

  /**
   * The loop over `chunks(width)`: each chunk's glyphs followed by a newline. Nothing is lost:
   * reading the text back gives the cells.
   */
  function Lines(width: nat, cells: seq<Cell>): (text: string)
    requires width > 0
    ensures Unrender(text) == cells
    decreases |cells|
  {
    if |cells| == 0 then ""
    else
      var n := Min(width, |cells|);
      var rest := Lines(width, cells[n..]);
      UnrenderLine(cells[..n], rest);
      assert cells == cells[..n] + cells[n..];
      Glyphs(cells[..n]) + "\n" + rest
  }

  /** `render`: `chunks(0)` panics, so a zero width panics whatever the buffer holds. */
  function Render(width: nat, cells: seq<Cell>): (r: Outcome<string>)
    ensures r.Panic? <==> width == 0
    ensures r.Panic? ==> r.reason == ZeroChunkSize
    ensures r.Done? ==> Unrender(r.value) == cells
  {
    if width == 0 then Panic(ZeroChunkSize) else Done(Lines(width, cells))
  }

  /** The text of height rows of width cells has height lines of width + 1 characters. */
  lemma {:induction false} RenderLength(width: nat, height: nat, cells: seq<Cell>)
    requires width > 0
    requires |cells| == width * height
    ensures |Lines(width, cells)| == height * (width + 1)
    decreases height
  {
    if height > 0 {
      assert width * height == width + width * (height - 1);
      RenderLength(width, height - 1, cells[width..]);
      assert height * (width + 1) == (width + 1) + (height - 1) * (width + 1);
    }
  }

  /** The line starting at text offset at is the glyphs of the width cells from buffer offset from, then a newline. */
  predicate LineAt(width: nat, cells: seq<Cell>, text: string, at: nat, from: nat)
  {
    && at + width < |text|
    && from + width <= |cells|
    && text[at .. at + width] == Glyphs(cells[from .. from + width])
    && text[at + width] == '\n'
  }

  /** Line row of text is the glyphs of row row of the buffer, then a newline. */
  predicate RowRendered(width: nat, cells: seq<Cell>, text: string, row: nat)
  {
    LineAt(width, cells, text, Times(row, width + 1), Times(row, width))
  }

  /** A line of the rest of the text is a line of the whole text, one line and one row further on. */
  lemma ShiftLine(width: nat, head: string, restText: string, cells: seq<Cell>, at: nat, from: nat)
    requires |head| == width + 1 && width <= |cells|
    requires LineAt(width, cells[width..], restText, at, from)
    ensures LineAt(width, cells, head + restText, at + width + 1, from + width)
  {
    assert (head + restText)[at + width + 1 .. at + width + 1 + width] == restText[at .. at + width];
    assert cells[width..][from .. from + width] == cells[width + from .. width + from + width];
  }

  lemma RenderNextRow(width: nat, cells: seq<Cell>, head: string, restText: string, r: nat)
    requires 0 < width <= |cells| && |head| == width + 1
    requires RowRendered(width, cells[width..], restText, r)
    ensures RowRendered(width, cells, head + restText, r + 1)
  {
    ShiftLine(width, head, restText, cells, Times(r, width + 1), Times(r, width));
  }

  lemma {:induction false} RenderRow(width: nat, cells: seq<Cell>, row: nat)
    requires width > 0
    requires Times(row, width) + width <= |cells|
    ensures RowRendered(width, cells, Lines(width, cells), row)
    decreases row
  {
    var head, rest := Glyphs(cells[..width]), Lines(width, cells[width..]);
    assert Lines(width, cells) == head + "\n" + rest;
    if row == 0 {
      assert RowRendered(width, cells, head + "\n" + rest, 0) by {
        assert (head + "\n" + rest)[0..width] == head;
      }
    } else {
      assert RowRendered(width, cells, head + "\n" + rest, row) by {
        RenderRow(width, cells[width..], row - 1);
        RenderNextRow(width, cells, head + "\n", rest, row - 1);
      }
    }
  }

  /**
   * The layout of the text for a buffer of height rows of width cells: height * (width + 1)
   * characters, line r (from offset r * (width + 1)) being the glyphs of row r followed by a newline.
   */
  lemma RenderShape(width: nat, height: nat, cells: seq<Cell>)
    requires width > 0
    requires |cells| == width * height
    ensures Render(width, cells).Done?
    ensures |Render(width, cells).value| == height * (width + 1)
    ensures forall row :: 0 <= row < height ==>
              LineAt(width, cells, Render(width, cells).value, row * (width + 1), row * width)
  {
    RenderLength(width, height, cells);
    forall row | 0 <= row < height
      ensures LineAt(width, cells, Render(width, cells).value, row * (width + 1), row * width)
    {
      RowFits(width, height, row);
      RenderRow(width, cells, row);
      assert RowRendered(width, cells, Lines(width, cells), row);
    }
  }

  /** Row row of a buffer of height rows starts at row * width and fits inside it. */
  lemma RowFits(width: nat, height: nat, row: nat)
    requires row < height
    ensures Times(row, width) == row * width && Times(row, width + 1) == row * (width + 1)
    ensures Times(row, width) + width <= width * height
  {
    TimesIsProduct(row, width);
    TimesIsProduct(row, width + 1);
    TimesMonotone(row + 1, height, width);
    TimesIsProduct(height, width);
  }

  /** One newline per row. */
  function CountNewlines(text: string): nat
  {
    if |text| == 0 then 0 else (if text[0] == '\n' then 1 else 0) + CountNewlines(text[1..])
  }

  lemma {:induction false} CountNewlinesAppend(a: string, b: string)
    ensures CountNewlines(a + b) == CountNewlines(a) + CountNewlines(b)
    decreases |a|
  {
    if |a| == 0 {
      assert a + b == b;
    } else {
      assert (a + b)[1..] == a[1..] + b;
      CountNewlinesAppend(a[1..], b);
    }
  }

  lemma {:induction false} GlyphsHaveNoNewline(cells: seq<Cell>)
    ensures CountNewlines(Glyphs(cells)) == 0
    decreases |cells|
  {
    if |cells| > 0 {
      assert Glyphs(cells)[1..] == Glyphs(cells[1..]);
      GlyphsHaveNoNewline(cells[1..]);
    }
  }

  /** The rendered text of height rows of width cells holds exactly height newlines. */
  lemma {:induction false} RenderLineCount(width: nat, height: nat, cells: seq<Cell>)
    requires width > 0
    requires |cells| == width * height
    ensures Render(width, cells).Done?
    ensures CountNewlines(Render(width, cells).value) == height
    decreases height
  {
    if height > 0 {
      var rest := cells[width..];
      assert |rest| == width * (height - 1);
      RenderLineCount(width, height - 1, rest);
      var head := Glyphs(cells[..width]);
      CountNewlinesAppend(head + "\n", Lines(width, rest));
      CountNewlinesAppend(head, "\n");
      GlyphsHaveNoNewline(cells[..width]);
    }
  }
}
