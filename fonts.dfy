/** The markdown font table of src/editor/editor.cpp: nine global rows of four
    style variants each, filled one variant column at a time by
    loadMakdownFontScales. Font handles are abstract tokens: a cell is either
    still null or records the file it was loaded from and the size variable
    (font_<row>_size) it was requested at. Sizes stay symbolic. */
module Fonts {

  /** The nine rows of the table. A row's Level() is both the heading level
      get_font selects it for and its row index in the model's table. */
  datatype Row = P | H1 | H2 | H3 | H4 | H5 | H6 | Small | Tiny
  {
    function Level(): (n: nat)
      ensures n < 9
    {
      match this
      case P => 0
      case H1 => 1
      case H2 => 2
      case H3 => 3
      case H4 => 4
      case H5 => 5
      case H6 => 6
      case Small => 7
      case Tiny => 8
    }
  }

  /** The row a heading level in 0..8 selects; the inverse of Row.Level. */
  function RowAt(level: int): (row: Row)
    requires 0 <= level <= 8
    ensures row.Level() == level
  {
    if level == 0 then P
    else if level == 1 then H1
    else if level == 2 then H2
    else if level == 3 then H3
    else if level == 4 then H4
    else if level == 5 then H5
    else if level == 6 then H6
    else if level == 7 then Small
    else Tiny
  }

  /** A font handle: the null pointer of a cell never assigned, or a font added
      from `file` at the size held by font_<sizeOf>_size. */
  datatype Font = Unset | Loaded(file: string, sizeOf: Row)

  /** The font file that Editor::init loads into variant column v. */
  function VariantFile(v: nat): string
    requires v < 4
  {
    if v == 0 then "data/ttf/Hack-Regular.ttf"
    else if v == 1 then "data/ttf/Hack-Bold.ttf"
    else if v == 2 then "data/ttf/Hack-Italic.ttf"
    else "data/ttf/Hack-BoldItalic.ttf"
  }

  class FontTable {
    /** font_p, font_h1 .. font_h6, font_small, font_tiny, one row each. */
    var cells: array2<Font>
    /** g_font_bold: declared, read by get_font, never assigned. */
    var bold: Font

    ghost predicate Valid()
      reads this
    {
      cells.Length0 == 9 && cells.Length1 == 4
    }

    /** Static storage: every handle starts out null. */
    constructor ()
      ensures Valid() && fresh(cells)
      ensures bold == Unset
      ensures forall row: Row, v :: 0 <= v < 4 ==> At(row, v) == Unset
    {
      cells := new Font[9, 4]((i, j) => Unset);
      bold := Unset;
    }

    function At(row: Row, v: nat): Font
      reads this, cells
      requires Valid() && v < 4
    {
      cells[row.Level(), v]
    }

    /** Every one of the 36 cells holds a loaded font. */
    ghost predicate Populated()
      reads this, cells
      requires Valid()
    {
      forall row: Row, v :: 0 <= v < 4 ==> At(row, v) != Unset
    }

    /** loadMakdownFontScales: fills column fontType of rows p, h1..h6 and
        tiny from `filename`, tiny at the small size; font_small is skipped. */
    method LoadMarkdownFontScales(fontType: int, filename: string) returns (r: int)
      requires Valid() && 0 <= fontType < 4
      modifies cells
      ensures r == 0
      ensures forall row: Row :: row != Small && row != Tiny ==> At(row, fontType) == Loaded(filename, row)
      ensures At(Tiny, fontType) == Loaded(filename, Small)
      ensures At(Small, fontType) == old(At(Small, fontType))
      ensures forall row: Row, v :: 0 <= v < 4 && v != fontType ==> At(row, v) == old(At(row, v))
    {
      cells[P.Level(), fontType] := Loaded(filename, P);
      cells[H1.Level(), fontType] := Loaded(filename, H1);
      cells[H2.Level(), fontType] := Loaded(filename, H2);
      cells[H3.Level(), fontType] := Loaded(filename, H3);
      cells[H4.Level(), fontType] := Loaded(filename, H4);
      cells[H5.Level(), fontType] := Loaded(filename, H5);
      cells[H6.Level(), fontType] := Loaded(filename, H6);
      cells[Tiny.Level(), fontType] := Loaded(filename, Small);
      return 0;
    }

    /** The four loads at the end of Editor::init, variants 0..3. */
    method InitFonts()
      requires Valid()
      modifies cells
      ensures forall row: Row, v :: 0 <= v < 4 && row != Small && row != Tiny ==> At(row, v) == Loaded(VariantFile(v), row)
      ensures forall v :: 0 <= v < 4 ==> At(Tiny, v) == Loaded(VariantFile(v), Small)
      ensures forall v :: 0 <= v < 4 ==> At(Small, v) == old(At(Small, v))
      ensures old(At(Small, 0)) == Unset ==> !Populated()
    {
      var _ := LoadMarkdownFontScales(0, VariantFile(0));
      var _ := LoadMarkdownFontScales(1, VariantFile(1));
      var _ := LoadMarkdownFontScales(2, VariantFile(2));
      var _ := LoadMarkdownFontScales(3, VariantFile(3));
    }

    /** The loader as evidently intended: all nine rows of column fontType,
        each at its own size. */
    method LoadMarkdownFontScalesCorrected(fontType: int, filename: string) returns (r: int)
      requires Valid() && 0 <= fontType < 4
      modifies cells
      ensures r == 0
      ensures forall row: Row :: At(row, fontType) == Loaded(filename, row)
      ensures forall row: Row, v :: 0 <= v < 4 && v != fontType ==> At(row, v) == old(At(row, v))
    {
      cells[P.Level(), fontType] := Loaded(filename, P);
      cells[H1.Level(), fontType] := Loaded(filename, H1);
      cells[H2.Level(), fontType] := Loaded(filename, H2);
      cells[H3.Level(), fontType] := Loaded(filename, H3);
      cells[H4.Level(), fontType] := Loaded(filename, H4);
      cells[H5.Level(), fontType] := Loaded(filename, H5);
      cells[H6.Level(), fontType] := Loaded(filename, H6);
      cells[Small.Level(), fontType] := Loaded(filename, Small);
      cells[Tiny.Level(), fontType] := Loaded(filename, Tiny);
      return 0;
    }

    /** Editor::init's four loads through the corrected loader: the table is
        fully populated, whatever it held before. */
    method InitFontsCorrected()
      requires Valid()
      modifies cells
      ensures forall row: Row, v :: 0 <= v < 4 ==> At(row, v) == Loaded(VariantFile(v), row)
      ensures Populated()
    {
      var _ := LoadMarkdownFontScalesCorrected(0, VariantFile(0));
      var _ := LoadMarkdownFontScalesCorrected(1, VariantFile(1));
      var _ := LoadMarkdownFontScalesCorrected(2, VariantFile(2));
      var _ := LoadMarkdownFontScalesCorrected(3, VariantFile(3));
    }
  }
}
