/** The my_markdown renderer of src/editor/editor.cpp: get_font picks one cell
    of the font table (or the g_font_bold fallback) from the render-state
    flags of the imgui_md base, and html_div toggles the "red" div styling. */
module Markdown {
  import opened Fonts

  /** A variant column decodes to its two style bits. */
  predicate IsStrongVariant(v: nat) { v % 2 == 1 }
  predicate IsEmVariant(v: nat) { v >= 2 }

  /** The `type` computed by get_font: 1 for strong, plus 2 for emphasis. */
  function StyleVariant(strong: bool, em: bool): (v: nat)
    ensures v < 4
    ensures IsStrongVariant(v) == strong && IsEmVariant(v) == em
  {
    var t := if strong then 1 else 0;
    if em then t + 2 else t
  }

  /** The four flag combinations give four distinct columns, and every column
      in 0..3 is reached: StyleVariant is a bijection onto 0..3. */
  lemma StyleVariantBijective(strong1: bool, em1: bool, strong2: bool, em2: bool, v: nat)
    requires v < 4
    ensures StyleVariant(strong1, em1) == StyleVariant(strong2, em2) <==> strong1 == strong2 && em1 == em2
    ensures StyleVariant(IsStrongVariant(v), IsEmVariant(v)) == v
  {
  }

  /** What get_font returns: a cell of the table, or g_font_bold. */
  datatype Choice = TableCell(row: Row, variant: nat) | BoldFallback

  /** The decision of get_font, separated from the table lookup. */
  function FontChoice(isTableHeader: bool, isStrong: bool, isEm: bool, hlevel: int): (c: Choice)
    ensures isTableHeader ==> c == TableCell(P, 1)
    ensures !isTableHeader ==> (c.TableCell? <==> 0 <= hlevel <= 8)
    ensures !isTableHeader && c.TableCell? ==>
      c.row.Level() == hlevel && IsStrongVariant(c.variant) == isStrong && IsEmVariant(c.variant) == isEm
    ensures c.TableCell? ==> c.variant < 4
  {
    if isTableHeader then TableCell(P, 1)
    else
      var t := StyleVariant(isStrong, isEm);
      if 0 <= hlevel <= 8 then TableCell(RowAt(hlevel), t) else BoldFallback
  }

  /** Inside a table header the style flags and heading level do not matter. */
  lemma TableHeaderIgnoresStyle(strong1: bool, em1: bool, hlevel1: int, strong2: bool, em2: bool, hlevel2: int)
    ensures FontChoice(true, strong1, em1, hlevel1) == FontChoice(true, strong2, em2, hlevel2)
  {
  }

  /** Outside a table header, a level outside 0..8 (negative ones included)
      falls back to g_font_bold whatever the style. */
  lemma OutOfRangeLevelFallsBack(strong: bool, em: bool, hlevel: int)
    requires hlevel < 0 || hlevel > 8
    ensures FontChoice(false, strong, em, hlevel) == BoldFallback
  {
  }

  /** A 32-bit packed colour, IM_COL32(r, g, b, a). */
  datatype Col32 = Col32(r: int, g: int, b: int, a: int)

  const Red: Col32 := Col32(255, 0, 0, 255)

  /** One entry of ImGui's style-colour stack: a colour pushed for ImGuiCol_Text. */
  datatype ColorPush = TextColor(color: Col32)

  /** The style-colour stack of the ImGui context that html_div pushes onto. */
  class StyleColors {
    var stack: seq<ColorPush>
  }

  /** The effect of html_div on (m_table_border, colour stack). Popping needs a
      non-empty stack: ImGui asserts on one pop too many. */
  function DivEffect(border: bool, stack: seq<ColorPush>, dclass: string, e: bool): (r: (bool, seq<ColorPush>))
    requires dclass == "red" && !e ==> |stack| > 0
    ensures dclass != "red" ==> r == (border, stack)
    ensures dclass == "red" && e ==> !r.0 && |r.1| == |stack| + 1 && r.1[..|stack|] == stack && r.1[|stack|] == TextColor(Red)
    ensures dclass == "red" && !e ==> r.0 && |r.1| == |stack| - 1 && r.1 == stack[..|stack| - 1]
  {
    if dclass == "red" then
      if e then (false, stack + [TextColor(Red)])
      else (true, stack[..|stack| - 1])
    else (border, stack)
  }

  /** Entering then leaving a "red" div restores the colour stack, but the
      border flag ends up true whatever it was before: it is not restored. */
  lemma RedDivPairRestoresColors(border: bool, stack: seq<ColorPush>)
    ensures DivEffect(DivEffect(border, stack, "red", true).0, DivEffect(border, stack, "red", true).1, "red", false)
      == (true, stack)
  {
  }

  /** The imgui_md state that my_markdown's overrides read and write. */
  class MarkdownPrinter {
    var isTableHeader: bool
    var isStrong: bool
    var isEm: bool
    var hlevel: int
    var tableBorder: bool

    /** my_markdown::get_font. */
    function GetFont(fonts: FontTable): (f: Font)
      reads this, fonts, fonts.cells
      requires fonts.Valid()
      ensures isTableHeader ==> f == fonts.At(P, 1)
      ensures !isTableHeader && 0 <= hlevel <= 8 ==> f == fonts.At(RowAt(hlevel), StyleVariant(isStrong, isEm))
      ensures !isTableHeader && (hlevel < 0 || hlevel > 8) ==> f == fonts.bold
    {
      match FontChoice(isTableHeader, isStrong, isEm, hlevel)
      case TableCell(row, v) => fonts.At(row, v)
      case BoldFallback => fonts.bold
    }

    /** my_markdown::html_div. */
    method HtmlDiv(dclass: string, e: bool, colors: StyleColors)
      requires dclass == "red" && !e ==> |colors.stack| > 0
      modifies this`tableBorder, colors`stack
      ensures (tableBorder, colors.stack) == DivEffect(old(tableBorder), old(colors.stack), dclass, e)
    {
      if dclass == "red" {
        if e {
          tableBorder := false;
          colors.stack := colors.stack + [TextColor(Red)];
        } else {
          colors.stack := colors.stack[..|colors.stack| - 1];
          tableBorder := true;
        }
      }
    }
  }

  /** get_font for a level-7 (small) run, in any style outside a table header,
      after Editor::init's loads on the zero-initialised table: font_small was
      never loaded, so the cell is null. */
  method SmallHeadingFontAfterInit(strong: bool, em: bool) returns (f: Font)
    ensures f == Unset
  {
    var fonts := new FontTable();
    fonts.InitFonts();
    var printer := new MarkdownPrinter;
    printer.isTableHeader, printer.isStrong, printer.isEm, printer.hlevel := false, strong, em, 7;
    f := printer.GetFont(fonts);
  }

  /** The same run after the corrected loads gets the style's font file at the
      small size. */
  method SmallHeadingFontAfterCorrectedInit(strong: bool, em: bool) returns (f: Font)
    ensures f == Loaded(VariantFile(StyleVariant(strong, em)), Small)
    ensures !strong && !em ==> f == Loaded("data/ttf/Hack-Regular.ttf", Small)
  {
    var fonts := new FontTable();
    fonts.InitFontsCorrected();
    var printer := new MarkdownPrinter;
    printer.isTableHeader, printer.isStrong, printer.isEm, printer.hlevel := false, strong, em, 7;
    f := printer.GetFont(fonts);
  }

  /** g_font_bold is never assigned, so every out-of-range level gets a null
      font even after the table is loaded. */
  method OutOfRangeFontAfterInit(hlevel: int, strong: bool, em: bool) returns (f: Font)
    requires hlevel < 0 || hlevel > 8
    ensures f == Unset
  {
    var fonts := new FontTable();
    fonts.InitFonts();
    var printer := new MarkdownPrinter;
    printer.isTableHeader, printer.isStrong, printer.isEm, printer.hlevel := false, strong, em, hlevel;
    f := printer.GetFont(fonts);
  }
}
