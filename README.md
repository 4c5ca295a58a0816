# Notes editor: markdown fonts and window lifecycle, in Dafny

A model of the two stateful pieces of the Notes editor (SDL3 + Dear ImGui +
OpenGL) that hold checkable logic, with proofs about them.

- `fonts.dfy`, module `Fonts`: the markdown font table of
  `src/editor/editor.cpp`. The nine global rows `font_p`, `font_h1` ..
  `font_h6`, `font_small` and `font_tiny` are indexed by a style variant
  0..3. They are one `array2<Font>` of 9 × 4 cells, rows ordered by the
  heading level that selects them. A font handle is a token: `Unset` (the
  null pointer) or `Loaded(file, sizeOf)`, which records the font file and
  which size variable `font_<sizeOf>_size` it was requested at. Sizes stay
  symbolic. `LoadMarkdownFontScales` fills one variant column in place.
  `InitFonts` is the four loads at the end of `Editor::init`.
- `markdown.dfy`, module `Markdown`: the `my_markdown` renderer.
  `FontChoice` is the decision of `get_font`: the flags
  `m_is_table_header`, `m_is_strong`, `m_is_em` and `m_hlevel` select one
  table cell or the `g_font_bold` fallback. `MarkdownPrinter.GetFont` looks
  that choice up in the table. `MarkdownPrinter.HtmlDiv` is `html_div`. It
  flips `m_table_border` and pushes or pops a text colour on ImGui's
  style-colour stack (class `StyleColors`).
- `windows.dfy`, module `Windows`: `Editor::Window` of
  `src/editor/window.cpp`. A window is "empty" (no SDL window, no GL context)
  or "created". The two statics of that file, the slot table `_windows` and
  `_current_window`, are the fields of class `Registry`. `Create` and
  `Destroy` keep the slot table in place: the first null slot is reused,
  otherwise a slot is appended, and destroy nulls the slot. The pure
  functions `Register` and `Unregister` describe these updates. Lemmas prove
  that no window ever sits in two slots. They also prove that destroy undoes
  create's registration, up to a trailing null slot. `Registry.Valid()`
  (every occupied slot holds a distinct created window) is preserved by
  `Create` and `Destroy`.

Every SDL, GL and GLAD call is a parameter that gives its outcome. These are
the handles `SDL_CreateWindow` and `SDL_GL_CreateContext` return, whether
`SDL_GL_MakeCurrent` and `gladLoadGL` succeed, and the list of events
`SDL_PollEvent` delivers.

Three behaviours of the code that a reader might not expect, all kept in the
model:

- `font_small` is read by `get_font` (src/editor/editor.cpp:186) but never
  loaded, so that row of the table stays null (see Findings).
- `g_font_bold` is declared at src/editor/editor.cpp:39 and returned for an
  out-of-range heading level at line 190, but never assigned. The fallback
  font is therefore null.
- Leaving a "red" div sets `m_table_border` to true (line 224), whatever it
  was before line 218 set it to false.

## Model

| member | source | states |
|---|---|---|
| `Fonts.RowAt` | src/editor/editor.cpp:169-188 | heading level n in 0..8 selects the row whose level is n (p, h1..h6, small, tiny) |
| `Fonts.FontTable.constructor` | src/editor/editor.cpp:18-26 | the static table starts with all 36 cells null, and so does g_font_bold |
| `Fonts.FontTable.LoadMarkdownFontScales` | src/editor/editor.cpp:56-68 | writes only column fontType: rows p and h1..h6 at their own size, tiny at the small size; font_small and every other column are left unchanged; returns 0 |
| `Fonts.FontTable.InitFonts` | src/editor/editor.cpp:108-111 | after the four loads, every cell of rows p, h1..h6 and tiny holds the variant's file; font_small is untouched, so a table that started null is not populated |
| `Fonts.FontTable.LoadMarkdownFontScalesCorrected` | src/editor/editor.cpp:56-68 | corrected loader: all nine cells of column fontType, each at its own size; other columns unchanged |
| `Fonts.FontTable.InitFontsCorrected` | src/editor/editor.cpp:108-111 | with the corrected loader, every one of the 36 cells holds the variant's file at the row's own size |
| `Markdown.StyleVariant` | src/editor/editor.cpp:159-167 | the variant lies in 0..3; its bit 0 is the strong flag and its bit 1 the emphasis flag |
| `Markdown.StyleVariantBijective` | src/editor/editor.cpp:159-167 | the four flag combinations give four distinct variants, and every variant 0..3 is reached |
| `Markdown.FontChoice` | src/editor/editor.cpp:152-192 | a table header always gets cell (p, 1); otherwise a cell is chosen exactly when the level is in 0..8, its row's level is that level and its variant encodes the strong and emphasis flags; every other level gets the fallback |
| `Markdown.TableHeaderIgnoresStyle` | src/editor/editor.cpp:154-157 | inside a table header, the choice is the same for all strong, emphasis and level values |
| `Markdown.OutOfRangeLevelFallsBack` | src/editor/editor.cpp:189-190 | outside a table header, any level below 0 or above 8 gets the g_font_bold fallback whatever the style |
| `Markdown.MarkdownPrinter.GetFont` | src/editor/editor.cpp:152-192 | returns font_p[1] in a table header, row `m_hlevel` at the computed variant column for levels 0..8, and g_font_bold otherwise |
| `Markdown.DivEffect` | src/editor/editor.cpp:212-227 | "red" entry clears the border flag and pushes one red text colour; "red" exit pops one colour and sets the border flag; any other class changes nothing |
| `Markdown.RedDivPairRestoresColors` | src/editor/editor.cpp:212-227 | entering then leaving a "red" div gives back the colour stack but always leaves the border flag true |
| `Markdown.MarkdownPrinter.HtmlDiv` | src/editor/editor.cpp:212-227 | the border flag and colour stack change as DivEffect says; popping needs a non-empty stack |
| `Markdown.SmallHeadingFontAfterInit` | src/editor/editor.cpp:185-186 | after init's loads, get_font at level 7 outside a table header returns a null font, for every strong and emphasis value |
| `Markdown.SmallHeadingFontAfterCorrectedInit` | src/editor/editor.cpp:185-186 | after the corrected loads, get_font at level 7 returns the style's font file at the small size (the regular file for plain text) |
| `Markdown.OutOfRangeFontAfterInit` | src/editor/editor.cpp:189-190 | after init's loads, every out-of-range level still gets a null font, because g_font_bold is never assigned |
| `Windows.FirstIndex` | src/editor/window.cpp:95-102 | the index of the first slot holding a value, or the length when no slot does; no earlier slot holds it |
| `Windows.Register` | src/editor/window.cpp:95-103 | the slot table after a successful create: the window is in it, its length grows by one exactly when there was no null slot, and no occupied slot changes |
| `Windows.Unregister` | src/editor/window.cpp:123-130 | the slot table after destroy: its length is kept, it changes (a slot becomes null) exactly when the window was in it, and only the first slot holding the window can change |
| `Windows.RegisterFillsFirstFreeSlot` | src/editor/window.cpp:95-105 | a successful create puts the window in exactly one slot: the first null one, or a new slot appended at the end; no other slot changes |
| `Windows.RegisterKeepsDistinct` | src/editor/window.cpp:95-105 | registering a window that was in no slot keeps every window in at most one slot |
| `Windows.RegisteredValid` | src/editor/window.cpp:95-105 | registering a created window keeps the registry invariant and leaves the window registered |
| `Windows.UnregisterRemoves` | src/editor/window.cpp:123-130 | destroy nulls the window's slot: it is in no slot afterwards, the table keeps its length and no other slot changes |
| `Windows.UnregisterKeepsDistinct` | src/editor/window.cpp:123-130 | nulling a slot keeps every window in at most one slot |
| `Windows.UnregisterUndoesRegister` | src/editor/window.cpp:95-133 | destroy after create gives back the table, or the table plus a trailing null slot when create appended |
| `Windows.DestroyLeavesNullSlot` | src/editor/window.cpp:123-130 | after destroying a registered window, the table holds a null slot |
| `Windows.CurrentAfterUse` | src/editor/window.cpp:136-148 | use() leaves the window current exactly when it already was current or make-current succeeded; otherwise the current window is unchanged |
| `Windows.Registry.constructor` | src/editor/window.cpp:14-15 | the slot table starts empty and no window is current |
| `Windows.Window.constructor` | src/editor/window.cpp:17-19 | a new window has no handle and no context, keep_open false, size (0, 0), empty title |
| `Windows.RecreateAfterDestroySkipsMakeCurrent` | src/editor/window.cpp:136-140 | create, destroy, create again on one window: the second create returns 0 with the window recorded as current whatever make-current would do, because use() returns early on the stale pointer |
| `Windows.RecreateAfterCorrectedDestroy` | src/editor/window.cpp:136-146 | the same sequence with the corrected destroy: the window is recorded as current exactly when make-current succeeds |
| `Windows.Window.Create` | src/editor/window.cpp:25-106 | returns 1 with no change if a handle or context exists; 2 if window creation fails, with no change; 3 if context creation fails, with the handle reset and nothing registered; 4 if GL loading fails, with both handles null and nothing registered, but title, size and keep_open already set and the window possibly left current; 0 otherwise, with the window registered by Register; the registry invariant is preserved |
| `Windows.Window.Destroy` | src/editor/window.cpp:108-134 | nulls context and handle; with a handle, also clears the title and nulls the window's slot, which must exist; without one, the table and title are unchanged; the current window is never reset; the registry invariant is preserved and the window ends in no slot |
| `Windows.Window.DestroyCorrected` | src/editor/window.cpp:108-134 | corrected destroy: as Destroy, and the current-window pointer is reset when it named this window, so a current window that had its handle and context before still has them after |
| `Windows.Window.Use` | src/editor/window.cpp:136-148 | requires a created window; no change if it is already current, else it becomes current only if make-current succeeds |
| `Windows.Window.PollEvents` | src/editor/window.cpp:155-181 | once a quit or close-requested event is delivered, every slot (all required non-null) has keep_open false; without such an event, nothing changes |
| `Windows.Window.PollEventsCorrected` | src/editor/window.cpp:163-174 | corrected sweep: a closing event clears keep_open on every registered window and skips null slots |
| `Windows.Window.SetClearColor` | src/editor/window.cpp:183-195 | requires this window to be created (the assert of its own use()) and the saved current window, if any, to be created too (the assert of the restoring use() at line 192; after destroy or a code-4 create leaves the pointer stale, this fails); stores the colour; the previously current window is current again, except when the first make-current succeeded and the restoring one failed; with no current window before, none is current after |

## Left out

- `calculateFontScaling` and the size values (src/editor/editor.cpp:28-36, 43-54): floating-point `pow` arithmetic. Sizes are kept as the symbolic names of their variables.
- The rest of `Editor::init`, and `terminate`, `clear`, `startFrame`, `EndFrame`: SDL, ImGui and OpenGL setup and teardown. Only init's four font loads are modelled.
- `open_url`: a platform call to `SDL_OpenURL`.
- `get_image`: it always returns true with constant image data, so it holds no decision.
- `Editor::markdown` and the imgui_md base class: the markdown walk and the strong, emphasis and heading-level bookkeeping live in imgui_md, which is not part of this model. The initial values of its flags are therefore unconstrained, and enter/exit balance of the render state is not modelled.
- src/main.cpp: the ImGui frame loop and its button-driven list of notes.
- `AddFontFromFileTTF` failure: each load is taken to yield a handle that records its file and size. The font atlas itself is not modelled.
- `Window::swap`, `getHandle`, `getContext`: one SDL call or a field read each.
- Object lifetime, including the empty `~Window` (src/editor/window.cpp:21-23): a registered window that is freed stays in `_windows` as a dangling pointer, which `pollEvents` would then dereference. The model's windows are never freed.
- GL attribute setup, window position, show, swap interval, `glClearColor`, `ImGui_ImplSDL3_ProcessEvent` and all logging: external calls with no effect on the modelled state.
- Which GL context SDL actually has current is not modelled. Only `_current_window` is. With no previous current window, `SetClearColor` leaves this window's context current in SDL but sets `_current_window` to null.
- Markdown.MarkdownPrinter.HtmlDiv: does not model the colour ImGui saves on push and restores on pop; the stack records only the pushed colour.
- Windows.Window.Create: a null title pointer is not modelled; the title is a string.

## Findings

| source | as written | input that shows it | evidently intended | confidence | as-written member | corrected member |
|---|---|---|---|---|---|---|
| src/editor/editor.cpp:58-65 | `font_small[t]` is never loaded, and `font_tiny[t]` is loaded at `font_small_size`, so `font_tiny_size` is computed but never used | run init's four loads, then `get_font` with `m_hlevel` = 7: it returns a null font | each of the nine rows loaded at its own size, filling all 36 cells | medium, not executed | `Fonts.FontTable.LoadMarkdownFontScales`, `Markdown.SmallHeadingFontAfterInit` | `Fonts.FontTable.LoadMarkdownFontScalesCorrected`, `Fonts.FontTable.InitFontsCorrected` |
| src/editor/window.cpp:163-174 | the quit and close-requested sweeps dereference every slot, but `destroy` leaves a null slot behind | create a window, destroy it, then deliver a quit event | skip the null slots | high, not executed | `Windows.Window.PollEvents`, `Windows.DestroyLeavesNullSlot` | `Windows.Window.PollEventsCorrected` |
| src/editor/window.cpp:108-134 | `destroy` never resets `_current_window`, so it can keep naming a window with no context | create a window, destroy it, create it again: `use()` returns early at line 139, `SDL_GL_MakeCurrent` is never called for the new context, yet the window is recorded as current; or call `setClearColor` on another window, whose restoring `use()` fails its assert at line 138 | reset `_current_window` when it names the window being destroyed | medium, not executed | `Windows.Window.Destroy`, `Windows.RecreateAfterDestroySkipsMakeCurrent` | `Windows.Window.DestroyCorrected`, `Windows.RecreateAfterCorrectedDestroy` |
