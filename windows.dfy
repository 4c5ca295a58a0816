/** Editor::Window of src/editor/window.cpp: a window moves between "empty"
    (no SDL window, no GL context) and "created"; created windows are kept in
    the file's static slot table _windows, and _current_window names the
    window whose GL context was last made current. Every SDL, GL and GLAD call
    is replaced by a parameter that gives its outcome. */
module Windows {

  /** An SDL pointer (SDL_Window*, SDL_GLContext): null or some address. */
  datatype Handle = Null | Addr(id: nat)

  /** Eigen::Vector4f, the clear colour. */
  datatype Vec4 = Vec4(x: real, y: real, z: real, w: real)

  /** The SDL events pollEvents tells apart. */
  datatype Event = Quit | WindowCloseRequested | OtherEvent

  predicate Closing(e: Event) { e.Quit? || e.WindowCloseRequested? }

  /** The index of the first slot holding x, or |s| when there is none. */
  function FirstIndex(s: seq<Window?>, x: Window?): (k: nat)
    ensures k <= |s|
    ensures k < |s| ==> s[k] == x
    ensures forall j :: 0 <= j < k ==> s[j] != x
    decreases |s|
  {
    if |s| == 0 then 0
    else if s[0] == x then 0
    else 1 + FirstIndex(s[1..], x)
  }

  /** The slot table after a successful create: w goes into the first null
      slot, or is appended when there is none. */
  function Register(s: seq<Window?>, w: Window): (r: seq<Window?>)
    ensures w in r
    ensures |r| == if null in s then |s| else |s| + 1
    ensures forall j :: 0 <= j < |s| && s[j] != null ==> r[j] == s[j]
  {
    var k := FirstIndex(s, null);
    if k < |s| then assert s[k := w][k] == w; s[k := w]
    else assert (s + [w])[|s|] == w; s + [w]
  }

  /** The slot table after destroy: the first slot holding w is nulled. */
  function Unregister(s: seq<Window?>, w: Window): (r: seq<Window?>)
    ensures |r| == |s|
    ensures w in s <==> null in r && r != s
    ensures forall j :: 0 <= j < |s| && j != FirstIndex(s, w) ==> r[j] == s[j]
  {
    var k := FirstIndex(s, w);
    if k < |s| then assert s[k := null][k] == null != s[k]; s[k := null]
    else s
  }

  /** No window occupies two slots. */
  predicate Distinct(s: seq<Window?>)
  {
    forall i, j :: 0 <= i < j < |s| && s[i] != null ==> s[i] != s[j]
  }

  /** Registering a window not yet in the table puts it in exactly one slot,
      the first null one if any, else a new last slot; no other slot changes. */
  lemma RegisterFillsFirstFreeSlot(s: seq<Window?>, w: Window)
    requires w !in s
    ensures var r := Register(s, w);
      && |r| == (if null in s then |s| else |s| + 1)
      && FirstIndex(r, w) == FirstIndex(s, null)
      && (forall j :: 0 <= j < |r| && r[j] == w ==> j == FirstIndex(s, null))
      && (forall j :: 0 <= j < |s| && j != FirstIndex(s, null) ==> r[j] == s[j])
  {
  }

  /** Registering keeps every window in at most one slot. */
  lemma RegisterKeepsDistinct(s: seq<Window?>, w: Window)
    requires Distinct(s) && w !in s
    ensures Distinct(Register(s, w))
  {
  }

  /** Unregistering a window held by a table without duplicates frees its slot,
      removes it from the table and changes nothing else. */
  lemma UnregisterRemoves(s: seq<Window?>, w: Window)
    requires Distinct(s) && w in s
    ensures var r := Unregister(s, w);
      && |r| == |s|
      && w !in r
      && null in r
      && (forall j :: 0 <= j < |s| && s[j] != w ==> r[j] == s[j])
  {
  }

  /** Unregistering keeps every window in at most one slot. */
  lemma UnregisterKeepsDistinct(s: seq<Window?>, w: Window)
    requires Distinct(s)
    ensures Distinct(Unregister(s, w))
  {
  }

  /** destroy undoes create's registration: the table comes back as it was
      when create reused a null slot, and keeps a trailing null slot when
      create had appended one. */
  lemma UnregisterUndoesRegister(s: seq<Window?>, w: Window)
    requires w !in s
    ensures Unregister(Register(s, w), w) == if null in s then s else s + [null]
  {
  }

  /** The registry invariant holds once a created window that was in no slot
      is registered in a table whose occupied slots were distinct and created. */
  lemma RegisteredValid(reg: Registry, before: seq<Window?>, w: Window)
    requires Distinct(before) && w !in before
    requires forall i :: 0 <= i < |before| && before[i] != null ==> before[i].Created()
    requires w.Created() && reg.windows == Register(before, w)
    ensures reg.Valid() && w in reg.windows
  {
  }

  /** _current_window after use() on w: w if it already was current or the
      make-current call succeeded, else unchanged. */
  function CurrentAfterUse(current: Window?, w: Window, makeCurrentOk: bool): (r: Window?)
    ensures r == w || r == current
    ensures r == w <==> current == w || makeCurrentOk
  {
    if current == w then w
    else if makeCurrentOk then w
    else current
  }

  /** The two statics of window.cpp: the slot table and the current window. */
  class Registry {
    var windows: seq<Window?>
    var current: Window?

    constructor ()
      ensures windows == [] && current == null
    {
      windows := [];
      current := null;
    }

    /** Every occupied slot holds a distinct, created window. */
    ghost predicate Valid()
      reads this, set w | w in windows && w != null
    {
      && Distinct(windows)
      && forall i :: 0 <= i < |windows| && windows[i] != null ==> windows[i].Created()
    }

    /** The current window, if any, still has its SDL window and GL context. */
    ghost predicate CurrentIsLive()
      reads this, current
    {
      current != null ==> current.Created()
    }
  }

  class Window {
    var keepOpen: bool
    var handle: Handle
    var oglContext: Handle
    var title: string
    var size: (int, int)
    var background: Vec4

    predicate Created()
      reads this
    {
      handle != Null && oglContext != Null
    }

    constructor ()
      ensures !keepOpen && handle == Null && oglContext == Null
      ensures size == (0, 0) && title == ""
    {
      keepOpen := false;
      handle := Null;
      oglContext := Null;
      size := (0, 0);
      title := "";
    }

    /** Window::create. createdWindow and createdContext are what
        SDL_CreateWindow and SDL_GL_CreateContext return, makeCurrentOk the
        outcome of SDL_GL_MakeCurrent inside use(), glLoaded that of gladLoadGL. */
    method Create(reg: Registry, width: int, height: int, title: string,
                  createdWindow: Handle, createdContext: Handle, makeCurrentOk: bool, glLoaded: bool)
      returns (code: int)
      modifies this, reg
      ensures code == 1 <==> old(handle) != Null || old(oglContext) != Null
      ensures code == 1 ==> unchanged(this) && unchanged(reg)
      ensures code == 2 <==> code != 1 && createdWindow == Null
      ensures code == 2 ==> unchanged(this) && unchanged(reg)
      ensures code == 3 <==> code != 1 && createdWindow != Null && createdContext == Null
      ensures code == 3 ==> handle == Null && oglContext == Null && unchanged(reg)
      ensures code == 3 ==> this.title == old(this.title) && size == old(size) && keepOpen == old(keepOpen)
      ensures code == 4 <==> code != 1 && createdWindow != Null && createdContext != Null && !glLoaded
      ensures code == 4 ==> handle == Null && oglContext == Null && reg.windows == old(reg.windows)
      ensures code == 0 <==> code != 1 && createdWindow != Null && createdContext != Null && glLoaded
      ensures code == 0 ==> handle == createdWindow && oglContext == createdContext
      ensures code == 0 ==> reg.windows == Register(old(reg.windows), this)
      ensures code == 0 || code == 4 ==>
        && this.title == title && size == (width, height) && keepOpen
        && reg.current == CurrentAfterUse(old(reg.current), this, makeCurrentOk)
      ensures background == old(background)
      ensures old(reg.Valid()) ==> reg.Valid()
      ensures old(reg.Valid()) && code == 0 ==> this in reg.windows
    {
      if handle != Null {
        return 1;
      }
      if oglContext != Null {
        return 1;
      }
      assert old(reg.Valid()) ==> this !in reg.windows;

      handle := createdWindow;
      if handle == Null {
        return 2;
      }

      oglContext := createdContext;
      if oglContext == Null {
        handle := Null;
        return 3;
      }

      this.title := title;
      size := (width, height);
      keepOpen := true;

      Use(reg, makeCurrentOk);

      if !glLoaded {
        oglContext := Null;
        handle := Null;
        return 4;
      }

      ghost var before := reg.windows;
      var i := 0;
      while i < |reg.windows|
        invariant 0 <= i <= |reg.windows|
        invariant reg.windows == before
        invariant forall j :: 0 <= j < i ==> reg.windows[j] != null
      {
        if reg.windows[i] == null {
          reg.windows := reg.windows[i := this];
          if old(reg.Valid()) {
            RegisteredValid(reg, before, this);
          }
          return 0;
        }
        i := i + 1;
      }
      reg.windows := reg.windows + [this];
      if old(reg.Valid()) {
        RegisteredValid(reg, before, this);
      }
      return 0;
    }

    /** Window::destroy. A window with an SDL window must be registered: the
        source asserts so after searching the table. */
    method Destroy(reg: Registry)
      requires handle != Null ==> this in reg.windows
      modifies this`oglContext, this`handle, this`title, reg`windows
      ensures handle == Null && oglContext == Null
      ensures old(handle) != Null ==> this.title == "" && reg.windows == Unregister(old(reg.windows), this)
      ensures old(handle) == Null ==> this.title == old(this.title) && reg.windows == old(reg.windows)
      ensures reg.current == old(reg.current)
      ensures old(reg.Valid()) ==> reg.Valid() && this !in reg.windows
    {
      if oglContext != Null {
        oglContext := Null;
      }
      if handle != Null {
        handle := Null;
        title := "";

        var i := 0;
        while reg.windows[i] != this
          invariant 0 <= i <= FirstIndex(reg.windows, this) < |reg.windows|
          decreases |reg.windows| - i
        {
          i := i + 1;
        }
        ghost var before := reg.windows;
        reg.windows := reg.windows[i := null];
        if old(reg.Valid()) {
          UnregisterRemoves(before, this);
          UnregisterKeepsDistinct(before, this);
          forall j | 0 <= j < |reg.windows| && reg.windows[j] != null
            ensures reg.windows[j].Created()
          {
            assert reg.windows[j] == before[j] && before[j] != this;
          }
        }
      } else if old(reg.Valid()) {
        forall j | 0 <= j < |reg.windows| && reg.windows[j] != null
          ensures reg.windows[j] != this
        {
          assert old(reg.windows[j].Created());
        }
      }
    }

    /** destroy as evidently intended: as written, and a current-window pointer
        to this window is reset, so it never outlives the GL context. */
    method DestroyCorrected(reg: Registry)
      requires handle != Null ==> this in reg.windows
      modifies this`oglContext, this`handle, this`title, reg`windows, reg`current
      ensures handle == Null && oglContext == Null
      ensures old(handle) != Null ==> this.title == "" && reg.windows == Unregister(old(reg.windows), this)
      ensures old(handle) == Null ==> this.title == old(this.title) && reg.windows == old(reg.windows)
      ensures reg.current == if old(reg.current) == this then null else old(reg.current)
      ensures old(reg.CurrentIsLive()) ==> reg.CurrentIsLive()
      ensures old(reg.Valid()) ==> reg.Valid() && this !in reg.windows
    {
      Destroy(reg);
      if reg.current == this {
        reg.current := null;
      }
    }

    /** Window::use: asserts the window is created; makes its context current
        unless it already is. */
    method Use(reg: Registry, makeCurrentOk: bool)
      requires Created()
      modifies reg`current
      ensures reg.current == CurrentAfterUse(old(reg.current), this, makeCurrentOk)
    {
      if reg.current == this {
        return;
      }
      if !makeCurrentOk {
        return;
      }
      reg.current := this;
    }

    /** Window::pollEvents: every quit or close-requested event clears
        keep_open on every slot. A null slot left by destroy is dereferenced,
        so the source needs no null slot once such an event arrives. */
    static method PollEvents(reg: Registry, events: seq<Event>)
      requires (exists k :: 0 <= k < |events| && Closing(events[k])) ==> null !in reg.windows
      modifies (set w | w in reg.windows && w != null)`keepOpen
      ensures (exists k :: 0 <= k < |events| && Closing(events[k])) ==>
        forall i :: 0 <= i < |reg.windows| ==> reg.windows[i] != null && !reg.windows[i].keepOpen
      ensures (forall k :: 0 <= k < |events| ==> !Closing(events[k])) ==>
        forall w :: w in reg.windows && w != null ==> w.keepOpen == old(w.keepOpen)
    {
      var n := 0;
      while n < |events|
        invariant 0 <= n <= |events|
        invariant (exists k :: 0 <= k < n && Closing(events[k])) ==>
          forall i :: 0 <= i < |reg.windows| ==> reg.windows[i] != null && !reg.windows[i].keepOpen
        invariant (forall k :: 0 <= k < n ==> !Closing(events[k])) ==>
          forall w :: w in reg.windows && w != null ==> w.keepOpen == old(w.keepOpen)
      {
        if Closing(events[n]) {
          var i := 0;
          while i < |reg.windows|
            invariant 0 <= i <= |reg.windows|
            invariant forall j :: 0 <= j < i ==> reg.windows[j] != null && !reg.windows[j].keepOpen
          {
            reg.windows[i].keepOpen := false;
            i := i + 1;
          }
        }
        n := n + 1;
      }
    }

    /** pollEvents as evidently intended: slots freed by destroy are skipped,
        so any table is accepted. */
    static method PollEventsCorrected(reg: Registry, events: seq<Event>)
      modifies (set w | w in reg.windows && w != null)`keepOpen
      ensures (exists k :: 0 <= k < |events| && Closing(events[k])) ==>
        forall w :: w in reg.windows && w != null ==> !w.keepOpen
      ensures (forall k :: 0 <= k < |events| ==> !Closing(events[k])) ==>
        forall w :: w in reg.windows && w != null ==> w.keepOpen == old(w.keepOpen)
    {
      var n := 0;
      while n < |events|
        invariant 0 <= n <= |events|
        invariant (exists k :: 0 <= k < n && Closing(events[k])) ==>
          forall w :: w in reg.windows && w != null ==> !w.keepOpen
        invariant (forall k :: 0 <= k < n ==> !Closing(events[k])) ==>
          forall w :: w in reg.windows && w != null ==> w.keepOpen == old(w.keepOpen)
      {
        if Closing(events[n]) {
          var i := 0;
          while i < |reg.windows|
            invariant 0 <= i <= |reg.windows|
            invariant forall j :: 0 <= j < i && reg.windows[j] != null ==> !reg.windows[j].keepOpen
          {
            if reg.windows[i] != null {
              reg.windows[i].keepOpen := false;
            }
            i := i + 1;
          }
        }
        n := n + 1;
      }
    }

    /** Window::setClearColor: makes this window current, stores the colour
        and makes the previously current window current again. makeCurrentOk
        and restoreOk are the outcomes of the two make-current calls. */
    method SetClearColor(reg: Registry, color: Vec4, makeCurrentOk: bool, restoreOk: bool)
      requires Created()
      requires reg.CurrentIsLive()
      modifies this`background, reg`current
      ensures background == color
      ensures old(reg.current) == null ==> reg.current == null
      ensures old(reg.current) != null ==>
        reg.current == if old(reg.current) != this && makeCurrentOk && !restoreOk then this else old(reg.current)
    {
      var current := reg.current;
      Use(reg, makeCurrentOk);

      background := color;

      if current != null {
        current.Use(reg, restoreOk);
      } else {
        reg.current := current;
      }
    }
  }

  /** A slot freed by destroy stays in the table as null: any later quit or
      close event then breaks pollEvents' requirement. */
  lemma DestroyLeavesNullSlot(s: seq<Window?>, w: Window)
    requires w in s
    ensures null in Unregister(s, w)
  {
  }

  /** Re-creating a destroyed window: destroy left _current_window at it, so
      the second create's use() returns early and never makes the new context
      current, yet create returns 0 with the window recorded as current,
      whatever make-current would have done. */
  method RecreateAfterDestroySkipsMakeCurrent(h1: Handle, c1: Handle, h2: Handle, c2: Handle, makeCurrentOk: bool)
    returns (code: int, recordedCurrent: bool)
    requires h1 != Null && c1 != Null && h2 != Null && c2 != Null
    ensures code == 0 && recordedCurrent
  {
    var reg := new Registry();
    var w := new Window();
    var first := w.Create(reg, 800, 600, "hello", h1, c1, true, true);
    w.Destroy(reg);
    code := w.Create(reg, 800, 600, "hello", h2, c2, makeCurrentOk, true);
    recordedCurrent := reg.current == w;
  }

  /** The same sequence with the corrected destroy: the new context is
      recorded as current exactly when make-current succeeds. */
  method RecreateAfterCorrectedDestroy(h1: Handle, c1: Handle, h2: Handle, c2: Handle, makeCurrentOk: bool)
    returns (code: int, recordedCurrent: bool)
    requires h1 != Null && c1 != Null && h2 != Null && c2 != Null
    ensures code == 0 && (recordedCurrent <==> makeCurrentOk)
  {
    var reg := new Registry();
    var w := new Window();
    var first := w.Create(reg, 800, 600, "hello", h1, c1, true, true);
    w.DestroyCorrected(reg);
    code := w.Create(reg, 800, 600, "hello", h2, c2, makeCurrentOk, true);
    recordedCurrent := reg.current == w;
  }
}
