/**
 The main window's tab bookkeeping: tab and window titles derived from file
 paths, opening and creating tabs, routing a save to a direct write or to
 save-as, and the "unsaved" tab icon. File contents read and the answers of
 the file dialogs are parameters; a file write is returned as a value.
 */
module MainWindow {
  import opened Text
  import opened EditorState

  datatype Icon = NoIcon | UnsavedIcon

  datatype Tab = Tab(title: string, editor: Editor, icon: Icon)

  /** The tabs in order, the current index (-1 when there are none) and the window title. */
  datatype Window = Window(tabs: seq<Tab>, current: int, title: string)

  /** A file write: the path and the text written. */
  datatype Write = Write(path: string, content: string)

  /** The argument of the new-tab action: a name, or whatever non-string value the menu action passes. */
  datatype NewTabArg = Named(name: string) | NotAString

  const InitialTitle: string := "Code Editor"
  const NewFileName: string := "New File"
  const UntitledName: string := "Untitled"

  /** The window as it starts: no tabs. */
  function Initial(): (w: Window)
    ensures Valid(w) && |w.tabs| == 0
  {
    Window([], -1, InitialTitle)
  }

  /** The current index is -1 exactly when there are no tabs, and names a tab otherwise. */
  predicate Valid(w: Window) {
    if |w.tabs| == 0 then w.current == -1 else 0 <= w.current < |w.tabs|
  }

  // ---- Titles ----

  /** Where the part of `path[..n]` after its last `/` begins: 0 when it has no `/`. */
  function LastSlashEnd(path: string, n: nat): (k: nat)
    requires n <= |path|
    ensures k <= n
    ensures forall i :: k <= i < n ==> path[i] != '/'
    ensures k > 0 ==> path[k - 1] == '/'
  {
    if n == 0 then 0 else if path[n - 1] == '/' then n else LastSlashEnd(path, n - 1)
  }

  /** `path.split('/')[-1]`: what follows the last `/`, or the whole path when it has none. */
  function Basename(path: string): (r: string)
    ensures |r| <= |path|
    ensures forall i :: 0 <= i < |r| ==> r[i] == path[|path| - |r| + i] && r[i] != '/'
    ensures |r| < |path| ==> path[|path| - |r| - 1] == '/'
  {
    path[LastSlashEnd(path, |path|)..]
  }

  /** The basename is the one slash-free suffix that is the whole path or follows a `/`. */
  lemma BasenameUnique(path: string, s: string)
    requires |s| <= |path| && s == path[|path| - |s|..] && '/' !in s
    requires |s| < |path| ==> path[|path| - |s| - 1] == '/'
    ensures s == Basename(path)
  {
    var b := Basename(path);
    assert |s| == |b|;
  }

  /** A file name with no `/`, under any directory, is its own basename. */
  lemma BasenameOfJoin(dir: string, name: string)
    requires '/' !in name
    ensures Basename(dir + "/" + name) == name
  {
    var p := dir + "/" + name;
    assert p[|p| - |name|..] == name;
    assert p[|p| - |name| - 1] == '/';
    BasenameUnique(p, name);
  }

  /** The title a re-attached tab gets: the basename, or "New File" when that is empty. */
  function ReattachTitle(path: string): (r: string)
    ensures |r| > 0
    ensures r == Basename(path) || (Basename(path) == [] && r == NewFileName)
  {
    var b := Basename(path);
    if b == [] then NewFileName else b
  }

  /** The window title for the tab that became current: its path, or "Untitled". */
  function WindowTitle(path: string): (r: string)
    ensures |r| > 0
    ensures path != [] ==> r == path
    ensures path == [] ==> r == UntitledName
  {
    if path == [] then UntitledName else path
  }

  /** The name `new_tab` gives its tab: the argument when it is a string, "New File" otherwise. */
  function NewTabName(arg: NewTabArg): (r: string)
    ensures arg.NotAString? ==> r == NewFileName
    ensures arg.Named? ==> r == arg.name
  {
    match arg
    case Named(s) => s
    case NotAString => NewFileName
  }

  /** The icon a tab shows for its editor: the unsaved icon exactly when the editor is modified. */
  function IconFor(e: Editor): (i: Icon)
    ensures i == UnsavedIcon <==> IsModified(e)
    ensures i == NoIcon <==> !IsModified(e)
  {
    if IsModified(e) then UnsavedIcon else NoIcon
  }

  /** Every tab's icon matches its editor's modified state. */
  predicate IconsAccurate(w: Window) {
    forall i :: 0 <= i < |w.tabs| ==> w.tabs[i].icon == IconFor(w.tabs[i].editor)
  }

  /** The window title is the one for the current tab's path. */
  predicate TitleFresh(w: Window)
    requires Valid(w)
  {
    |w.tabs| > 0 ==> w.title == WindowTitle(w.tabs[w.current].editor.path)
  }

  // ---- Tabs ----

  /**
   Makes tab `i` current. Only a change of current tab updates the window
   title; selecting the tab that is already current changes nothing.
   */
  function SetCurrent(w: Window, i: nat): (r: Window)
    requires i < |w.tabs|
    ensures r.tabs == w.tabs && r.current == i
    ensures i != w.current ==> r.title == WindowTitle(w.tabs[i].editor.path)
    ensures i == w.current ==> r == w
  {
    if i == w.current then w else w.(current := i, title := WindowTitle(w.tabs[i].editor.path))
  }

  /** Adds a tab at the end and makes it current. */
  function AddTab(w: Window, t: Tab): (r: Window)
    requires Valid(w)
    ensures Valid(r) && r.tabs == w.tabs + [t] && r.current == |w.tabs|
    ensures r.title == WindowTitle(t.editor.path)
  {
    SetCurrent(w.(tabs := w.tabs + [t]), |w.tabs|)
  }

  /** The new-tab action: an empty editor with no file. */
  function NewTab(w: Window, arg: NewTabArg): (r: Window)
    requires Valid(w)
    ensures Valid(r) && |r.tabs| == |w.tabs| + 1 && r.tabs[..|w.tabs|] == w.tabs
    ensures r.tabs[|w.tabs|] == Tab(NewTabName(arg), NewEditor([]), NoIcon)
    ensures r.title == UntitledName
  {
    AddTab(w, Tab(NewTabName(arg), NewEditor([]), NoIcon))
  }

  /**
   The open action, given the dialog's answer and the file's content. An
   empty answer is a cancelled dialog. The new tab is titled with the file's
   basename and starts unmodified.
   */
  function OpenFile(w: Window, fname: string, data: string): (r: Window)
    requires Valid(w)
    ensures Valid(r)
    ensures fname == [] ==> r == w
    ensures fname != [] ==>
              && |r.tabs| == |w.tabs| + 1 && r.tabs[..|w.tabs|] == w.tabs
              && r.current == |w.tabs| && r.title == fname
              && var t := r.tabs[|w.tabs|];
                 t.title == Basename(fname) && t.editor.path == fname && t.editor.text == data
                 && !IsModified(t.editor) && t.icon == NoIcon
  {
    if fname == [] then w
    else
      var e := MarkAsSaved(SetText(NewEditor(fname), data));
      AddTab(w, Tab(Basename(fname), e, NoIcon))
  }

  /** A detached editor comes back as a new current tab, titled from its path, with its icon refreshed. */
  function Reattach(w: Window, e: Editor): (r: Window)
    requires Valid(w)
    ensures Valid(r) && r.tabs == w.tabs + [Tab(ReattachTitle(e.path), e, IconFor(e))]
    ensures r.current == |w.tabs| && r.title == WindowTitle(e.path)
  {
    AddTab(w, Tab(ReattachTitle(e.path), e, IconFor(e)))
  }

  /** The user selects tab `i`. */
  function SelectTab(w: Window, i: nat): (r: Window)
    requires Valid(w) && i < |w.tabs|
    ensures Valid(r) && r.tabs == w.tabs && r.current == i
  {
    SetCurrent(w, i)
  }

  /** The text of the current tab changes; the content-changed signal refreshes the current tab's icon. */
  function EditCurrent(w: Window, text: string): (r: Window)
    requires Valid(w) && |w.tabs| > 0
    ensures Valid(r) && |r.tabs| == |w.tabs| && r.current == w.current && r.title == w.title
    ensures r.tabs[w.current].editor == SetText(w.tabs[w.current].editor, text)
    ensures r.tabs[w.current].icon == (if text != w.tabs[w.current].editor.original then UnsavedIcon else NoIcon)
    ensures forall i :: 0 <= i < |w.tabs| && i != w.current ==> r.tabs[i] == w.tabs[i]
  {
    var t := w.tabs[w.current];
    var e := SetText(t.editor, text);
    w.(tabs := w.tabs[w.current := t.(editor := e, icon := IconFor(e))])
  }

  // ---- Saving ----

  /**
   Saving one tab, given the answer the save dialog would give (empty when
   cancelled). A tab with a path is written to it directly; a tab without one
   goes through save-as, which takes the answer as its new path and retitles
   the tab with its basename. A saved tab is clean and loses the unsaved icon.
   */
  function SaveTab(t: Tab, answer: string): (r: (Tab, Option<Write>))
    ensures t.editor.path != [] ==>
              r.1 == Some(Write(t.editor.path, t.editor.text))
              && r.0 == Tab(t.title, MarkAsSaved(t.editor), NoIcon)
    ensures t.editor.path == [] && answer != [] ==>
              r.1 == Some(Write(answer, t.editor.text))
              && r.0 == Tab(Basename(answer), MarkAsSaved(SetFilePath(t.editor, answer)), NoIcon)
    ensures t.editor.path == [] && answer == [] ==> r == (t, None)
    ensures r.0.editor.path != [] ==> !IsModified(r.0.editor) && r.0.icon == NoIcon
  {
    if t.editor.path != [] then
      var e := MarkAsSaved(t.editor);
      (t.(editor := e, icon := IconFor(e)), Some(Write(e.path, e.text)))
    else SaveTabAs(t, answer)
  }

  /** Save-as for one tab: a non-empty answer becomes the path, the text is written there and the tab is retitled. */
  function SaveTabAs(t: Tab, answer: string): (r: (Tab, Option<Write>))
    ensures answer == [] ==> r == (t, None)
    ensures answer != [] ==>
              r.1 == Some(Write(answer, t.editor.text))
              && r.0.title == Basename(answer) && r.0.editor.path == answer
              && r.0.editor.text == t.editor.text && !IsModified(r.0.editor) && r.0.icon == NoIcon
  {
    if answer == [] then (t, None)
    else
      var e := MarkAsSaved(SetFilePath(t.editor, answer));
      (t.(title := Basename(answer), editor := e, icon := IconFor(e)), Some(Write(answer, e.text)))
  }

  /** Writes a saved tab back into the window; the window title is left as it was. */
  function SaveAt(w: Window, i: nat, answer: string): (r: (Window, Option<Write>))
    requires Valid(w) && i < |w.tabs|
    ensures Valid(r.0) && r.0.current == w.current && r.0.title == w.title
    ensures r.0.tabs == w.tabs[i := SaveTab(w.tabs[i], answer).0] && r.1 == SaveTab(w.tabs[i], answer).1
  {
    var (t, wr) := SaveTab(w.tabs[i], answer);
    (w.(tabs := w.tabs[i := t]), wr)
  }

  /** The save action: saves the current tab; with no tab there is nothing to save. */
  function SaveCurrentFile(w: Window, answer: string): (r: (Window, Option<Write>))
    requires Valid(w)
    ensures |w.tabs| == 0 ==> r == (w, None)
    ensures |w.tabs| > 0 ==> r == SaveAt(w, w.current, answer)
  {
    if |w.tabs| == 0 then (w, None) else SaveAt(w, w.current, answer)
  }

  /** What saving one tab writes: nothing, or one write. */
  function WritesOf(t: Tab, answer: string): (r: seq<Write>)
    ensures |r| <= 1
    ensures r == [] <==> SaveTab(t, answer).1.None?
  {
    var wr := SaveTab(t, answer).1;
    if wr.Some? then [wr.value] else []
  }

  /** The save-all action's writes for the first `n` tabs, in order; `answers[i]` is the dialog answer for tab `i`. */
  function SaveAllWrites(tabs: seq<Tab>, answers: seq<string>, n: nat): (r: seq<Write>)
    requires n <= |tabs|
    ensures |r| <= n
  {
    if n == 0 then []
    else SaveAllWrites(tabs, answers, n - 1) + WritesOf(tabs[n - 1], Answer(answers, n - 1))
  }

  /** The dialog answer for tab `i`; a missing answer is a cancelled dialog. */
  function Answer(answers: seq<string>, i: nat): (a: string) {
    if i < |answers| then answers[i] else []
  }

  /**
   The save-all action: every tab in order, a direct write for tabs with a
   path and a save dialog for the others. Afterwards every tab that has a
   path is clean and shows no unsaved icon.
   */
  method SaveAll(w: Window, answers: seq<string>) returns (r: Window, writes: seq<Write>)
    requires Valid(w)
    ensures Valid(r) && |r.tabs| == |w.tabs| && r.current == w.current && r.title == w.title
    ensures forall i :: 0 <= i < |w.tabs| ==> r.tabs[i] == SaveTab(w.tabs[i], Answer(answers, i)).0
    ensures writes == SaveAllWrites(w.tabs, answers, |w.tabs|)
    ensures forall i :: 0 <= i < |r.tabs| && r.tabs[i].editor.path != [] ==>
              !IsModified(r.tabs[i].editor) && r.tabs[i].icon == NoIcon
  {
    r := w;
    writes := [];
    var i := 0;
    while i < |w.tabs|
      invariant 0 <= i <= |w.tabs|
      invariant Valid(r) && |r.tabs| == |w.tabs| && r.current == w.current && r.title == w.title
      invariant forall j :: 0 <= j < i ==> r.tabs[j] == SaveTab(w.tabs[j], Answer(answers, j)).0
      invariant forall j :: i <= j < |w.tabs| ==> r.tabs[j] == w.tabs[j]
      invariant writes == SaveAllWrites(w.tabs, answers, i)
    {
      var res := SaveAt(r, i, Answer(answers, i));
      r := res.0;
      writes := writes + WritesOf(w.tabs[i], Answer(answers, i));
      i := i + 1;
    }
  }

  // ---- Invariants ----

  /** Every operation keeps each tab's icon in step with its editor. */
  lemma IconsStayAccurate(w: Window, arg: NewTabArg, fname: string, data: string, e: Editor, text: string, i: nat, answer: string)
    requires Valid(w) && IconsAccurate(w)
    ensures IconsAccurate(NewTab(w, arg))
    ensures IconsAccurate(OpenFile(w, fname, data))
    ensures IconsAccurate(Reattach(w, e))
    ensures |w.tabs| > 0 ==> IconsAccurate(EditCurrent(w, text))
    ensures i < |w.tabs| ==> IconsAccurate(SelectTab(w, i)) && IconsAccurate(SaveAt(w, i, answer).0)
  {
    AddTabKeepsIcons(w, Tab(NewTabName(arg), NewEditor([]), NoIcon));
    if fname != [] {
      var e := MarkAsSaved(SetText(NewEditor(fname), data));
      AddTabKeepsIcons(w, Tab(Basename(fname), e, NoIcon));
    }
    AddTabKeepsIcons(w, Tab(ReattachTitle(e.path), e, IconFor(e)));
    if |w.tabs| > 0 {
      var t := w.tabs[w.current];
      var e' := SetText(t.editor, text);
      ReplaceTabKeepsIcons(w, w.current, t.(editor := e', icon := IconFor(e')));
    }
    if i < |w.tabs| {
      SaveTabIcon(w.tabs[i], answer);
      ReplaceTabKeepsIcons(w, i, SaveTab(w.tabs[i], answer).0);
    }
  }

  lemma AddTabKeepsIcons(w: Window, t: Tab)
    requires Valid(w) && IconsAccurate(w) && t.icon == IconFor(t.editor)
    ensures IconsAccurate(AddTab(w, t))
  {
    var r := AddTab(w, t);
    assert forall j :: 0 <= j < |w.tabs| ==> r.tabs[j] == w.tabs[j];
  }

  lemma ReplaceTabKeepsIcons(w: Window, i: nat, t: Tab)
    requires IconsAccurate(w) && i < |w.tabs| && t.icon == IconFor(t.editor)
    ensures IconsAccurate(w.(tabs := w.tabs[i := t]))
  {
  }

  /** A saved tab's icon matches its editor, whether or not anything was saved. */
  lemma SaveTabIcon(t: Tab, answer: string)
    requires t.icon == IconFor(t.editor)
    ensures SaveTab(t, answer).0.icon == IconFor(SaveTab(t, answer).0.editor)
  {
  }

  /** Opening, creating, re-attaching and selecting a different tab leave the window title in step with the current tab. */
  lemma TitleStaysFresh(w: Window, arg: NewTabArg, fname: string, data: string, e: Editor, text: string, i: nat)
    requires Valid(w) && TitleFresh(w)
    ensures TitleFresh(NewTab(w, arg))
    ensures TitleFresh(OpenFile(w, fname, data))
    ensures TitleFresh(Reattach(w, e))
    ensures |w.tabs| > 0 ==> TitleFresh(EditCurrent(w, text))
    ensures i < |w.tabs| ==> TitleFresh(SelectTab(w, i))
  {
  }

  /**
   Saving an untitled current tab under a new name gives it a path but leaves
   the window title at "Untitled": no current-tab change happens, so the
   title is not refreshed.
   */
  lemma SaveAsLeavesTitleStale()
    ensures var w := NewTab(Initial(), NotAString);
            var r := SaveCurrentFile(w, "/home/a/b.py").0;
            TitleFresh(w) && r.tabs[0].editor.path == "/home/a/b.py" && r.tabs[0].title == "b.py"
            && r.title == UntitledName && !TitleFresh(r)
  {
    var w := NewTab(Initial(), NotAString);
    BasenameOfJoin("/home/a", "b.py");
    assert "/home/a" + "/" + "b.py" == "/home/a/b.py";
  }
}
