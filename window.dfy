/** `MainWindow`: the file tree, the editor, the hidden-by-default terminal
    and the run action. Only the decisions the window takes itself are
    modelled: which tree entries open, when a file may be run, and how the
    terminal is toggled and fed with a run's output. Reading a file and
    running a program are outside the model and come in as parameters. */
module Window {
  import opened Wrappers
  import opened PyStr
  import opened TextBuffer
  import Editor
  import Terminal

  const AppTitle := "M Code Editor"
  const NoFileMessage := "No file opened"
  const NotPythonMessage := "Only Python files supported"

  /** The suffixes `open_file` accepts. */
  const OpenableSuffixes: seq<string> := [".py", ".txt", ".html"]

  /** `path.endswith((".py", ".txt", ".html"))`. */
  predicate HasOpenableSuffix(path: string) {
    EndsWith(path, ".py") || EndsWith(path, ".txt") || EndsWith(path, ".html")
  }

  /** A path opens exactly when it is some name followed by one of the
      accepted suffixes. */
  lemma OpenableIff(path: string)
    ensures HasOpenableSuffix(path) <==>
      exists stem: string, i :: 0 <= i < |OpenableSuffixes| && path == stem + OpenableSuffixes[i]
  {
    if HasOpenableSuffix(path) {
      var i := if EndsWith(path, ".py") then 0 else if EndsWith(path, ".txt") then 1 else 2;
      EndsWithSplit(path, OpenableSuffixes[i]);
    }
    if stem: string, i :| 0 <= i < |OpenableSuffixes| && path == stem + OpenableSuffixes[i] {
      EndsWithSplit(path, OpenableSuffixes[i]);
    }
  }

  /** `s.endswith(suffix)` exactly when `s` is some text followed by `suffix`. */
  lemma EndsWithSplit(s: string, suffix: string)
    ensures EndsWith(s, suffix) <==> exists stem: string :: s == stem + suffix
  {
    if EndsWith(s, suffix) {
      assert s == s[..|s| - |suffix|] + suffix;
    }
    if stem: string :| s == stem + suffix {
      assert s[|stem|..] == suffix;
    }
  }

  /** Matching is on the exact, case-sensitive suffix. */
  lemma SuffixExamples()
    ensures HasOpenableSuffix("main.py") && HasOpenableSuffix("index.html")
    ensures !HasOpenableSuffix("main.pyc") && !HasOpenableSuffix("README.md")
    ensures !HasOpenableSuffix("MAIN.PY")
  {
    assert "main.py"[4..] == ".py";
    assert "index.html"[5..] == ".html";
  }

  /** The outcome of the checks `run_current_file` makes before running. */
  datatype RunCheck = NoFile | NotPython | Runnable

  /** `not self.current_file_path` (no path, or an empty one), then
      `not path.endswith(".py")`. */
  function RunPrecheck(path: Option<string>): (c: RunCheck)
    ensures c == NoFile ==> path.None? || path.value == ""
    ensures c == Runnable ==> path.Some? && EndsWith(path.value, ".py")
  {
    if path.None? || path.value == "" then NoFile
    else if !EndsWith(path.value, ".py") then NotPython
    else Runnable
  }

  /** A file is run exactly when there is a path ending in `.py`; such a
      path is one the tree would also open. */
  lemma RunPrecheckIff(path: Option<string>)
    ensures RunPrecheck(path) == Runnable <==> path.Some? && EndsWith(path.value, ".py")
    ensures RunPrecheck(path) == NoFile <==> path.None? || path.value == ""
    ensures RunPrecheck(path) == Runnable ==> HasOpenableSuffix(path.value)
  {
  }

  /** What a click on a tree entry does. */
  datatype OpenResult = Toggled | Ignored | ReadFailed | Opened

  /** What the run action does. */
  datatype RunResult = Warned(message: string) | Failed | Ran

  class MainWindow {
    const editor: Editor.CodeEditor
    const terminal: Terminal.Terminal
    /** The terminal is shown. */
    var terminalVisible: bool
    /** `current_file_path`. */
    var currentPath: Option<string>
    var title: string
    /** The folders expanded in the tree. */
    var expanded: set<string>

    ghost predicate Valid()
      reads this, editor, terminal
    {
      editor.Valid() && terminal.Valid()
    }

    constructor ()
      ensures Valid() && fresh(editor) && fresh(terminal)
      ensures !terminalVisible && currentPath == None && title == AppTitle && expanded == {}
      ensures editor.text == "" && terminal.scrollback == "" && terminal.written == []
    {
      editor := new Editor.CodeEditor();
      terminal := new Terminal.Terminal();
      terminalVisible := false;
      currentPath := None;
      title := AppTitle;
      expanded := {};
    }

    /** `open_terminal`: show the terminal when hidden, hide it otherwise. */
    method OpenTerminal()
      modifies this
      ensures terminalVisible == !old(terminalVisible)
      ensures currentPath == old(currentPath) && title == old(title) && expanded == old(expanded)
    {
      if !terminalVisible {
        terminalVisible := true;
      } else {
        terminalVisible := false;
      }
    }

    /** `open_file` for a tree entry: a folder is expanded or collapsed; a
        file with another suffix is ignored; otherwise its contents (`None`
        when reading it fails) replace the editor's text and it becomes the
        current file. */
    method OpenFile(path: string, isDir: bool, contents: Option<string>) returns (r: OpenResult)
      requires Valid()
      modifies this, editor
      ensures Valid()
      ensures isDir ==> r == Toggled
      ensures !isDir && !HasOpenableSuffix(path) ==> r == Ignored
      ensures !isDir && HasOpenableSuffix(path) ==> r == (if contents.Some? then Opened else ReadFailed)
      ensures r == Toggled ==> expanded == (if path in old(expanded) then old(expanded) - {path} else old(expanded) + {path})
      ensures r != Toggled ==> expanded == old(expanded)
      ensures r == Opened ==>
        && editor.text == contents.value && editor.caret == 0
        && currentPath == Some(path) && title == AppTitle + " - " + path
      ensures r != Opened ==>
        && editor.text == old(editor.text) && editor.caret == old(editor.caret)
        && currentPath == old(currentPath) && title == old(title)
      ensures terminalVisible == old(terminalVisible)
    {
      if isDir {
        if path in expanded {
          expanded := expanded - {path};
        } else {
          expanded := expanded + {path};
        }
        return Toggled;
      }
      if !HasOpenableSuffix(path) {
        return Ignored;
      }
      if contents.None? {
        return ReadFailed;
      }
      editor.SetPlainText(contents.value);
      currentPath := Some(path);
      title := AppTitle + " - " + path;
      return Opened;
    }

    /** `run_current_file`: after the checks, the program's output (`None`
        when running it fails) is inserted into the shown terminal, standard
        output first, then standard error, then a line feed. */
    method RunCurrentFile(result: Option<(string, string)>) returns (r: RunResult)
      requires Valid()
      modifies this, terminal
      ensures Valid()
      ensures RunPrecheck(old(currentPath)) == NoFile ==> r == Warned(NoFileMessage)
      ensures RunPrecheck(old(currentPath)) == NotPython ==> r == Warned(NotPythonMessage)
      ensures RunPrecheck(old(currentPath)) == Runnable ==> r == (if result.Some? then Ran else Failed)
      ensures r == Ran ==>
        var output := result.value.0 + result.value.1 + "\n";
        && terminalVisible
        && terminal.scrollback == InsertAt(old(terminal.scrollback), old(terminal.caret), output)
        && terminal.AtEnd()
        && (old(terminal.AtEnd()) ==> terminal.scrollback == old(terminal.scrollback) + output)
      ensures r != Ran ==>
        terminalVisible == old(terminalVisible) && terminal.scrollback == old(terminal.scrollback)
        && terminal.caret == old(terminal.caret)
      ensures terminal.written == old(terminal.written)
      ensures currentPath == old(currentPath) && title == old(title) && expanded == old(expanded)
    {
      var check := RunPrecheck(currentPath);
      if check == NoFile {
        return Warned(NoFileMessage);
      }
      if check == NotPython {
        return Warned(NotPythonMessage);
      }
      if result.None? {
        return Failed;
      }
      var output := result.value.0 + result.value.1;
      terminalVisible := true;
      InsertAtEnd(terminal.scrollback, output + "\n");
      terminal.InsertPlainText(output + "\n");
      terminal.MoveToEnd();
      return Ran;
    }
  }

  /** Opening `main.py` and running it shows its output in the terminal. */
  method OpenAndRun() returns (shown: bool, scrollback: string)
    ensures shown && scrollback == "hi\n\n"
  {
    var w := new MainWindow();
    var status := w.OpenFile("main.py", false, Some("print('hi')"));
    SuffixExamples();
    assert status == Opened;
    var ran := w.RunCurrentFile(Some(("hi\n", "")));
    assert EndsWith("main.py", ".py");
    assert ran == Ran;
    shown := w.terminalVisible;
    scrollback := w.terminal.scrollback;
  }
}
