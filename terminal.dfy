/** `TerminalWidget`: a plain-text pane over a shell process. Output and
    error chunks from the process and the finish notice are inserted into
    the scrollback at the caret, which then moves to the end; Return takes
    the last line of the scrollback as the command, echoes a line feed and
    writes one line to the process's standard input. */
module Terminal {
  import opened PyStr
  import opened TextBuffer

  /** The notice inserted when the process ends. */
  const FinishedNotice := "\n[Process finished]\n"

  /** The last line of `s`: everything after its last line feed. */
  function LastLine(s: string): (r: string)
    ensures |r| <= |s| && r == s[|s| - |r|..]
    ensures '\n' !in r
    ensures |r| == |s| || s[|s| - |r| - 1] == '\n'
  {
    if s == [] || s[|s| - 1] == '\n' then []
    else LastLine(s[..|s| - 1]) + [s[|s| - 1]]
  }

  /** The command Return submits: the stripped last line of the scrollback
      (the selection of the line under a cursor moved to the end). */
  function Command(scrollback: string): (cmd: string)
    ensures '\n' !in cmd
  {
    StripSlice(LastLine(scrollback));
    Strip(LastLine(scrollback))
  }

  /** What Return writes to the process: the command and a line feed, or a
      bare line feed when the command is empty. */
  function Submission(cmd: string): (w: string)
    ensures |w| >= 1 && w[|w| - 1] == '\n' && w[..|w| - 1] == cmd
  {
    if cmd != "" then cmd + "\n" else "\n"
  }

  /** Both branches write the same thing: the command followed by one line
      feed, and that is the only line feed written. */
  lemma SubmissionIsOneLine(scrollback: string)
    ensures Submission(Command(scrollback)) == Command(scrollback) + "\n"
    ensures Count(Submission(Command(scrollback)), '\n') == 1
  {
    var cmd := Command(scrollback);
    CountConcat(cmd, "\n", '\n');
    CountAbsent(cmd, '\n');
  }

  /** `ls` typed on a line of its own is written as `ls` and a line feed. */
  lemma SubmitLs()
    ensures Submission(Command("total 0\n  ls ")) == "ls\n"
  {
    LsCommand();
  }

  lemma LsCommand()
    ensures Command("total 0\n  ls ") == "ls"
  {
    assert LastLine("total 0\n  ls ") == "  ls ";
    StripOf("  ls ", 2, 4);
  }

  /** A blank last line writes a bare line feed. */
  lemma SubmitBlank()
    ensures Submission(Command("done\n   ")) == "\n"
  {
    assert LastLine("done\n   ") == "   ";
    StripBlank("   ");
  }

  class Terminal {
    /** The widget's text. */
    var scrollback: string
    /** The widget's text cursor. */
    var caret: nat
    /** Every write to the process's standard input, in order. */
    var written: seq<string>

    ghost predicate Valid()
      reads this
    {
      caret <= |scrollback|
    }

    /** The caret is at the end, as every handler leaves it. */
    predicate AtEnd()
      reads this
    {
      caret == |scrollback|
    }

    constructor ()
      ensures Valid() && AtEnd()
      ensures scrollback == "" && written == []
    {
      scrollback := "";
      caret := 0;
      written := [];
    }

    /** `insertPlainText(t)`: insert at the caret and move the caret past
        the inserted text. */
    method InsertPlainText(t: string)
      requires Valid()
      modifies this
      ensures Valid()
      ensures scrollback == InsertAt(old(scrollback), old(caret), t)
      ensures caret == old(caret) + |t|
      ensures written == old(written)
    {
      scrollback := InsertAt(scrollback, caret, t);
      caret := caret + |t|;
    }

    /** `moveCursor(QTextCursor.End)`. */
    method MoveToEnd()
      requires Valid()
      modifies this
      ensures Valid() && AtEnd()
      ensures scrollback == old(scrollback) && written == old(written)
    {
      caret := |scrollback|;
    }

    /** The user places the caret, e.g. by clicking. */
    method PlaceCaret(pos: nat)
      requires Valid() && pos <= |scrollback|
      modifies this
      ensures Valid() && caret == pos
      ensures scrollback == old(scrollback) && written == old(written)
    {
      caret := pos;
    }

    /** A printable key handled by the widget's default key handling: the
        text is inserted at the caret. */
    method TypeText(t: string)
      requires Valid()
      modifies this
      ensures Valid()
      ensures scrollback == InsertAt(old(scrollback), old(caret), t)
      ensures caret == old(caret) + |t|
      ensures written == old(written)
    {
      InsertPlainText(t);
    }

    /** `read_output`: the decoded chunk of standard output. */
    method ReadOutput(chunk: string)
      requires Valid()
      modifies this
      ensures Valid() && AtEnd()
      ensures scrollback == InsertAt(old(scrollback), old(caret), chunk)
      ensures old(AtEnd()) ==> scrollback == old(scrollback) + chunk
      ensures written == old(written)
    {
      InsertAtEnd(scrollback, chunk);
      InsertPlainText(chunk);
      MoveToEnd();
    }

    /** `read_error`: the decoded chunk of standard error, handled exactly
        like output. */
    method ReadError(chunk: string)
      requires Valid()
      modifies this
      ensures Valid() && AtEnd()
      ensures scrollback == InsertAt(old(scrollback), old(caret), chunk)
      ensures old(AtEnd()) ==> scrollback == old(scrollback) + chunk
      ensures written == old(written)
    {
      InsertAtEnd(scrollback, chunk);
      InsertPlainText(chunk);
      MoveToEnd();
    }

    /** `process_finished`: the finish notice. */
    method ProcessFinished()
      requires Valid()
      modifies this
      ensures Valid() && AtEnd()
      ensures scrollback == InsertAt(old(scrollback), old(caret), FinishedNotice)
      ensures old(AtEnd()) ==> scrollback == old(scrollback) + FinishedNotice
      ensures written == old(written)
    {
      InsertAtEnd(scrollback, FinishedNotice);
      InsertPlainText(FinishedNotice);
      MoveToEnd();
    }

    /** Return: the command is read from the last line (through a copy of
        the cursor moved to the end), a line feed is echoed at the widget's
        own caret, and exactly one write is made. */
    method PressReturn()
      requires Valid()
      modifies this
      ensures Valid()
      ensures scrollback == InsertAt(old(scrollback), old(caret), "\n")
      ensures caret == old(caret) + 1
      ensures written == old(written) + [Submission(Command(old(scrollback)))]
    {
      var command := Strip(LastLine(scrollback));
      InsertPlainText("\n");
      if command != "" {
        written := written + [command + "\n"];
      } else {
        written := written + ["\n"];
      }
    }
  }

  /** Chunks arrive in order: output `a` then error `b` leaves `ab`, with the
      caret at the end. */
  method OutputThenError() returns (scrollback: string, atEnd: bool)
    ensures scrollback == "ab" && atEnd
  {
    var t := new Terminal();
    t.ReadOutput("a");
    t.ReadError("b");
    scrollback := t.scrollback;
    atEnd := t.AtEnd();
  }

  /** Output, a typed command and Return: the process receives the command;
      finishing then appends the notice after the echoed line feed. */
  method TypeAndSubmit() returns (scrollback: string, written: seq<string>)
    ensures written == ["ls\n"]
    ensures scrollback == "ok\nls\n" + FinishedNotice
  {
    var t := new Terminal();
    t.ReadOutput("ok\n");
    t.TypeText("ls");
    assert t.scrollback == "ok\nls";
    assert LastLine("ok\nls") == "ls";
    StripOf("ls", 0, 2);
    assert Command(t.scrollback) == "ls";
    t.PressReturn();
    assert t.scrollback == "ok\nls\n" && t.AtEnd();
    t.ProcessFinished();
    scrollback := t.scrollback;
    written := t.written;
    assert Submission("ls") == "ls\n";
  }
}
