/** `CodeEditor`: the editing pane. Return inserts a line feed and the
    indentation computed from the line holding the caret; every other key
    is left to the widget's default handling, of which only typing text is
    modelled. The gutter's width follows the document's block count. */
module Editor {
  import opened Indent
  import opened TextBuffer
  import Gutter

  /** What Return inserts with the caret at `at` in `s`. */
  function ReturnInsertion(s: string, at: nat): (ins: string)
    requires at <= |s|
    ensures |ins| >= 1 && ins[0] == '\n'
    ensures forall k :: 1 <= k < |ins| ==> ins[k] == ' '
  {
    BreakIndent(CurrentLine(s, at))
  }

  /** The text after Return with the caret at `at`. */
  function AfterReturn(s: string, at: nat): (r: string)
    requires at <= |s|
    ensures |r| == |s| + |ReturnInsertion(s, at)|
    ensures r[..at] == s[..at] && r[at + |ReturnInsertion(s, at)|..] == s[at..]
    ensures r[at..at + |ReturnInsertion(s, at)|] == ReturnInsertion(s, at)
  {
    InsertAt(s, at, ReturnInsertion(s, at))
  }

  /** The inserted text holds exactly one line feed. */
  lemma InsertionHasOneLineFeed(s: string, at: nat)
    requires at <= |s|
    ensures Count(ReturnInsertion(s, at), '\n') == 1
  {
    var ins := ReturnInsertion(s, at);
    assert ins == [ins[0]] + ins[1..];
    CountConcat([ins[0]], ins[1..], '\n');
    assert forall k :: 0 <= k < |ins[1..]| ==> ins[1..][k] == ins[k + 1];
    CountAbsent(ins[1..], '\n');
  }

  /** Return splits the current line in two: the document gains exactly one
      block. */
  lemma ReturnAddsOneBlock(s: string, at: nat)
    requires at <= |s|
    ensures BlockCount(AfterReturn(s, at)) == BlockCount(s) + 1
  {
    CountInsert(s, at, ReturnInsertion(s, at), '\n');
    InsertionHasOneLineFeed(s, at);
  }

  /** So the gutter never gets narrower on Return. */
  lemma ReturnKeepsGutter(s: string, at: nat, advance: int)
    requires at <= |s| && advance >= 0
    ensures Gutter.LineNumberAreaWidth(BlockCount(s), advance)
         <= Gutter.LineNumberAreaWidth(BlockCount(AfterReturn(s, at)), advance)
  {
    ReturnAddsOneBlock(s, at);
    Gutter.WidthMonotone(BlockCount(s), BlockCount(AfterReturn(s, at)), advance);
  }

  /** After Return the caret stands on a new line, right after its
      indentation: everything on the new line before the caret is the
      inserted run of spaces. */
  lemma ReturnIndentsNewLine(s: string, at: nat)
    requires at <= |s|
    ensures var ins := ReturnInsertion(s, at);
      && LineStart(AfterReturn(s, at), at + |ins|) == at + 1
      && AfterReturn(s, at)[at + 1..at + |ins|] == ins[1..]
  {
    var ins := ReturnInsertion(s, at);
    assert '\n' !in ins[1..];
    InsertedLineStart(s, at, ins);
  }

  class CodeEditor {
    /** `toPlainText()`. */
    var text: string
    /** The position of `textCursor()`. */
    var caret: nat

    ghost predicate Valid()
      reads this
    {
      caret <= |text|
    }

    constructor ()
      ensures Valid() && text == "" && caret == 0
    {
      text := "";
      caret := 0;
    }

    /** `setPlainText(s)`: the text is replaced and the caret goes to the
        start. */
    method SetPlainText(s: string)
      modifies this
      ensures Valid() && text == s && caret == 0
    {
      text := s;
      caret := 0;
    }

    /** The user places the caret. */
    method PlaceCaret(pos: nat)
      requires Valid() && pos <= |text|
      modifies this
      ensures Valid() && text == old(text) && caret == pos
    {
      caret := pos;
    }

    /** A printable key, handled by the default key handling: the text goes
        in at the caret. */
    method TypeText(t: string)
      requires Valid()
      modifies this
      ensures Valid()
      ensures text == InsertAt(old(text), old(caret), t) && caret == old(caret) + |t|
    {
      text := InsertAt(text, caret, t);
      caret := caret + |t|;
    }

    /** `keyPressEvent` for Return: insert a line feed and the indentation
        of the current line, four more spaces after a colon. */
    method PressReturn()
      requires Valid()
      modifies this
      ensures Valid()
      ensures text == AfterReturn(old(text), old(caret))
      ensures caret == old(caret) + |ReturnInsertion(old(text), old(caret))|
      ensures BlockCount(text) == BlockCount(old(text)) + 1
    {
      var line := CurrentLine(text, caret);
      var ins := BreakIndent(line);
      ReturnAddsOneBlock(text, caret);
      text := InsertAt(text, caret, ins);
      caret := caret + |ins|;
    }
  }

  /** Return at the end of a one-line text appends that line's indentation. */
  lemma ReturnAtEndOfLine(s: string)
    requires '\n' !in s
    ensures ReturnInsertion(s, |s|) == BreakIndent(s)
    ensures AfterReturn(s, |s|) == s + BreakIndent(s)
  {
    LineStartIs(s, |s|, 0);
    assert s[0..|s|] == s;
    InsertAtEnd(s, BreakIndent(s));
  }
}
