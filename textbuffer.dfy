/** The plain-text buffer behind `QPlainTextEdit`: a string whose lines are
    separated by line feeds, edited by inserting text at a caret. Qt also
    starts a new block at a carriage return, at a carriage return followed
    by a line feed (one break for the pair) and at U+2029; here only the
    line feed separates lines. */
module TextBuffer {

  /** `insertPlainText(t)` with the caret at `at`: `t` goes between the text
      before the caret and the text after it. */
  function InsertAt(s: string, at: nat, t: string): (r: string)
    requires at <= |s|
    ensures |r| == |s| + |t|
    ensures r[..at] == s[..at] && r[at..at + |t|] == t && r[at + |t|..] == s[at..]
  {
    s[..at] + t + s[at..]
  }

  /** With the caret at the end, inserting is appending. */
  lemma InsertAtEnd(s: string, t: string)
    ensures InsertAt(s, |s|, t) == s + t
  {
    assert s[..|s|] == s;
  }

  /** The number of `c`s in `s`. */
  function Count(s: string, c: char): nat
    decreases |s|
  {
    if s == [] then 0 else (if s[0] == c then 1 else 0) + Count(s[1..], c)
  }

  lemma {:induction false} CountConcat(a: string, b: string, c: char)
    ensures Count(a + b, c) == Count(a, c) + Count(b, c)
    decreases |a|
  {
    if a == [] {
      assert a + b == b;
    } else {
      assert (a + b)[1..] == a[1..] + b;
      CountConcat(a[1..], b, c);
    }
  }

  /** Inserting `t` adds exactly the `c`s of `t`. */
  lemma CountInsert(s: string, at: nat, t: string, c: char)
    requires at <= |s|
    ensures Count(InsertAt(s, at, t), c) == Count(s, c) + Count(t, c)
  {
    CountConcat(s[..at] + t, s[at..], c);
    CountConcat(s[..at], t, c);
    CountConcat(s[..at], s[at..], c);
    assert s[..at] + s[at..] == s;
  }

  /** A string without `c` counts none. */
  lemma {:induction false} CountAbsent(s: string, c: char)
    requires c !in s
    ensures Count(s, c) == 0
    decreases |s|
  {
    if s != [] {
      CountAbsent(s[1..], c);
    }
  }

  /** `QTextDocument.blockCount()` for text that breaks lines at line feeds
      only: one block more than there are line feeds. */
  function BlockCount(s: string): (n: nat)
    ensures n >= 1
  {
    Count(s, '\n') + 1
  }

  /** The start of the line holding the caret: just after the last line feed
      before it, or the start of the text. */
  function LineStart(s: string, at: nat): (i: nat)
    requires at <= |s|
    ensures i <= at && (i == 0 || s[i - 1] == '\n')
    ensures forall k :: i <= k < at ==> s[k] != '\n'
  {
    if at == 0 || s[at - 1] == '\n' then at else LineStart(s, at - 1)
  }

  /** The end of the line holding the caret: the first line feed at or after
      it, or the end of the text. */
  function LineEnd(s: string, at: nat): (j: nat)
    requires at <= |s|
    ensures at <= j <= |s| && (j == |s| || s[j] == '\n')
    ensures forall k :: at <= k < j ==> s[k] != '\n'
    decreases |s| - at
  {
    if at == |s| || s[at] == '\n' then at else LineEnd(s, at + 1)
  }

  /** `textCursor().block().text()`: the line holding the caret. */
  function CurrentLine(s: string, at: nat): (line: string)
    requires at <= |s|
    ensures '\n' !in line
  {
    s[LineStart(s, at)..LineEnd(s, at)]
  }

  /** The line start is the position after the last line feed before the
      caret. */
  lemma {:induction false} LineStartIs(s: string, at: nat, i: nat)
    requires i <= at <= |s| && (i == 0 || s[i - 1] == '\n')
    requires forall k :: i <= k < at ==> s[k] != '\n'
    ensures LineStart(s, at) == i
    decreases at - i
  {
    if i < at {
      LineStartIs(s, at - 1, i);
    }
  }

  /** Inserting a line feed followed by a run without line feeds starts a
      line right after that line feed. */
  lemma InsertedLineStart(s: string, at: nat, ins: string)
    requires at <= |s| && |ins| >= 1 && ins[0] == '\n' && '\n' !in ins[1..]
    ensures LineStart(InsertAt(s, at, ins), at + |ins|) == at + 1
    ensures InsertAt(s, at, ins)[at + 1..at + |ins|] == ins[1..]
  {
    var r := InsertAt(s, at, ins);
    assert r[at..at + |ins|] == ins;
    assert r[at] == '\n';
    assert forall k :: at + 1 <= k < at + |ins| ==> r[k] == ins[1..][k - at - 1];
    LineStartIs(r, at + |ins|, at + 1);
  }
}
