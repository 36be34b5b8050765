/** The auto-indent rule of `CodeEditor.keyPressEvent`: on Return the editor
    inserts a line break followed by the current line's indentation, one
    space per leading whitespace character, and four more spaces when the
    stripped line ends with a colon. */
module Indent {
  import opened PyStr

  /** `n` spaces, Python's `' ' * n`. */
  function Spaces(n: nat): (s: string)
    ensures |s| == n && forall k :: 0 <= k < n ==> s[k] == ' '
  {
    seq(n, _ => ' ')
  }

  /** The extra indentation unit added after a line ending in a colon. */
  const IndentUnit: string := "    "

  /** `n` is the length of the longest all-whitespace prefix of `line`. */
  ghost predicate IsLeadingWhitespace(line: string, n: nat) {
    && n <= |line|
    && (forall k :: 0 <= k < n ==> IsSpace(line[k]))
    && (n == |line| || !IsSpace(line[n]))
  }

  /** The text inserted at the caret when Return is pressed on a block whose
      text is `line`. It is a newline followed by spaces only: as many as
      `line` has leading whitespace characters (tabs included, each becoming
      one space), plus four exactly when the last non-whitespace character of
      `line` is a colon. */
  function BreakIndent(line: string): (ins: string)
    ensures |ins| >= 1 && ins[0] == '\n'
    ensures forall k :: 1 <= k < |ins| ==> ins[k] == ' '
    ensures var extra := if LastNonSpaceIs(line, ':') then |IndentUnit| else 0;
      |ins| >= 1 + extra && IsLeadingWhitespace(line, |ins| - 1 - extra)
  {
    StripEndsWith(line, ':');
    var indent := |line| - |LStrip(line)|;
    var indentStr := Spaces(indent) + (if EndsWith(Strip(line), ":") then IndentUnit else "");
    "\n" + indentStr
  }

  /** The inserted text is fully determined by the leading-whitespace count
      and the colon test. */
  lemma {:induction false} BreakIndentIs(line: string, n: nat)
    requires IsLeadingWhitespace(line, n)
    ensures BreakIndent(line) == "\n" + Spaces(n + if LastNonSpaceIs(line, ':') then |IndentUnit| else 0)
  {
    var extra := if LastNonSpaceIs(line, ':') then |IndentUnit| else 0;
    var ins := BreakIndent(line);
    var m := |ins| - 1 - extra;
    assert IsLeadingWhitespace(line, m);
    LeadingWhitespaceUnique(line, m, n);
    assert ins == "\n" + Spaces(n + extra);
  }

  lemma {:induction false} LeadingWhitespaceUnique(line: string, m: nat, n: nat)
    requires IsLeadingWhitespace(line, m) && IsLeadingWhitespace(line, n)
    ensures m == n
  {
  }

  /** A line that opens a block gets one unit more than its own indentation. */
  lemma DefOpensBlock()
    ensures BreakIndent("def foo():") == "\n" + IndentUnit
  {
    assert LStrip("def foo():") == "def foo():";
  }

  /** A tab is counted as one character of indentation and re-emitted as a
      single space; the colon is found past trailing blanks. */
  lemma TabBecomesSpace()
    ensures BreakIndent("\tif x:  ") == "\n" + Spaces(5)
  {
    var line := "\tif x:  ";
    ColonBeforeBlanks();
    assert IsSpace(line[0]) && !IsSpace(line[1]);
    BreakIndentIs(line, 1);
  }

  lemma ColonBeforeBlanks()
    ensures LastNonSpaceIs("\tif x:  ", ':')
  {
    var line := "\tif x:  ";
    assert line[5] == ':' && IsSpace(line[6]) && IsSpace(line[7]);
  }

  /** A whitespace-only line keeps its whole length as indentation. */
  lemma BlankLineKeepsIndent(n: nat)
    ensures BreakIndent(Spaces(n)) == "\n" + Spaces(n)
  {
    var ins := BreakIndent(Spaces(n));
    assert !LastNonSpaceIs(Spaces(n), ':');
    assert |ins| == 1 + n;
  }
}
