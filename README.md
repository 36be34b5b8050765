# M Code Editor — a verified model of its editing logic

M Code Editor is a small PySide6 code editor. Its main window shows three things:

- a file tree;
- a Python-highlighting editor pane with a line-number gutter;
- a terminal pane over a shell process.

This project models in Dafny the logic these widgets run themselves, with Qt replaced by plain values (strings, sequences, integers and an enum of character formats):

- **Auto-indent on Return** (`CodeEditor.keyPressEvent`). Return inserts a line feed, one space per leading whitespace character of the current line, and four more spaces when the stripped line ends with a colon. Modules: `Indent`, and `Editor` for the editing pane as a class.
- **The gutter** (`line_number_area_width`, `line_number_area_paint_event`). The gutter reserves a margin plus one glyph advance per decimal digit of the block count. The paint loop walks the blocks and labels every visible block that reaches into the redraw rectangle. Module: `Gutter`.
- **Syntax highlighting** (`PythonHighlighter`). The 44 rules are applied in order. Each rule paints every non-overlapping match of its pattern into a per-character format array. Where rules overlap, the later rule wins. Modules:
  - `Highlighter`: the patterns, the global search, the rule list, and `highlightBlock` over an array;
  - `HighlighterFacts`: what each kind of pattern covers;
  - `HighlighterExamples`: what the rule order does to `def`, numbers in comments and class headers.
- **The terminal** (`TerminalWidget`). Output, error and finish handlers insert text at the caret and move it to the end. Return reads the stripped last line as the command, echoes a line feed and makes exactly one write to the process. Module: `Terminal`, a class with its scrollback, caret and the sequence of writes.
- **The main window's guards** (`MainWindow`). Only the decisions the window takes itself are modelled: which tree entries open, the run pre-checks, the terminal toggle, and where a run's output goes. Module: `Window`.
- **Shared helpers.** `PyStr` covers the Python string operations used: `isspace`, `lstrip`, `strip`, `endswith` and `str(n)`. `TextBuffer` covers the plain-text document: inserting at a caret, block count, and the line under the caret. `Wrappers` holds `Option`.

## How the code differs from a plain reading

- **Indentation is always spaces.** The editor counts leading whitespace with `len(text) - len(text.lstrip())` and always re-emits it as spaces, so a tab becomes one space (`Indent.TabBecomesSpace`). It does not copy the indentation verbatim.
- **Terminal text goes in at the caret.** `insertPlainText` inserts at the widget's caret, not at the end of the scrollback. The handlers then move the caret to the end. So the text is appended only when the caret was already at the end, which is the `old(AtEnd()) ==> …` clause.
- **Return in the terminal does not move the caret to the end.** Return moves only a copy of the cursor to the end, so the echoed line feed goes in at the widget's own caret, and that caret moves just past it. The model keeps that.
- **No liveness check.** Nothing checks whether the process is still alive before writing to it, and the model adds no such check.
- **Positions in the highlighter.** Positions are computed on the block's own text, as Qt hands each block to `highlightBlock`. A block's text holds no line feed, so `.` matches every character in every pattern.

## Model

| member | source | states |
|---|---|---|
| PyStr.IsSpace | main.py:273 | the whitespace `str.isspace` accepts: TAB to CR, FS to US, SPACE, NEL, NO-BREAK SPACE and the Unicode space separators (a predicate; `LStrip` and `Strip` are stated in its terms) |
| PyStr.LStrip | main.py:273 | `lstrip` removes the longest all-whitespace prefix: the result is a suffix, everything removed is whitespace, and the result does not start with whitespace |
| PyStr.Strip | main.py:276 | `strip` never lengthens its input; `StripSlice`, `StripOf` and `StripBlank` say which slice it keeps |
| PyStr.EndsWith | main.py:276 | `s.endswith(suffix)`: the suffix fits and is the tail of `s` (a predicate; `Window.EndsWithSplit` states it as a concatenation) |
| PyStr.StripSlice | main.py:276 | `strip` keeps the slice right after the `lstrip` prefix; it is empty or starts and ends with non-whitespace, and only whitespace follows it |
| PyStr.StripOf | main.py:276 | a slice that is empty or starts and ends with non-whitespace, with only whitespace around it, is exactly `strip(s)` |
| PyStr.StripBlank | main.py:276 | a whitespace-only string strips to the empty string |
| PyStr.StripEndsWith | main.py:276 | `s.strip().endswith(c)` holds exactly when `c` is the last non-whitespace character of `s` |
| PyStr.DecimalString | main.py:203 | `str(n)` is a non-empty string of decimal digits with no leading zero unless `n` is 0 |
| PyStr.ParseDecimalString | main.py:203 | reading the digits of `str(n)` back gives `n` |
| PyStr.DecimalLength | main.py:203 | `len(str(n))` is the `d` with `10^(d-1) <= n < 10^d` |
| PyStr.DecimalLengthMonotone | main.py:203 | a larger number never has fewer digits |
| Indent.Spaces | main.py:274 | `' ' * n` is `n` characters, every one a space |
| Indent.BreakIndent | main.py:270-278 | the inserted text is a line feed followed only by spaces; their count is the line's leading-whitespace count, plus four exactly when the last non-whitespace character is a colon |
| Indent.BreakIndentIs | main.py:273-278 | given the leading-whitespace count `n`, the inserted text is exactly a line feed and `n` (+4 after a colon) spaces |
| Indent.DefOpensBlock | main.py:276-277 | `def foo():` gets a line feed and four spaces |
| Indent.TabBecomesSpace | main.py:273-277 | a leading tab counts as one and comes out as one space; a colon is found past trailing blanks |
| Indent.BlankLineKeepsIndent | main.py:273-277 | a line of `n` spaces gets a line feed and `n` spaces |
| Gutter.LineNumberAreaWidth | main.py:202-204 | with a non-negative advance the width is at least the margin of 10 plus one advance |
| Gutter.WidthMonotone | main.py:202-204 | the width never decreases as the block count grows |
| Gutter.WidthDigits | main.py:203-204 | for `n >= 1` blocks the width is `10 + advance * d`, with `d` the number of decimal digits of `n` |
| Gutter.EveryNumberFits | main.py:203-204 | every line number from 1 to `max(1, n)` is no wider than the digit space reserved |
| Gutter.HeightAt | main.py:236-253 | the height of a valid block is its own height; the invalid block past the last one has height 0 |
| Gutter.PaintLineNumbers | main.py:227-254 | the loop produces the walk's labels, ascending, and a label is produced exactly when `Painted` holds: the 1-based number of a visible block, drawn at the first top plus the heights before it, while that top is not below the rectangle and the block's bottom reaches its top |
| Gutter.Walk | main.py:238-254 | the loop as a recursion over the blocks (no contract of its own; `WalkAscending`, `WalkPainted` and `PaintLineNumbers` state what it produces) |
| Gutter.WalkPainted | main.py:231-254 | a label is in the walk exactly when it is `Painted` |
| Gutter.WalkAscending | main.py:238-254 | the walk's numbers strictly increase and lie between the first block and the block count |
| TextBuffer.InsertAt | main.py:313 | inserting at the caret keeps the text before the caret, then the inserted text, then the rest |
| TextBuffer.InsertAtEnd | main.py:313-314 | with the caret at the end, inserting is appending |
| TextBuffer.CountInsert | main.py:278 | inserting adds exactly the inserted text's occurrences of a character |
| TextBuffer.BlockCount | main.py:203 | a document has at least one block |
| TextBuffer.LineStart | main.py:271-272 | the line start is at or before the caret, follows a line feed or is 0, and no line feed lies between it and the caret |
| TextBuffer.LineEnd | main.py:271-272 | the line end is at or after the caret, is a line feed or the end, and no line feed lies between the caret and it |
| TextBuffer.CurrentLine | main.py:271-272 | the current block's text holds no line feed |
| Highlighter.IsWordChar | main.py:79-141 | `\w` under the default ASCII semantics: letters, digits and underscore (a predicate) |
| Highlighter.IsDigit | main.py:113 | `\d` under the default ASCII semantics: `0` to `9` (a predicate) |
| Highlighter.IsRegexSpace | main.py:132 | `\s`: space and tab to carriage return (a predicate) |
| Highlighter.Boundary | main.py:79-138 | `\b`: a word character on exactly one side of the position, the text's ends counting as non-word (a predicate) |
| Highlighter.MatchAt | main.py:78-143 | a match of any rule pattern is non-empty and lies inside the text |
| Highlighter.RunEnd | main.py:113-143 | the run of `\d`, `\s` or `\w` characters from `i` is maximal |
| Highlighter.LastIndex | main.py:93-94 | the last occurrence of the quote, or none at all |
| Highlighter.LastTripleBefore | main.py:98-103 | the last start of three quotes, or none at all |
| Highlighter.Keywords | main.py:45-77 | the 31 keywords in list order (a constant; `RuleIndices` and `WordCovers` state what the rules built from it do) |
| Highlighter.KeywordRules | main.py:78-81 | one `\bkw\b` rule per keyword with the keyword format, in list order |
| Highlighter.GlobalMatch | main.py:147-149 | the `globalMatch` iteration over a match function (no contract of its own; `GlobalMatchSound`, `GlobalMatchSkip` and `GlobalMatchFinds` characterise it) |
| Highlighter.Scan | main.py:147-149 | `pattern.globalMatch(text)` from a position (no contract of its own; characterised through `GlobalMatch` and, per pattern, in `HighlighterFacts`) |
| Highlighter.GlobalMatchSound | main.py:147-149 | every span `globalMatch` reports is a match at its start, and the spans are in order and disjoint |
| Highlighter.GlobalMatchSkip | main.py:147-149 | the search steps over positions where nothing matches |
| Highlighter.GlobalMatchFinds | main.py:147-149 | a match is reported whenever no earlier match reaches over its start |
| Highlighter.Paint | main.py:150 | one `setFormat` on a span keeps the length, gives the span's positions the format and leaves every other position as it was |
| Highlighter.Highlight | main.py:145-150 | running every rule in order keeps one format per character; `LastWriterWins` and `UnmatchedIsDefault` say which |
| Highlighter.PaintAll | main.py:148-150 | painting a rule's spans in order keeps one format per character; `PaintAllAt` says which, and `PaintMatches` is proved to compute it |
| Highlighter.TailRules | main.py:83-141 | the 13 rules appended after the keywords, in order, each with its format (a constant) |
| Highlighter.PythonRules | main.py:78-141 | `self.highlighting_rules`: the keyword rules followed by the tail rules (a constant; `RuleIndices` fixes its length and the entries the examples use) |
| Highlighter.PaintAllAt | main.py:148-150 | after painting a rule's matches, a character has the rule's format if a match covers it and keeps its old format otherwise |
| Highlighter.LastWriterWins | main.py:145-150 | a character covered by rule `j` and by no later rule ends with rule `j`'s format |
| Highlighter.UnmatchedIsDefault | main.py:145-150 | a character no rule covers keeps the default format |
| Highlighter.SetFormat | main.py:150 | `setFormat(start, count, f)` paints `f` on `[start, start+count)` cut to the text, and leaves everything else as it was |
| Highlighter.PaintMatches | main.py:147-150 | the inner loop leaves the buffer painted with the rule's format on exactly the reported matches |
| Highlighter.HighlightBlock | main.py:145-150 | the buffer after all rules equals `Highlight(rules, text)`, which `LastWriterWins` and `UnmatchedIsDefault` characterise |
| HighlighterFacts.CoveredByMatch | main.py:147-150 | a covered character lies inside a match starting at or before it |
| HighlighterFacts.MatchCovers | main.py:147-150 | a match that no earlier match reaches over covers every character it spans |
| HighlighterFacts.WordMatch | main.py:79 | `\bkw\b` matches at `t` exactly when `kw` occurs there between word boundaries |
| HighlighterFacts.WordsDoNotOverlap | main.py:79 | two boundary-delimited occurrences of a word never overlap |
| HighlighterFacts.WordCovers | main.py:79-88 | a keyword rule covers a character exactly when the character lies in an occurrence of the word between word boundaries |
| HighlighterFacts.DefineIsNotDef | main.py:79 | `define` gets nothing from the `\bdef\b` rule |
| HighlighterFacts.QuotedScan | main.py:93-94 | the search for `".*"` reports one span from the first quote to the last, or nothing with fewer than two quotes |
| HighlighterFacts.QuotedCovers | main.py:93-94 | the string rule covers a character exactly when two quotes enclose it |
| HighlighterFacts.CommentCovers | main.py:108 | `#.*` covers a character exactly when a `#` comes at or before it |
| HighlighterFacts.NumberMatch | main.py:113 | a maximal digit run with no word character on either side is a match of `\b\d+\b` |
| HighlighterFacts.IntegerCovers | main.py:113 | `\b\d+\b` covers a character exactly when it lies in such a run |
| HighlighterFacts.RunEndIs | main.py:113-141 | a run of characters of one class that stops at `e` is the run the pattern's `\d+`, `\s+` or `\w+` consumes |
| HighlighterFacts.FirstTriple | main.py:98-103 | the first start of three quotes at or after a position, or none at all |
| HighlighterFacts.TripleQuotedScan | main.py:98-103 | the search for `""".*"""` (or `'''.*'''`) reports one span from the first three quotes to the end of the last three, or nothing when those overlap or are missing |
| HighlighterFacts.TripleScanFrom | main.py:98-103 | from the first three quotes the search reports the span to the end of the last three and nothing after it |
| HighlighterFacts.TripleQuotedCovers | main.py:98-103 | the rule covers a character exactly when it lies between the start of three quotes and the end of three later, non-overlapping ones |
| HighlighterFacts.ClassHeaderMatch | main.py:132 | `class` at a word boundary, whitespace, then a maximal word run is a match of `\bclass\s+(\w+)` ending after the word |
| HighlighterFacts.ClassHeaderMatched | main.py:132 | every match of that pattern is such a header |
| HighlighterFacts.HeaderInsideHeader | main.py:132 | a header that reaches over the start of another has that second `class` as its name |
| HighlighterFacts.EarlierHeaderEnds | main.py:132 | any match starting earlier ends before a header whose `class` is not an earlier header's name |
| HighlighterFacts.ClassHeaderCovers | main.py:132 | the class rule covers a character only inside a class header |
| HighlighterFacts.ClassHeaderCovered | main.py:132 | the class rule covers all of every header whose `class` is not the name of an earlier header (in `class class Foo`, `Foo` stays uncovered) |
| HighlighterFacts.DecoratorMatch | main.py:141 | `@` followed by a maximal word run is a match of `@\w+` |
| HighlighterFacts.AtNameCovers | main.py:141 | the decorator rule covers a character exactly when it lies in `@` followed by a run of word characters |
| HighlighterExamples.MatchStartsWithLead | main.py:78-143 | a match starts with the character its pattern begins with |
| HighlighterExamples.LeadAbsent | main.py:78-143 | a pattern whose leading character is absent from the text covers nothing |
| HighlighterExamples.WordLetterAbsent | main.py:79-138 | a word with a letter absent from the text covers nothing |
| HighlighterExamples.RuleIndices | main.py:78-143 | the rule list has 44 rules in source order: `class` and `def` keywords at 4 and 6, then number, function, print, class, self and decorator rules at 38-43 |
| HighlighterExamples.DefRuleWins | main.py:118-120 | where `\bdef\b` matches and no later rule does, the function format wins over the keyword format |
| HighlighterExamples.NumberRuleWins | main.py:106-113 | where `\b\d+\b` matches and no later rule does, the number format wins, also inside comments and strings |
| HighlighterExamples.ClassRuleWins | main.py:128-133 | where the class header matches and neither `self` nor a decorator does, the class format wins |
| HighlighterExamples.LaterRulesAbsent | main.py:122-143 | in a text with no `p`, `c`, `s` or `@`, the rules after the function rule cover nothing |
| HighlighterExamples.ClassLaterRulesAbsent | main.py:135-143 | in a text with no `e` or `@`, the `self` and decorator rules cover nothing |
| HighlighterExamples.DefIsFunction | main.py:118-120 | in `def foo():` the word `def` ends up in the function format |
| HighlighterExamples.CommentDigitsAreNumbers | main.py:106-113 | in `# 42` the digits end up in the number format |
| HighlighterExamples.ClassHeaderWins | main.py:128-133 | in `class Foo` every character, `class` included, ends up in the class format |
| Terminal.LastLine | main.py:329-330 | the last line is the suffix after the last line feed: it holds no line feed and is preceded by one, or is the whole text |
| Terminal.Command | main.py:328-331 | the command is the stripped last line and holds no line feed |
| Terminal.Submission | main.py:333-336 | what is written ends in a line feed, and everything before it is the command, for an empty command too |
| Terminal.SubmissionIsOneLine | main.py:332-336 | both branches write the command followed by one line feed, and that is the only line feed written |
| Terminal.SubmitLs | main.py:331-334 | `ls` on the last line is written as `ls\n` |
| Terminal.LsCommand | main.py:328-331 | the command read from `total 0` then `  ls ` is `ls` |
| Terminal.SubmitBlank | main.py:335-336 | a blank last line writes a bare line feed |
| Terminal.Terminal.constructor | main.py:288-306 | the terminal starts empty, with the caret at the end and nothing written |
| Terminal.Terminal.InsertPlainText | main.py:313 | the text is inserted at the caret and the caret moves past it |
| Terminal.Terminal.MoveToEnd | main.py:314 | the caret moves to the end and nothing else changes |
| Terminal.Terminal.PlaceCaret | main.py:338 | the user places the caret anywhere in the scrollback; nothing else changes |
| Terminal.Terminal.TypeText | main.py:337-338 | any other key's text goes in at the caret |
| Terminal.Terminal.ReadOutput | main.py:311-314 | an output chunk is inserted at the caret (appended if the caret was at the end) and the caret ends at the end |
| Terminal.Terminal.ReadError | main.py:316-319 | an error chunk is handled exactly like output |
| Terminal.Terminal.ProcessFinished | main.py:321-323 | the finish notice `\n[Process finished]\n` is inserted the same way |
| Terminal.Terminal.PressReturn | main.py:325-336 | a line feed is echoed at the caret, and exactly one write is added: the submission for the stripped last line of the scrollback before the echo |
| Terminal.OutputThenError | main.py:311-319 | output `a` then error `b` leaves `ab` with the caret at the end |
| Terminal.TypeAndSubmit | main.py:311-336 | output, typed `ls` and Return write `ls\n`; finishing then appends the notice after the echo |
| Editor.ReturnInsertion | main.py:270-278 | what Return inserts is a line feed followed only by spaces |
| Editor.AfterReturn | main.py:278 | the text after Return is what was before the caret, then exactly `ReturnInsertion`, then what was after the caret |
| Editor.InsertionHasOneLineFeed | main.py:278 | it holds exactly one line feed |
| Editor.ReturnAddsOneBlock | main.py:278 | Return adds exactly one block to the document |
| Editor.ReturnKeepsGutter | main.py:193-204 | so the gutter never gets narrower on Return |
| TextBuffer.LineStartIs | main.py:271-272 | the line start is the position after the last line feed before the caret |
| TextBuffer.InsertedLineStart | main.py:278 | a line feed followed by spaces starts a line right after that line feed |
| Editor.ReturnIndentsNewLine | main.py:278 | after Return the caret's line starts right after the line feed, and everything on it before the caret is the inserted indentation |
| Editor.ReturnAtEndOfLine | main.py:270-278 | Return at the end of a one-line text appends that line's indentation |
| Editor.CodeEditor.constructor | main.py:175-198 | the editor starts empty with the caret at 0 |
| Editor.CodeEditor.SetPlainText | main.py:460 | `setPlainText` replaces the text and puts the caret at the start |
| Editor.CodeEditor.PlaceCaret | main.py:281 | the user places the caret anywhere in the text; the text is unchanged |
| Editor.CodeEditor.TypeText | main.py:280-281 | any other key's text goes in at the caret |
| Editor.CodeEditor.PressReturn | main.py:268-279 | Return inserts `ReturnInsertion` at the caret, moves the caret past it, and adds one block |
| Window.HasOpenableSuffix | main.py:455 | `path.endswith((".py", ".txt", ".html"))` (a predicate; `OpenableIff` states it as a name followed by one of the suffixes) |
| Window.OpenableIff | main.py:455 | a path opens exactly when it is some name followed by `.py`, `.txt` or `.html` |
| Window.EndsWithSplit | main.py:455 | `s.endswith(x)` holds exactly when `s` is some text followed by `x` |
| Window.SuffixExamples | main.py:455 | `main.py` and `index.html` open; `main.pyc`, `README.md` and `MAIN.PY` do not |
| Window.RunPrecheck | main.py:563-569 | no file only for a missing or empty path; runnable only for a path ending in `.py` |
| Window.RunPrecheckIff | main.py:562-569 | a file runs exactly when there is a non-empty path ending in `.py`; there is no file exactly when the path is missing or empty; a runnable path is one the tree opens |
| Window.MainWindow.constructor | main.py:345-382 | the window starts with the title `M Code Editor`, no current file, the terminal hidden and nothing expanded |
| Window.MainWindow.OpenTerminal | main.py:526-530 | the terminal's visibility flips and nothing else changes |
| Window.MainWindow.OpenFile | main.py:445-466 | a folder is expanded or collapsed; another suffix is ignored; an unreadable file changes nothing; otherwise the contents fill the editor, the caret goes to 0, and the path becomes current and goes in the title |
| Window.MainWindow.RunCurrentFile | main.py:562-581 | no path warns `No file opened`; a non-`.py` path warns `Only Python files supported`; a failing run changes nothing; otherwise the terminal is shown, stdout + stderr + `\n` is inserted at its caret, and the caret ends at the end |
| Window.OpenAndRun | main.py:445-578 | opening `main.py` and running it shows the terminal with the program's output |

## Left out

- Qt widget machinery: painting, fonts, colours, stylesheets, splitters, the toolbar and viewport margins. Font metrics are integer parameters (`advance`, block heights), and formats are an enum with one value per format the highlighter's constructor builds, the two string formats merged into one.
- `QProcess` startup and signal wiring (main.py:301-309). Each handler is a method on the terminal, called in the order its signal arrives.
- `bytes.decode()` on the process's output (main.py:312, 317). Chunks come in as already-decoded strings; invalid UTF-8 is not modelled.
- `open_file_dialog`, `open_folder_dialog`, `save_file`, `save_file_as`, `new_file` and `new_folder`: file I/O and dialogs with no logic beyond it.
- Window.MainWindow.OpenFile: the file's contents come in as a parameter (`None` when reading fails). The error dialog is not shown. The tree selection and the `QFileSystemModel` are reduced to a set of expanded folders.
- Window.MainWindow.RunCurrentFile: `subprocess.run` is outside the model. Its stdout and stderr come in as a parameter (`None` when it raises). Warnings are returned as values rather than shown in message boxes.
- The current-line highlight (main.py:258-264): a single `ExtraSelection` handed to Qt.
- `update_line_number_area`, `resizeEvent` and `sizeHint`: geometry bookkeeping.
- General regular expressions. Only the patterns the rule list uses are modelled. `DotMatchesEverythingOption` makes no difference because a block's text holds no line feed.
- Highlighter: positions count Unicode scalar values. Qt counts UTF-16 code units, so text outside the Basic Multilingual Plane is not modelled.
- TextBuffer.BlockCount: Qt's `insertText` and `setPlainText` also start a new block at a carriage return, at a carriage return followed by a line feed (one break for the pair) and at U+2029. The model breaks lines at line feeds only, so `a\rb` is one block here and two in Qt.
- TextBuffer.CurrentLine: for the same reason, the line under the caret extends past a carriage return or U+2029, where Qt's block would end.
- Terminal.LastLine: the last line is what follows the last line feed. Qt would also end it at a carriage return or U+2029, so after output `50%\r`, typing `ls` and Return, the source writes `ls\n` and the model writes `50%\rls\n`.
- Terminal.Command: the command inherits that difference from `LastLine`.
- Terminal.Command: `LineUnderCursor` selects a visual line. The model takes the last logical line, as an unwrapped pane shows it.
- Selections: `insertText` and `insertPlainText` replace the selected text, if any. Neither pane has a selection in the model, so Return in the editor (main.py:278) and the terminal's inserts (main.py:313, 318, 322, 332) always insert without deleting.
- Terminal.Terminal.TypeText and Editor.CodeEditor.TypeText: the default key handling is modelled only as typing text at the caret. Selections, deletion and navigation keys are not modelled.
- Re-running the highlighter on the same text gives the same array. This holds by construction, because `Highlight` is a function of the rules and the text, so there is no lemma for it.
- menubar.py: menu and action wiring only.
