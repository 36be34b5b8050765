/** `PythonHighlighter`: an ordered list of (pattern, format) rules applied to
    the text of one block. For each rule in turn every match of its pattern
    (a global, non-overlapping, left-to-right search) is painted into a
    per-character format buffer, so where rules overlap the later rule wins.

    Only the concrete patterns the rule list uses are modelled. They follow
    QRegularExpression's defaults: `\w`, `\d` and `\s` are ASCII classes.
    A block's text never contains a line feed, so `.` matches every
    character and the dot-matches-everything option makes no difference. */
module Highlighter {
  import opened Wrappers

  /** One value per character format the highlighter builds. */
  datatype Format =
    | Default        // the block's own format: no rule matched
    | Keyword        // blue, bold
    | SpecialKeyword // purple, bold: `if` and `while`
    | StringLiteral  // orange: single-line and triple-quoted strings
    | Comment        // green
    | Number         // light green
    | Function       // yellow: `def`
    | Print          // yellow: `print`
    | ClassName      // teal: `class Name`
    | SelfRef        // purple: `self`
    | Decorator      // light yellow: `@name`

  /** The regular expressions the rule list uses. */
  datatype Pattern =
    | Word(w: string)        // \b w \b
    | Quoted(q: char)        // q.*q, greedy
    | TripleQuoted(q: char)  // qqq.*qqq, greedy, dot matches everything
    | LineComment            // #.*
    | Integer                // \b\d+\b
    | ClassHeader            // \bclass\s+(\w+)
    | AtName                 // @\w+

  datatype Rule = Rule(pattern: Pattern, format: Format)

  /** A match: `len` characters from `start`. */
  datatype Span = Span(start: nat, len: nat)

  /** `\w` */
  predicate IsWordChar(c: char) {
    ('a' <= c <= 'z') || ('A' <= c <= 'Z') || ('0' <= c <= '9') || c == '_'
  }

  /** `\d` */
  predicate IsDigit(c: char) {
    '0' <= c <= '9'
  }

  /** `\s`: space, tab, line feed, vertical tab, form feed, carriage return. */
  predicate IsRegexSpace(c: char) {
    c == ' ' || ('\t' <= c <= '\r')
  }

  /** `\b` at position `i`: a word character on exactly one side. */
  predicate Boundary(text: string, i: nat)
    requires i <= |text|
  {
    (i > 0 && IsWordChar(text[i - 1])) != (i < |text| && IsWordChar(text[i]))
  }

  /** The end of the longest run of characters satisfying `p` from `i`. */
  function RunEnd(text: string, i: nat, p: char -> bool): (j: nat)
    requires i <= |text|
    ensures i <= j <= |text|
    ensures forall k :: i <= k < j ==> p(text[k])
    ensures j == |text| || !p(text[j])
    decreases |text| - i
  {
    if i < |text| && p(text[i]) then RunEnd(text, i + 1, p) else i
  }

  /** The index of the last `c` in `text`. */
  function LastIndex(text: string, c: char): (r: Option<nat>)
    ensures r.Some? ==> r.value < |text| && text[r.value] == c
    ensures r.Some? ==> forall k :: r.value < k < |text| ==> text[k] != c
    ensures r.None? ==> forall k :: 0 <= k < |text| ==> text[k] != c
  {
    if text == [] then None
    else if text[|text| - 1] == c then Some(|text| - 1)
    else LastIndex(text[..|text| - 1], c)
  }

  /** Three `q` characters start at `j`. */
  predicate TripleAt(text: string, q: char, j: nat) {
    j + 3 <= |text| && text[j] == q && text[j + 1] == q && text[j + 2] == q
  }

  /** The last start of three `q`s below `n`. */
  function LastTripleBefore(text: string, q: char, n: nat): (r: Option<nat>)
    ensures r.Some? ==> r.value < n && TripleAt(text, q, r.value)
    ensures r.Some? ==> forall k :: r.value < k < n ==> !TripleAt(text, q, k)
    ensures r.None? ==> forall k :: 0 <= k < n ==> !TripleAt(text, q, k)
  {
    if n == 0 then None
    else if TripleAt(text, q, n - 1) then Some(n - 1)
    else LastTripleBefore(text, q, n - 1)
  }

  /** The length of the match of `p` that starts exactly at `i`, the one a
      backtracking matcher finds first (greedy quantifiers take as much as
      still lets the rest match), or `None` if no match starts at `i`. */
  function MatchAt(p: Pattern, text: string, i: nat): (m: Option<nat>)
    ensures m.Some? ==> 1 <= m.value && i + m.value <= |text|
  {
    if i >= |text| then None
    else match p
      case Word(w) =>
        if 0 < |w| && i + |w| <= |text| && text[i..i + |w|] == w
           && Boundary(text, i) && Boundary(text, i + |w|)
        then Some(|w|) else None
      case Quoted(q) =>
        if text[i] != q then None
        else (match LastIndex(text, q)
          case Some(j) => if j > i then Some(j - i + 1) else None
          case None => None)
      case TripleQuoted(q) =>
        if !TripleAt(text, q, i) then None
        else (match LastTripleBefore(text, q, |text|)
          case Some(j) => if j >= i + 3 then Some(j + 3 - i) else None
          case None => None)
      case LineComment =>
        if text[i] == '#' then Some(|text| - i) else None
      case Integer =>
        if !IsDigit(text[i]) || !Boundary(text, i) then None
        else
          var e := RunEnd(text, i, IsDigit);
          if Boundary(text, e) then Some(e - i) else None
      case ClassHeader =>
        if i + 5 <= |text| && text[i..i + 5] == "class" && Boundary(text, i) then
          var s := RunEnd(text, i + 5, IsRegexSpace);
          var e := RunEnd(text, s, IsWordChar);
          if s > i + 5 && e > s then Some(e - i) else None
        else None
      case AtName =>
        if text[i] != '@' then None
        else
          var e := RunEnd(text, i + 1, IsWordChar);
          if e > i + 1 then Some(e - i) else None
  }

  /** A global search over a subject of length `n` from position `pos`,
      given `m`, the match (if any) that starts at each position: report the
      leftmost match and resume where it ended. Every match of the modelled
      patterns is non-empty (`MatchAt`), so the step of one position after an
      empty match only keeps the search total; it does not model Qt's retry
      at the same position after an empty match, which these patterns never
      need. */
  function GlobalMatch(m: nat -> Option<nat>, n: nat, pos: nat): seq<Span>
    decreases n - pos
  {
    if pos >= n then []
    else match m(pos)
      case Some(l) => [Span(pos, l)] + GlobalMatch(m, n, pos + if l == 0 then 1 else l)
      case None => GlobalMatch(m, n, pos + 1)
  }

  /** `pattern.globalMatch(text)`, continued from position `pos`. */
  function Scan(p: Pattern, text: string, pos: nat): seq<Span> {
    GlobalMatch((t: nat) => MatchAt(p, text, t), |text|, pos)
  }

  /** Every span of `spans` is a match of `m` starting in `pos..n`. */
  ghost predicate MatchesFrom(spans: seq<Span>, m: nat -> Option<nat>, n: nat, pos: nat) {
    forall a :: 0 <= a < |spans| ==> pos <= spans[a].start < n && m(spans[a].start) == Some(spans[a].len)
  }

  /** The spans are in order and do not overlap. */
  ghost predicate Disjoint(spans: seq<Span>) {
    forall a, b :: 0 <= a < b < |spans| ==> spans[a].start + spans[a].len <= spans[b].start
  }

  /** Every reported span is a match at its start, after `pos`, and the
      spans are ordered and disjoint. */
  lemma {:induction false} GlobalMatchSound(m: nat -> Option<nat>, n: nat, pos: nat)
    ensures MatchesFrom(GlobalMatch(m, n, pos), m, n, pos)
    ensures Disjoint(GlobalMatch(m, n, pos))
    decreases n - pos
  {
    if pos < n {
      match m(pos)
      case Some(l) =>
        var next := pos + if l == 0 then 1 else l;
        var rest := GlobalMatch(m, n, next);
        var spans := GlobalMatch(m, n, pos);
        assert spans == [Span(pos, l)] + rest;
        GlobalMatchSound(m, n, next);
        assert forall a :: 0 < a < |spans| ==> spans[a] == rest[a - 1];
        assert forall a :: 0 <= a < |rest| ==> next <= rest[a].start;
      case None =>
        assert GlobalMatch(m, n, pos) == GlobalMatch(m, n, pos + 1);
        GlobalMatchSound(m, n, pos + 1);
    }
  }

  /** The search skips positions where nothing matches. */
  lemma {:induction false} GlobalMatchSkip(m: nat -> Option<nat>, n: nat, pos: nat, s: nat)
    requires pos <= s
    requires forall t :: pos <= t < s ==> m(t).None?
    ensures GlobalMatch(m, n, pos) == GlobalMatch(m, n, s)
    decreases s - pos
  {
    if pos < s {
      GlobalMatchSkip(m, n, pos + 1, s);
    }
  }

  /** A match at `s` is reported unless an earlier match reaches over it: if
      every non-empty match starting in `pos..s` ends by `s`, the search from
      `pos` reports the match at `s`. */
  lemma {:induction false} GlobalMatchFinds(m: nat -> Option<nat>, n: nat, pos: nat, s: nat)
    requires pos <= s < n && m(s).Some?
    requires forall t :: pos <= t < s && m(t).Some? ==> t + m(t).value <= s
    ensures Span(s, m(s).value) in GlobalMatch(m, n, pos)
    decreases s - pos
  {
    if pos < s {
      if m(pos).Some? {
        var l := m(pos).value;
        StepSome(m, n, pos, l);
        GlobalMatchFinds(m, n, pos + if l == 0 then 1 else l, s);
      } else {
        StepNone(m, n, pos);
        GlobalMatchFinds(m, n, pos + 1, s);
      }
    } else {
      StepSome(m, n, s, m(s).value);
    }
  }

  /** `n` copies of `f`. */
  function Repeat(f: Format, n: nat): (r: seq<Format>)
    ensures |r| == n && forall k :: 0 <= k < n ==> r[k] == f
  {
    seq(n, _ => f)
  }

  /** `setFormat(start, count, format)` on the block's format buffer: a start
      past the text changes nothing, a span running past its end is cut. */
  function Paint(fmt: seq<Format>, sp: Span, f: Format): (r: seq<Format>)
    ensures |r| == |fmt|
    ensures forall k :: 0 <= k < |fmt| ==>
      r[k] == if sp.start <= k < sp.start + sp.len then f else fmt[k]
  {
    seq(|fmt|, k requires 0 <= k < |fmt| => if sp.start <= k < sp.start + sp.len then f else fmt[k])
  }

  /** Position `k` lies in one of the spans. */
  ghost predicate Covered(spans: seq<Span>, k: int) {
    exists a :: 0 <= a < |spans| && spans[a].start <= k < spans[a].start + spans[a].len
  }

  /** Paint every span, in order, with `f`. */
  function PaintAll(fmt: seq<Format>, spans: seq<Span>, f: Format): (r: seq<Format>)
    ensures |r| == |fmt|
    decreases |spans|
  {
    if spans == [] then fmt else PaintAll(Paint(fmt, spans[0], f), spans[1..], f)
  }

  /** After painting, a position has `f` if some span covers it and keeps its
      format otherwise. */
  lemma {:induction false} PaintAllAt(fmt: seq<Format>, spans: seq<Span>, f: Format, k: nat)
    requires k < |fmt|
    ensures PaintAll(fmt, spans, f)[k] == if Covered(spans, k) then f else fmt[k]
    decreases |spans|
  {
    if spans != [] {
      PaintAllAt(Paint(fmt, spans[0], f), spans[1..], f, k);
      if Covered(spans, k) {
        var a :| 0 <= a < |spans| && spans[a].start <= k < spans[a].start + spans[a].len;
        if a > 0 {
          assert spans[1..][a - 1] == spans[a];
        }
      }
      if Covered(spans[1..], k) {
        var a :| 0 <= a < |spans[1..]| && spans[1..][a].start <= k < spans[1..][a].start + spans[1..][a].len;
        assert spans[a + 1] == spans[1..][a];
      }
    }
  }

  /** Position `k` is inside some match of `p` in `text`. */
  ghost predicate Covers(p: Pattern, text: string, k: int) {
    Covered(Scan(p, text, 0), k)
  }

  /** The format buffer after applying `rules` in order to `text`, starting
      from all-default. */
  function Highlight(rules: seq<Rule>, text: string): (r: seq<Format>)
    ensures |r| == |text|
  {
    if rules == [] then Repeat(Default, |text|)
    else
      var last := rules[|rules| - 1];
      PaintAll(Highlight(rules[..|rules| - 1], text), Scan(last.pattern, text, 0), last.format)
  }

  /** Last writer wins: when rule `j` matches over position `k` and no later
      rule does, position `k` has rule `j`'s format. */
  lemma {:induction false} LastWriterWins(rules: seq<Rule>, text: string, k: nat, j: nat)
    requires k < |text| && j < |rules| && Covers(rules[j].pattern, text, k)
    requires forall i :: j < i < |rules| ==> !Covers(rules[i].pattern, text, k)
    ensures Highlight(rules, text)[k] == rules[j].format
    decreases |rules|
  {
    var n := |rules| - 1;
    var earlier := rules[..n];
    assert Highlight(rules, text) == PaintAll(Highlight(earlier, text), Scan(rules[n].pattern, text, 0), rules[n].format);
    PaintAllAt(Highlight(earlier, text), Scan(rules[n].pattern, text, 0), rules[n].format, k);
    if j < n {
      assert earlier[j] == rules[j];
      forall i | j < i < n ensures !Covers(earlier[i].pattern, text, k) {
        assert earlier[i] == rules[i];
      }
      LastWriterWins(earlier, text, k, j);
    }
  }

  /** A position no rule matches over keeps the default format. */
  lemma {:induction false} UnmatchedIsDefault(rules: seq<Rule>, text: string, k: nat)
    requires k < |text|
    requires forall i :: 0 <= i < |rules| ==> !Covers(rules[i].pattern, text, k)
    ensures Highlight(rules, text)[k] == Default
    decreases |rules|
  {
    if rules != [] {
      var n := |rules| - 1;
      forall i | 0 <= i < n ensures !Covers(rules[..n][i].pattern, text, k) {
        assert rules[..n][i] == rules[i];
      }
      UnmatchedIsDefault(rules[..n], text, k);
      PaintAllAt(Highlight(rules[..n], text), Scan(rules[n].pattern, text, 0), rules[n].format, k);
    }
  }

  // ---------------------------------------------------------------------
  // The rule list built by `PythonHighlighter.__init__`.

  /** The keywords coloured with the keyword format, in list order. */
  const Keywords: seq<string> := [
    "and", "as", "assert", "break", "class", "continue", "def", "del", "elif",
    "else", "except", "False", "finally", "for", "from", "global", "import",
    "in", "is", "lambda", "None", "nonlocal", "not", "or", "pass", "raise",
    "return", "True", "try", "with", "yield"
  ]

  /** One word-bounded rule per keyword, in the keywords' order. */
  function KeywordRules(words: seq<string>, f: Format): (rules: seq<Rule>)
    ensures |rules| == |words|
    ensures forall i :: 0 <= i < |words| ==> rules[i] == Rule(Word(words[i]), f)
  {
    seq(|words|, i requires 0 <= i < |words| => Rule(Word(words[i]), f))
  }

  /** The rules after the keywords, in the order they are appended. */
  const TailRules: seq<Rule> := [
    Rule(Word("if"), SpecialKeyword),
    Rule(Word("while"), SpecialKeyword),
    Rule(Quoted('"'), StringLiteral),
    Rule(Quoted('\''), StringLiteral),
    Rule(TripleQuoted('"'), StringLiteral),
    Rule(TripleQuoted('\''), StringLiteral),
    Rule(LineComment, Comment),
    Rule(Integer, Number),
    Rule(Word("def"), Function),
    Rule(Word("print"), Print),
    Rule(ClassHeader, ClassName),
    Rule(Word("self"), SelfRef),
    Rule(AtName, Decorator)
  ]

  /** `self.highlighting_rules`. */
  const PythonRules: seq<Rule> := KeywordRules(Keywords, Keyword) + TailRules

  // ---------------------------------------------------------------------
  // `highlightBlock`.

  /** `setFormat(start, count, f)` on the block's format buffer. */
  method SetFormat(fmt: array<Format>, start: nat, count: nat, f: Format)
    modifies fmt
    ensures fmt[..] == Paint(old(fmt[..]), Span(start, count), f)
  {
    if start < fmt.Length {
      var end := if start + count < fmt.Length then start + count else fmt.Length;
      forall k | start <= k < end {
        fmt[k] := f;
      }
    }
  }

  lemma PaintAllCons(fmt: seq<Format>, sp: Span, rest: seq<Span>, f: Format)
    ensures PaintAll(fmt, [sp] + rest, f) == PaintAll(Paint(fmt, sp, f), rest, f)
  {
    assert ([sp] + rest)[1..] == rest;
  }

  /** The inner loop of `highlightBlock` for one rule: walk the global
      matches of its pattern (`m` gives the match starting at each position)
      and paint each with format `f`. */
  method PaintMatches(fmt: array<Format>, m: nat -> Option<nat>, f: Format)
    modifies fmt
    ensures fmt[..] == PaintAll(old(fmt[..]), GlobalMatch(m, fmt.Length, 0), f)
  {
    ghost var target := PaintAll(fmt[..], GlobalMatch(m, fmt.Length, 0), f);
    ghost var cur := fmt[..];
    ghost var rest := GlobalMatch(m, fmt.Length, 0);
    var pos := 0;
    while pos < fmt.Length
      invariant fmt[..] == cur && |cur| == fmt.Length
      invariant rest == GlobalMatch(m, fmt.Length, pos)
      invariant PaintAll(cur, rest, f) == target
      decreases fmt.Length - pos
    {
      var found := m(pos);
      if found.Some? {
        var len := found.value;
        var next := pos + if len == 0 then 1 else len;
        PaintStepSome(cur, m, pos, len, f);
        SetFormat(fmt, pos, len, f);
        cur := Paint(cur, Span(pos, len), f);
        rest := GlobalMatch(m, fmt.Length, next);
        pos := next;
      } else {
        StepNone(m, fmt.Length, pos);
        rest := GlobalMatch(m, fmt.Length, pos + 1);
        pos := pos + 1;
      }
    }
  }

  /** Painting the spans from `pos`, where a match of length `len` starts,
      is painting that match and then the spans from just after it. */
  lemma PaintStepSome(fmt: seq<Format>, m: nat -> Option<nat>, pos: nat, len: nat, f: Format)
    requires pos < |fmt| && m(pos) == Some(len)
    ensures PaintAll(fmt, GlobalMatch(m, |fmt|, pos), f)
      == PaintAll(Paint(fmt, Span(pos, len), f), GlobalMatch(m, |fmt|, pos + if len == 0 then 1 else len), f)
  {
    var next := pos + if len == 0 then 1 else len;
    StepSome(m, |fmt|, pos, len);
    PaintAllCons(fmt, Span(pos, len), GlobalMatch(m, |fmt|, next), f);
  }

  /** Where a match starts, the search reports it and resumes after it. */
  lemma StepSome(m: nat -> Option<nat>, n: nat, pos: nat, len: nat)
    requires pos < n && m(pos) == Some(len)
    ensures GlobalMatch(m, n, pos) == [Span(pos, len)] + GlobalMatch(m, n, pos + if len == 0 then 1 else len)
  {
  }

  /** Where nothing matches, the search moves on by one position. */
  lemma StepNone(m: nat -> Option<nat>, n: nat, pos: nat)
    requires pos < n && m(pos).None?
    ensures GlobalMatch(m, n, pos) == GlobalMatch(m, n, pos + 1)
  {
  }

  /** `highlightBlock(text)`: a buffer of `len(text)` default formats (the
      state Qt hands the highlighter for each block); for each rule in order,
      walk its global matches and `setFormat` each one. The block text never
      holds a line feed. */
  method HighlightBlock(rules: seq<Rule>, text: string) returns (fmt: array<Format>)
    requires '\n' !in text
    ensures fmt.Length == |text|
    ensures fmt[..] == Highlight(rules, text)
  {
    fmt := new Format[|text|](_ => Default);
    for r := 0 to |rules|
      invariant fmt.Length == |text|
      invariant fmt[..] == Highlight(rules[..r], text)
    {
      var rule := rules[r];
      PaintMatches(fmt, (t: nat) => MatchAt(rule.pattern, text, t), rule.format);
      assert rules[..r + 1][..r] == rules[..r];
    }
    assert rules[..|rules|] == rules;
  }
}
