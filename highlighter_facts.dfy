/** What the rule patterns cover in one block of text, and what the rule
    order of `PythonHighlighter` does with overlapping matches. */
module HighlighterFacts {
  import opened Wrappers
  import opened Highlighter

  /** The index of the first `c` in `text`. */
  function FirstIndex(text: string, c: char): (r: Option<nat>)
    ensures r.Some? ==> r.value < |text| && text[r.value] == c
    ensures r.Some? ==> forall k :: 0 <= k < r.value ==> text[k] != c
    ensures r.None? ==> forall k :: 0 <= k < |text| ==> text[k] != c
  {
    if text == [] then None
    else if text[0] == c then Some(0)
    else match FirstIndex(text[1..], c)
      case Some(i) => Some(i + 1)
      case None => None
  }

  /** A position inside a reported match lies inside a match of the pattern
      that starts at or before it. */
  lemma CoveredByMatch(p: Pattern, text: string, k: int)
    requires Covers(p, text, k)
    ensures exists t: nat :: t <= k && MatchAt(p, text, t).Some? && k < t + MatchAt(p, text, t).value
  {
    var m := (t: nat) => MatchAt(p, text, t);
    var spans := Scan(p, text, 0);
    GlobalMatchSound(m, |text|, 0);
    var a :| 0 <= a < |spans| && spans[a].start <= k < spans[a].start + spans[a].len;
    assert m(spans[a].start) == Some(spans[a].len);
  }

  /** A match at `s` that no earlier match reaches over is reported, so it
      covers every position it spans. */
  lemma MatchCovers(p: Pattern, text: string, s: nat, k: nat)
    requires s <= k && MatchAt(p, text, s).Some? && k < s + MatchAt(p, text, s).value
    requires forall t: nat :: t < s && MatchAt(p, text, t).Some? ==> t + MatchAt(p, text, t).value <= s
    ensures Covers(p, text, k)
  {
    var m := (t: nat) => MatchAt(p, text, t);
    GlobalMatchFinds(m, |text|, 0, s);
    var spans := Scan(p, text, 0);
    var a :| 0 <= a < |spans| && spans[a] == Span(s, m(s).value);
    assert spans[a].start <= k < spans[a].start + spans[a].len;
  }

  // ---- Word-bounded words: `\bkw\b`.

  /** `w` occurs at `i` with a word boundary on both sides. */
  predicate WordAt(text: string, w: string, i: nat) {
    i + |w| <= |text| && text[i..i + |w|] == w && Boundary(text, i) && Boundary(text, i + |w|)
  }

  predicate AllWordChars(w: string) {
    forall c :: c in w ==> IsWordChar(c)
  }

  /** Two occurrences of a word of word characters, each bounded by word
      boundaries, never overlap. */
  lemma WordsDoNotOverlap(text: string, w: string, t: nat, i: nat)
    requires 0 < |w| && AllWordChars(w)
    requires WordAt(text, w, t) && WordAt(text, w, i) && t < i
    ensures t + |w| <= i
  {
  }

  /** The keyword rule for `w` colours position `k` exactly when `k` lies in
      an occurrence of `w` that starts and ends at a word boundary. */
  lemma WordCovers(w: string, text: string, k: nat)
    requires 0 < |w| && AllWordChars(w)
    ensures Covers(Word(w), text, k) <==> exists i: nat :: i <= k < i + |w| && WordAt(text, w, i)
  {
    if Covers(Word(w), text, k) {
      WordCoveredAt(w, text, k);
    }
    if i: nat :| i <= k < i + |w| && WordAt(text, w, i) {
      WordAtCovers(w, text, i, k);
    }
  }

  /** A match of `\bw\b` is an occurrence of `w` between word boundaries. */
  lemma WordMatch(w: string, text: string, t: nat)
    ensures MatchAt(Word(w), text, t) == if 0 < |w| && WordAt(text, w, t) then Some(|w|) else None
  {
  }

  lemma WordCoveredAt(w: string, text: string, k: nat)
    requires Covers(Word(w), text, k)
    ensures exists i: nat :: i <= k < i + |w| && WordAt(text, w, i)
  {
    CoveredByMatch(Word(w), text, k);
    var t: nat :| t <= k && MatchAt(Word(w), text, t).Some? && k < t + MatchAt(Word(w), text, t).value;
    WordMatch(w, text, t);
  }

  lemma WordAtCovers(w: string, text: string, i: nat, k: nat)
    requires 0 < |w| && AllWordChars(w)
    requires i <= k < i + |w| && WordAt(text, w, i)
    ensures Covers(Word(w), text, k)
  {
    forall t: nat | t < i && MatchAt(Word(w), text, t).Some?
      ensures t + MatchAt(Word(w), text, t).value <= i
    {
      WordMatch(w, text, t);
      WordsDoNotOverlap(text, w, t, i);
    }
    WordMatch(w, text, i);
    MatchCovers(Word(w), text, i, k);
  }

  /** `define` gets nothing from the `\bdef\b` rule. */
  lemma DefineIsNotDef(k: nat)
    ensures !Covers(Word("def"), "define", k)
  {
    var text := "define";
    WordCovers("def", text, k);
    if i: nat :| i <= k < i + 3 && WordAt(text, "def", i) {
      assert false;
    }
  }

  // ---- Single-line strings: `".*"` and `'.*'`.

  /** The spans the search for `q.*q` reports: one span from the first `q`
      to the last, or none when the text has fewer than two `q`s. */
  function QuotedSpans(text: string, q: char): seq<Span> {
    match (FirstIndex(text, q), LastIndex(text, q))
    case (Some(f), Some(l)) => if f < l then [Span(f, l - f + 1)] else []
    case _ => []
  }

  lemma {:induction false} QuotedScan(q: char, text: string)
    ensures Scan(Quoted(q), text, 0) == QuotedSpans(text, q)
  {
    var m := (t: nat) => MatchAt(Quoted(q), text, t);
    var n := |text|;
    match FirstIndex(text, q)
    case None =>
      GlobalMatchSkip(m, n, 0, n);
    case Some(f) =>
      GlobalMatchSkip(m, n, 0, f);
      var l := LastIndex(text, q).value;
      if f < l {
        QuotedScanFrom(q, text, f, l);
      } else {
        assert m(f).None?;
        GlobalMatchSkip(m, n, f + 1, n);
      }
  }

  lemma QuotedScanFrom(q: char, text: string, f: nat, l: nat)
    requires f < l && LastIndex(text, q) == Some(l) && text[f] == q
    ensures Scan(Quoted(q), text, f) == [Span(f, l - f + 1)]
  {
    var m := (t: nat) => MatchAt(Quoted(q), text, t);
    var n := |text|;
    assert m(f) == Some(l - f + 1);
    GlobalMatchSkip(m, n, l + 1, n);
    assert GlobalMatch(m, n, f) == [Span(f, l - f + 1)] + GlobalMatch(m, n, l + 1);
  }

  /** The string rule for quote `q` colours position `k` exactly when there
      are two different `q`s, one at or before `k` and one at or after it. */
  lemma QuotedCovers(q: char, text: string, k: nat)
    ensures Covers(Quoted(q), text, k) <==>
      exists i: nat, j: nat :: i <= k <= j < |text| && i < j && text[i] == q && text[j] == q
  {
    QuotedScan(q, text);
    var spans := QuotedSpans(text, q);
    if Covers(Quoted(q), text, k) {
      var l := LastIndex(text, q).value;
      var f := FirstIndex(text, q).value;
      assert spans == [Span(f, l - f + 1)];
      assert f <= k <= l < |text| && text[f] == q && text[l] == q;
    }
    if i: nat, j: nat :| i <= k <= j < |text| && i < j && text[i] == q && text[j] == q {
      var l := LastIndex(text, q).value;
      var f := FirstIndex(text, q).value;
      assert f <= i && j <= l;
      assert spans[0] == Span(f, l - f + 1);
    }
  }

  // ---- Line comments: `#.*`.

  /** The comment rule colours `k` exactly when a `#` comes at or before it. */
  lemma {:induction false} CommentCovers(text: string, k: nat)
    requires k < |text|
    ensures Covers(LineComment, text, k) <==> exists i: nat :: i <= k && text[i] == '#'
  {
    var m := (t: nat) => MatchAt(LineComment, text, t);
    var n := |text|;
    match FirstIndex(text, '#')
    case None =>
      GlobalMatchSkip(m, n, 0, n);
    case Some(f) =>
      GlobalMatchSkip(m, n, 0, f);
      assert GlobalMatch(m, n, f) == [Span(f, n - f)] + GlobalMatch(m, n, n);
      assert Scan(LineComment, text, 0)[0] == Span(f, n - f);
      if i: nat :| i <= k && text[i] == '#' {
        assert f <= i;
      }
  }

  // ---- Integers: `\b\d+\b`.

  /** `text[i..e]` is a run of digits with no word character on either side. */
  predicate NumberAt(text: string, i: nat, e: nat) {
    i < e <= |text| && (forall x :: i <= x < e ==> IsDigit(text[x]))
    && (i == 0 || !IsWordChar(text[i - 1])) && (e == |text| || !IsWordChar(text[e]))
  }

  lemma NumberMatch(text: string, i: nat, e: nat)
    requires NumberAt(text, i, e)
    ensures MatchAt(Integer, text, i) == Some(e - i)
  {
    RunEndIs(text, i, e, IsDigit);
  }

  /** A run of `p` characters from `i` that stops at `e` is the run `RunEnd`
      finds. */
  lemma {:induction false} RunEndIs(text: string, i: nat, e: nat, p: char -> bool)
    requires i <= e <= |text| && (forall x :: i <= x < e ==> p(text[x]))
    requires e == |text| || !p(text[e])
    ensures RunEnd(text, i, p) == e
    decreases e - i
  {
    if i < e {
      RunEndIs(text, i + 1, e, p);
    }
  }

  /** The number rule colours `k` exactly when `k` lies in a run of digits
      with no word character on either side. */
  lemma IntegerCovers(text: string, k: nat)
    ensures Covers(Integer, text, k) <==> exists i: nat, e: nat :: i <= k < e && NumberAt(text, i, e)
  {
    if Covers(Integer, text, k) {
      CoveredByMatch(Integer, text, k);
      var t: nat :| t <= k && MatchAt(Integer, text, t).Some? && k < t + MatchAt(Integer, text, t).value;
      var e := RunEnd(text, t, IsDigit);
      assert NumberAt(text, t, e);
    }
    if i: nat, e: nat :| i <= k < e && NumberAt(text, i, e) {
      NumberMatch(text, i, e);
      forall t: nat | t < i && MatchAt(Integer, text, t).Some?
        ensures t + MatchAt(Integer, text, t).value <= i
      {
      }
      MatchCovers(Integer, text, i, k);
    }
  }

  // ---- Triple-quoted strings: `"""(.*)"""` and `'''(.*)'''`, dot matching everything.

  /** The first start of three `q`s at or after `i`. */
  function FirstTriple(text: string, q: char, i: nat): (r: Option<nat>)
    ensures r.Some? ==> i <= r.value && TripleAt(text, q, r.value)
    ensures r.Some? ==> forall k :: i <= k < r.value ==> !TripleAt(text, q, k)
    ensures r.None? ==> forall k :: i <= k ==> !TripleAt(text, q, k)
    decreases |text| - i
  {
    if i + 3 > |text| then None
    else if TripleAt(text, q, i) then Some(i)
    else FirstTriple(text, q, i + 1)
  }

  /** The spans the search for a triple-quoted string reports: one span from
      the first three `q`s to the end of the last three, or none when those
      two do not fit apart. */
  function TripleSpans(text: string, q: char): seq<Span> {
    match (FirstTriple(text, q, 0), LastTripleBefore(text, q, |text|))
    case (Some(f), Some(l)) => if l >= f + 3 then [Span(f, l + 3 - f)] else []
    case _ => []
  }

  lemma {:induction false} TripleQuotedScan(q: char, text: string)
    ensures Scan(TripleQuoted(q), text, 0) == TripleSpans(text, q)
  {
    var m := (t: nat) => MatchAt(TripleQuoted(q), text, t);
    var n := |text|;
    match FirstTriple(text, q, 0)
    case None =>
      GlobalMatchSkip(m, n, 0, n);
    case Some(f) =>
      GlobalMatchSkip(m, n, 0, f);
      var l := LastTripleBefore(text, q, n).value;
      if l >= f + 3 {
        TripleScanFrom(q, text, f, l);
      } else {
        GlobalMatchSkip(m, n, f, n);
      }
  }

  lemma TripleScanFrom(q: char, text: string, f: nat, l: nat)
    requires f + 3 <= l && LastTripleBefore(text, q, |text|) == Some(l) && TripleAt(text, q, f)
    ensures Scan(TripleQuoted(q), text, f) == [Span(f, l + 3 - f)]
  {
    var m := (t: nat) => MatchAt(TripleQuoted(q), text, t);
    var n := |text|;
    assert m(f) == Some(l + 3 - f);
    GlobalMatchSkip(m, n, l + 3, n);
    StepSome(m, n, f, l + 3 - f);
  }

  /** The triple-quote rule colours position `k` exactly when it lies
      between the start of three `q`s and the end of three later ones that
      do not overlap them. */
  lemma TripleQuotedCovers(q: char, text: string, k: nat)
    ensures Covers(TripleQuoted(q), text, k) <==>
      exists i: nat, j: nat :: i <= k < j + 3 && i + 3 <= j && TripleAt(text, q, i) && TripleAt(text, q, j)
  {
    TripleQuotedScan(q, text);
    var spans := TripleSpans(text, q);
    if Covers(TripleQuoted(q), text, k) {
      var f := FirstTriple(text, q, 0).value;
      var l := LastTripleBefore(text, q, |text|).value;
      assert spans == [Span(f, l + 3 - f)];
      assert f <= k < l + 3 && f + 3 <= l && TripleAt(text, q, f) && TripleAt(text, q, l);
    }
    if i: nat, j: nat :| i <= k < j + 3 && i + 3 <= j && TripleAt(text, q, i) && TripleAt(text, q, j) {
      var f := FirstTriple(text, q, 0).value;
      var l := LastTripleBefore(text, q, |text|).value;
      assert f <= i && j <= l;
      assert spans[0] == Span(f, l + 3 - f);
    }
  }

  // ---- Class headers: `\bclass\s+(\w+)`.

  /** `text[i..e]` is a class header: `class` at a word boundary, a run of
      whitespace up to `s`, then the longest run of word characters up to
      `e`. */
  predicate HeaderAt(text: string, i: nat, s: nat, e: nat) {
    && i + 5 < s < e <= |text|
    && text[i..i + 5] == "class" && Boundary(text, i)
    && (forall x :: i + 5 <= x < s ==> IsRegexSpace(text[x]))
    && (forall x :: s <= x < e ==> IsWordChar(text[x]))
    && (e == |text| || !IsWordChar(text[e]))
  }

  /** Position `i` is where the name of a class header starting earlier
      would begin: `class` at a word boundary followed by whitespace only. */
  ghost predicate FollowsClassKeyword(text: string, i: nat) {
    exists t: nat :: t + 5 < i <= |text| && text[t..t + 5] == "class" && Boundary(text, t)
      && forall x :: t + 5 <= x < i ==> IsRegexSpace(text[x])
  }

  lemma ClassHeaderMatch(text: string, i: nat, s: nat, e: nat)
    requires HeaderAt(text, i, s, e)
    ensures MatchAt(ClassHeader, text, i) == Some(e - i)
  {
    RunEndIs(text, i + 5, s, IsRegexSpace);
    RunEndIs(text, s, e, IsWordChar);
  }

  lemma ClassHeaderMatched(text: string, t: nat)
    requires MatchAt(ClassHeader, text, t).Some?
    ensures exists s: nat, e: nat :: HeaderAt(text, t, s, e) && MatchAt(ClassHeader, text, t).value == e - t
  {
    var s := RunEnd(text, t + 5, IsRegexSpace);
    var e := RunEnd(text, s, IsWordChar);
    assert HeaderAt(text, t, s, e);
  }

  /** A header reaching over the start `i` of another header has that
      second `class` as its name. */
  lemma HeaderInsideHeader(text: string, t: nat, s: nat, e: nat, i: nat)
    requires HeaderAt(text, t, s, e) && t < i < e
    requires i + 5 <= |text| && text[i..i + 5] == "class" && Boundary(text, i)
    ensures FollowsClassKeyword(text, i)
  {
    assert text[i] == text[i..i + 5][0] == 'c';
    assert t + 5 < i && forall x :: t + 5 <= x < i ==> IsRegexSpace(text[x]);
  }

  /** A match that starts before a header and whose `class` is not its name
      ends before that header. */
  lemma EarlierHeaderEnds(text: string, t: nat, i: nat)
    requires t < i && MatchAt(ClassHeader, text, t).Some?
    requires i + 5 <= |text| && text[i..i + 5] == "class" && Boundary(text, i) && !FollowsClassKeyword(text, i)
    ensures t + MatchAt(ClassHeader, text, t).value <= i
  {
    ClassHeaderMatched(text, t);
    var s: nat, e: nat :| HeaderAt(text, t, s, e) && MatchAt(ClassHeader, text, t).value == e - t;
    if e > i {
      HeaderInsideHeader(text, t, s, e, i);
      assert false;
    }
  }

  /** The class rule colours `k` only inside a class header. */
  lemma ClassHeaderCovers(text: string, k: nat)
    ensures Covers(ClassHeader, text, k) ==> exists i: nat, s: nat, e: nat :: i <= k < e && HeaderAt(text, i, s, e)
  {
    if Covers(ClassHeader, text, k) {
      CoveredByMatch(ClassHeader, text, k);
      var t: nat :| t <= k && MatchAt(ClassHeader, text, t).Some? && k < t + MatchAt(ClassHeader, text, t).value;
      ClassHeaderMatched(text, t);
    }
  }

  /** The class rule colours every header whose `class` is not itself the
      name of an earlier one. */
  lemma ClassHeaderCovered(text: string, i: nat, s: nat, e: nat, k: nat)
    requires HeaderAt(text, i, s, e) && i <= k < e && !FollowsClassKeyword(text, i)
    ensures Covers(ClassHeader, text, k)
  {
    ClassHeaderMatch(text, i, s, e);
    forall t: nat | t < i && MatchAt(ClassHeader, text, t).Some?
      ensures t + MatchAt(ClassHeader, text, t).value <= i
    {
      EarlierHeaderEnds(text, t, i);
    }
    MatchCovers(ClassHeader, text, i, k);
  }

  // ---- Decorators: `@\w+`.

  /** `text[i..e]` is `@` followed by the longest run of word characters. */
  predicate DecoratorAt(text: string, i: nat, e: nat) {
    i + 1 < e <= |text| && text[i] == '@' && (forall x :: i < x < e ==> IsWordChar(text[x]))
    && (e == |text| || !IsWordChar(text[e]))
  }

  lemma DecoratorMatch(text: string, i: nat, e: nat)
    requires DecoratorAt(text, i, e)
    ensures MatchAt(AtName, text, i) == Some(e - i)
  {
    RunEndIs(text, i + 1, e, IsWordChar);
  }

  /** The decorator rule colours `k` exactly when `k` lies in an `@` followed
      by a run of word characters. */
  lemma AtNameCovers(text: string, k: nat)
    ensures Covers(AtName, text, k) <==> exists i: nat, e: nat :: i <= k < e && DecoratorAt(text, i, e)
  {
    if Covers(AtName, text, k) {
      CoveredByMatch(AtName, text, k);
      var t: nat :| t <= k && MatchAt(AtName, text, t).Some? && k < t + MatchAt(AtName, text, t).value;
      var e := RunEnd(text, t + 1, IsWordChar);
      assert DecoratorAt(text, t, e);
    }
    if i: nat, e: nat :| i <= k < e && DecoratorAt(text, i, e) {
      DecoratorMatch(text, i, e);
      forall t: nat | t < i && MatchAt(AtName, text, t).Some?
        ensures t + MatchAt(AtName, text, t).value <= i
      {
      }
      MatchCovers(AtName, text, i, k);
    }
  }
}

module HighlighterExamples {
  import opened Wrappers
  import opened Highlighter
  import opened HighlighterFacts

  /** The character every match of `p` starts with, where there is one. */
  function Lead(p: Pattern): Option<char> {
    match p
    case Word(w) => if |w| > 0 then Some(w[0]) else None
    case Quoted(q) => Some(q)
    case TripleQuoted(q) => Some(q)
    case LineComment => Some('#')
    case Integer => None
    case ClassHeader => Some('c')
    case AtName => Some('@')
  }

  lemma MatchStartsWithLead(p: Pattern, text: string, t: nat)
    requires MatchAt(p, text, t).Some? && Lead(p).Some?
    ensures t < |text| && text[t] == Lead(p).value
  {
    if p.Word? {
      assert text[t..t + |p.w|][0] == text[t];
    } else if p.ClassHeader? {
      assert text[t..t + 5][0] == text[t];
    }
  }

  /** A pattern whose leading character does not occur in the text covers
      nothing. */
  lemma LeadAbsent(p: Pattern, text: string, k: nat)
    requires Lead(p).Some? && Lead(p).value !in text
    ensures !Covers(p, text, k)
  {
    if Covers(p, text, k) {
      CoveredByMatch(p, text, k);
      var t: nat :| t <= k && MatchAt(p, text, t).Some? && k < t + MatchAt(p, text, t).value;
      MatchStartsWithLead(p, text, t);
    }
  }

  /** Where the rules are in the list: the keyword rules for `class` and
      `def` come early; the rules from the number rule on close the list. */
  lemma RuleIndices()
    ensures |PythonRules| == 44
    ensures PythonRules[4] == Rule(Word("class"), Keyword)
    ensures PythonRules[6] == Rule(Word("def"), Keyword)
    ensures PythonRules[36] == Rule(TripleQuoted('\''), StringLiteral)
    ensures PythonRules[37] == Rule(LineComment, Comment)
    ensures PythonRules[38] == Rule(Integer, Number)
    ensures PythonRules[39] == Rule(Word("def"), Function)
    ensures PythonRules[40] == Rule(Word("print"), Print)
    ensures PythonRules[41] == Rule(ClassHeader, ClassName)
    ensures PythonRules[42] == Rule(Word("self"), SelfRef)
    ensures PythonRules[43] == Rule(AtName, Decorator)
  {
    assert forall i :: 31 <= i < 44 ==> PythonRules[i] == TailRules[i - 31];
  }

  /** A word with a letter that does not occur in the text covers nothing. */
  lemma WordLetterAbsent(w: string, text: string, k: nat, x: nat)
    requires x < |w| && w[x] !in text
    ensures !Covers(Word(w), text, k)
  {
    if Covers(Word(w), text, k) {
      CoveredByMatch(Word(w), text, k);
    }
  }

  /** Where `\bdef\b` matches, the function format wins over the keyword
      format (its rule comes later), unless one of the four rules after it
      also matches there. */
  lemma DefRuleWins(text: string, k: nat)
    requires k < |text| && Covers(Word("def"), text, k)
    requires !Covers(Word("print"), text, k) && !Covers(ClassHeader, text, k)
    requires !Covers(Word("self"), text, k) && !Covers(AtName, text, k)
    ensures Highlight(PythonRules, text)[k] == Function
  {
    RuleIndices();
    forall i | 39 < i < |PythonRules| ensures !Covers(PythonRules[i].pattern, text, k) {
      if i == 40 {
      } else if i == 41 {
      } else if i == 42 {
      } else {
        assert i == 43;
      }
    }
    LastWriterWins(PythonRules, text, k, 39);
  }

  /** Where `\b\d+\b` matches, the number format wins over the comment and
      string formats (its rule comes later), unless one of the rules after
      it also matches there. */
  lemma NumberRuleWins(text: string, k: nat)
    requires k < |text| && Covers(Integer, text, k)
    requires !Covers(Word("def"), text, k) && !Covers(Word("print"), text, k)
    requires !Covers(ClassHeader, text, k) && !Covers(Word("self"), text, k) && !Covers(AtName, text, k)
    ensures Highlight(PythonRules, text)[k] == Number
  {
    RuleIndices();
    forall i | 38 < i < |PythonRules| ensures !Covers(PythonRules[i].pattern, text, k) {
      if i == 39 {
      } else if i == 40 {
      } else if i == 41 {
      } else if i == 42 {
      } else {
        assert i == 43;
      }
    }
    LastWriterWins(PythonRules, text, k, 38);
  }

  /** Where the class-header rule matches, the whole match, `class`
      included, gets the class format, unless `self` or a decorator also
      matches there. */
  lemma ClassRuleWins(text: string, k: nat)
    requires k < |text| && Covers(ClassHeader, text, k)
    requires !Covers(Word("self"), text, k) && !Covers(AtName, text, k)
    ensures Highlight(PythonRules, text)[k] == ClassName
  {
    RuleIndices();
    forall i | 41 < i < |PythonRules| ensures !Covers(PythonRules[i].pattern, text, k) {
      if i == 42 {
      } else {
        assert i == 43;
      }
    }
    LastWriterWins(PythonRules, text, k, 41);
  }

  /** The rules after the function rule stay off a text with none of
      their leading characters. */
  lemma LaterRulesAbsent(text: string, k: nat)
    requires 'p' !in text && 'c' !in text && 's' !in text && '@' !in text
    ensures !Covers(Word("print"), text, k) && !Covers(ClassHeader, text, k)
    ensures !Covers(Word("self"), text, k) && !Covers(AtName, text, k)
  {
    LeadAbsent(Word("print"), text, k);
    LeadAbsent(ClassHeader, text, k);
    LeadAbsent(Word("self"), text, k);
    LeadAbsent(AtName, text, k);
  }

  /** In `def foo():` the word `def` ends up in the function format. */
  lemma DefIsFunction(k: nat)
    requires k < 3
    ensures Highlight(PythonRules, "def foo():")[k] == Function
  {
    DefFooCovered(k);
    LaterRulesAbsent("def foo():", k);
    DefRuleWins("def foo():", k);
  }

  lemma DefFooCovered(k: nat)
    requires k < 3
    ensures Covers(Word("def"), "def foo():", k)
  {
    WordAtCovers("def", "def foo():", 0, k);
  }

  /** In `# 42` the digits end up in the number format although they are
      inside a comment. */
  lemma CommentDigitsAreNumbers(k: nat)
    requires 2 <= k < 4
    ensures Highlight(PythonRules, "# 42")[k] == Number
  {
    FortyTwoCovered(k);
    LeadAbsent(Word("def"), "# 42", k);
    LaterRulesAbsent("# 42", k);
    NumberRuleWins("# 42", k);
  }

  /** In `class Foo` every character, `class` included, ends up in the class
      format. */
  lemma ClassHeaderWins(k: nat)
    requires k < 9
    ensures Highlight(PythonRules, "class Foo")[k] == ClassName
  {
    ClassFooCovered(k);
    ClassLaterRulesAbsent("class Foo", k);
    ClassRuleWins("class Foo", k);
  }

  /** The rules after the class-header rule stay off a text without `e`
      and `@`. */
  lemma ClassLaterRulesAbsent(text: string, k: nat)
    requires 'e' !in text && '@' !in text
    ensures !Covers(Word("self"), text, k) && !Covers(AtName, text, k)
  {
    WordLetterAbsent("self", text, k, 1);
    LeadAbsent(AtName, text, k);
  }

  lemma ClassFooCovered(k: nat)
    requires k < 9
    ensures Covers(ClassHeader, "class Foo", k)
  {
    ClassFooMatch();
    MatchCovers(ClassHeader, "class Foo", 0, k);
  }

  lemma ClassFooMatch()
    ensures MatchAt(ClassHeader, "class Foo", 0) == Some(9)
  {
    var text := "class Foo";
    assert text[..5] == "class";
    assert RunEnd(text, 5, IsRegexSpace) == 6;
    assert RunEnd(text, 6, IsWordChar) == 9;
  }

  lemma FortyTwoCovered(k: nat)
    requires 2 <= k < 4
    ensures Covers(Integer, "# 42", k)
  {
    IntegerCovers("# 42", k);
    assert NumberAt("# 42", 2, 4);
  }
}
