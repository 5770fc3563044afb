/**
 * The document side of the assistant: choosing the part of a document that
 * is relevant to a question, assembling the text of a document page by page,
 * the file-type guard, the mapping of loader errors to messages and the
 * one-hour cache of loaded documents.  The PDF reader itself is abstracted:
 * a loaded document is the sequence of what reading each of its pages gave.
 */
module PdfService {
  import opened Wrappers
  import opened Text
  import AiService

  /** The text of one page, with its 1-based page number. */
  datatype PageContent = PageContent(text: string, pageNum: nat)

  /** What the selector returns: the context handed to the model and the pages it came from. */
  datatype ContextResult = ContextResult(context: string, pages: seq<nat>)

  const ParagraphBreak := "\n\n"
  const FallbackLength := 3000
  const AttributionPrefix := 100

  // ---------------------------------------------------------------------------
  // Splitting a document into paragraphs: `text.split(/\n\n+/)`

  /** A blank line, i.e. two consecutive line feeds, starts at `k`. */
  predicate BlankLineAt(s: string, k: int) {
    0 <= k && k + 1 < |s| && s[k] == '\n' && s[k + 1] == '\n'
  }

  predicate NoBlankLine(s: string) {
    forall k :: 0 <= k < |s| ==> !BlankLineAt(s, k)
  }

  /** Where the first blank line starts, or `|s|` when there is none. */
  function FirstBlankLine(s: string): (i: nat)
    ensures i <= |s|
    ensures i < |s| ==> BlankLineAt(s, i)
    ensures forall k :: 0 <= k < i ==> !BlankLineAt(s, k)
  {
    if |s| < 2 then |s|
    else if s[0] == '\n' && s[1] == '\n' then 0
    else
      var i := 1 + FirstBlankLine(s[1..]);
      assert forall k :: 1 <= k < |s| ==> (BlankLineAt(s, k) <==> BlankLineAt(s[1..], k - 1));
      i
  }

  /** The end of the run of line feeds that starts at `i`. */
  function EndOfNewlines(s: string, i: nat): (j: nat)
    requires i <= |s|
    ensures i <= j <= |s|
    ensures forall k :: i <= k < j ==> s[k] == '\n'
    ensures j < |s| ==> s[j] != '\n'
    decreases |s| - i
  {
    if i < |s| && s[i] == '\n' then EndOfNewlines(s, i + 1) else i
  }

  /** Splits at every maximal run of two or more line feeds; no piece holds a blank line. */
  function SplitBlankLines(s: string): (pieces: seq<string>)
    ensures |pieces| >= 1
    ensures forall k :: 0 <= k < |pieces| ==> NoBlankLine(pieces[k])
    decreases |s|
  {
    var i := FirstBlankLine(s);
    if i == |s| then [s]
    else
      var j := EndOfNewlines(s, i);
      assert NoBlankLine(s[..i]) by {
        forall k | 0 <= k < i
          ensures !BlankLineAt(s[..i], k)
        {
          assert BlankLineAt(s[..i], k) ==> BlankLineAt(s, k);
        }
      }
      [s[..i]] + SplitBlankLines(s[j..])
  }

  /** A text without a blank line is a single piece. */
  lemma SplitWithoutBlankLine(s: string)
    requires NoBlankLine(s)
    ensures SplitBlankLines(s) == [s]
  {
  }

  /** Three consecutive line feeds start at `k`. */
  predicate TripleNewlineAt(s: string, k: int) {
    BlankLineAt(s, k) && k + 2 < |s| && s[k + 2] == '\n'
  }

  predicate NoTripleNewline(s: string) {
    forall k | 0 <= k < |s| :: !TripleNewlineAt(s, k)
  }

  /** Without three line feeds in a row, the separator at the first blank line is that blank line alone. */
  lemma SeparatorIsOneBlankLine(s: string)
    requires NoTripleNewline(s) && FirstBlankLine(s) < |s|
    ensures EndOfNewlines(s, FirstBlankLine(s)) == FirstBlankLine(s) + 2
  {
    assert !TripleNewlineAt(s, FirstBlankLine(s));
  }

  lemma NoTripleNewlineSuffix(s: string, j: nat)
    requires NoTripleNewline(s) && j <= |s|
    ensures NoTripleNewline(s[j..])
  {
    var rest := s[j..];
    forall k | 0 <= k < |rest|
      ensures !TripleNewlineAt(rest, k)
    {
      assert !TripleNewlineAt(s, j + k);
      assert TripleNewlineAt(rest, k) <==> TripleNewlineAt(s, j + k);
    }
  }

  /** Splitting at a first blank line of exactly two line feeds: the text before it, then the pieces after it. */
  lemma SplitAtSingleBlankLine(s: string)
    requires NoTripleNewline(s) && FirstBlankLine(s) < |s|
    ensures SplitBlankLines(s) == [s[..FirstBlankLine(s)]] + SplitBlankLines(s[FirstBlankLine(s) + 2..])
  {
    SeparatorIsOneBlankLine(s);
  }

  /** A head, a blank line and the rest give the text back. */
  lemma JoinAroundBlankLine(s: string, i: nat, tail: seq<string>)
    requires BlankLineAt(s, i)
    requires tail != [] && Join(tail, ParagraphBreak) == s[i + 2..]
    ensures Join([s[..i]] + tail, ParagraphBreak) == s
  {
    JoinCons(s[..i], tail, ParagraphBreak);
    assert s == s[..i] + ParagraphBreak + s[i + 2..];
  }

  /** When every separator is exactly one blank line, joining the pieces with a blank line gives the text back. */
  lemma {:induction false} SplitJoinRoundTrip(s: string)
    requires NoTripleNewline(s)
    ensures Join(SplitBlankLines(s), ParagraphBreak) == s
    decreases |s|
  {
    var i := FirstBlankLine(s);
    if i < |s| {
      SplitAtSingleBlankLine(s);
      NoTripleNewlineSuffix(s, i + 2);
      SplitJoinRoundTrip(s[i + 2..]);
      JoinAroundBlankLine(s, i, SplitBlankLines(s[i + 2..]));
    }
  }

  /** The text with every run of two or more line feeds shortened to exactly two; a lone line feed stays. */
  function CollapseRuns(s: string): (r: string)
    ensures |r| <= |s|
  {
    if s == [] then []
    else if TripleNewlineAt(s, 0) then CollapseRuns(s[1..])
    else [s[0]] + CollapseRuns(s[1..])
  }

  /** A prefix that starts no blank line is left as it is. */
  lemma {:induction false} CollapseKeepsPrefix(s: string, i: nat)
    requires i <= |s|
    requires forall k :: 0 <= k < i ==> !BlankLineAt(s, k)
    ensures CollapseRuns(s) == s[..i] + CollapseRuns(s[i..])
    decreases i
  {
    if i == 0 {
      assert s[..0] + CollapseRuns(s[0..]) == CollapseRuns(s) by { assert s[0..] == s; }
    } else {
      var tail := s[1..];
      assert !BlankLineAt(s, 0);
      assert CollapseRuns(s) == [s[0]] + CollapseRuns(tail);
      forall k | 0 <= k < i - 1
        ensures !BlankLineAt(tail, k)
      {
        assert !BlankLineAt(s, k + 1);
        assert BlankLineAt(tail, k) <==> BlankLineAt(s, k + 1);
      }
      CollapseKeepsPrefix(tail, i - 1);
      assert tail[..i - 1] == s[1..i] && tail[i - 1..] == s[i..];
      assert [s[0]] + (s[1..i] + CollapseRuns(s[i..])) == s[..i] + CollapseRuns(s[i..]);
    }
  }

  /** A maximal run of at least two line feeds becomes one blank line. */
  lemma {:induction false} CollapseRun(s: string, i: nat, j: nat)
    requires i + 2 <= j <= |s|
    requires forall k :: i <= k < j ==> s[k] == '\n'
    requires j < |s| ==> s[j] != '\n'
    ensures CollapseRuns(s[i..]) == ParagraphBreak + CollapseRuns(s[j..])
    decreases j - i
  {
    assert s[i..][1..] == s[i + 1..];
    if i + 2 < j {
      assert TripleNewlineAt(s[i..], 0);
      CollapseRun(s, i + 1, j);
    } else {
      assert !TripleNewlineAt(s[i..], 0);
      assert !TripleNewlineAt(s[i + 1..], 0);
      assert s[i + 1..][1..] == s[j..];
    }
  }

  /** Up to the end of the first separating run, collapsing leaves the text before it and one blank line. */
  lemma CollapseAtFirstRun(s: string, i: nat, j: nat)
    requires i + 2 <= j <= |s|
    requires forall k :: 0 <= k < i ==> !BlankLineAt(s, k)
    requires forall k :: i <= k < j ==> s[k] == '\n'
    requires j < |s| ==> s[j] != '\n'
    ensures CollapseRuns(s) == s[..i] + ParagraphBreak + CollapseRuns(s[j..])
  {
    var rest := CollapseRuns(s[j..]);
    calc {
      CollapseRuns(s);
    == { CollapseKeepsPrefix(s, i); }
      s[..i] + CollapseRuns(s[i..]);
    == { CollapseRun(s, i, j); }
      s[..i] + (ParagraphBreak + rest);
    ==
      s[..i] + ParagraphBreak + rest;
    }
  }


  /** Joining the pieces with a blank line gives the text back with each separating run shortened to one blank line. */
  lemma {:induction false} SplitJoinCollapses(s: string)
    ensures Join(SplitBlankLines(s), ParagraphBreak) == CollapseRuns(s)
    decreases |s|
  {
    var i := FirstBlankLine(s);
    if i == |s| {
      CollapseKeepsPrefix(s, i);
      assert s[..i] == s && s[i..] == [];
    } else {
      var j := EndOfNewlines(s, i);
      assert j >= i + 2 by {
        assert s[i] == '\n' && s[i + 1] == '\n';
      }
      CollapseAtFirstRun(s, i, j);
      SplitJoinCollapses(s[j..]);
      JoinCons(s[..i], SplitBlankLines(s[j..]), ParagraphBreak);
    }
  }

  predicate StartsWithLineFeed(p: string) {
    p != [] && p[0] == '\n'
  }

  predicate EndsWithLineFeed(p: string) {
    p != [] && p[|p| - 1] == '\n'
  }

  /**
   * Every separating run is cut out whole: no piece but the first starts with a
   * line feed, and no piece but the last ends with one. With `SplitJoinCollapses`
   * this fixes the pieces completely.
   */
  lemma {:induction false} SplitCutsWholeRuns(s: string)
    ensures forall k :: 0 < k < |SplitBlankLines(s)| ==> !StartsWithLineFeed(SplitBlankLines(s)[k])
    ensures forall k :: 0 <= k < |SplitBlankLines(s)| - 1 ==> !EndsWithLineFeed(SplitBlankLines(s)[k])
    decreases |s|
  {
    var i := FirstBlankLine(s);
    if i < |s| {
      var j := EndOfNewlines(s, i);
      var rest := SplitBlankLines(s[j..]);
      var pieces := SplitBlankLines(s);
      assert pieces == [s[..i]] + rest;
      SplitCutsWholeRuns(s[j..]);
      assert !EndsWithLineFeed(s[..i]) by {
        if i > 0 {
          assert !BlankLineAt(s, i - 1);
        }
      }
      assert !StartsWithLineFeed(rest[0]) by {
        assert rest[0] == s[j..][..FirstBlankLine(s[j..])];
      }
      forall k | 0 < k < |pieces|
        ensures !StartsWithLineFeed(pieces[k])
      {
        assert pieces[k] == rest[k - 1];
      }
      forall k | 0 <= k < |pieces| - 1
        ensures !EndsWithLineFeed(pieces[k])
      {
        if k > 0 {
          assert pieces[k] == rest[k - 1];
        }
      }
    }
  }

  /** Without three line feeds in a row there is nothing to shorten. */
  lemma {:induction false} CollapseWithoutTriple(s: string)
    requires NoTripleNewline(s)
    ensures CollapseRuns(s) == s
    decreases |s|
  {
    if s != [] {
      assert !TripleNewlineAt(s, 0);
      NoTripleNewlineSuffix(s, 1);
      CollapseWithoutTriple(s[1..]);
      assert s == [s[0]] + s[1..];
    }
  }

  /**
   * The pieces that are not blank after trimming, in order. A piece trims to
   * nothing exactly when it is all white space (`TrimEmptyIffAllSpace`), which
   * is the test written here.
   */
  function NonBlank(pieces: seq<string>): (ps: seq<string>)
    ensures |ps| <= |pieces|
    ensures forall p {:trigger p in ps} :: p in ps <==> p in pieces && !AllSpace(p)
  {
    if pieces == [] then []
    else (if !AllSpace(pieces[0]) then [pieces[0]] else []) + NonBlank(pieces[1..])
  }

  /** Dropping blank pieces distributes over concatenation, and a single piece is kept exactly when it is not blank: the filter keeps order. */
  lemma {:induction false} NonBlankDistributes(a: seq<string>, b: seq<string>)
    ensures NonBlank(a + b) == NonBlank(a) + NonBlank(b)
    ensures |a| == 1 ==> NonBlank(a) == (if !AllSpace(a[0]) then a else [])
    decreases |a|
  {
    if a == [] {
      assert a + b == b;
    } else {
      var head := if !AllSpace(a[0]) then [a[0]] else [];
      assert NonBlank(a) == head + NonBlank(a[1..]);
      assert NonBlank(a + b) == NonBlank(a) + NonBlank(b) by {
        calc {
          NonBlank(a + b);
        == { assert (a + b)[1..] == a[1..] + b; }
          head + NonBlank(a[1..] + b);
        == { NonBlankDistributes(a[1..], b); }
          head + (NonBlank(a[1..]) + NonBlank(b));
        ==
          (head + NonBlank(a[1..])) + NonBlank(b);
        }
      }
      if |a| == 1 {
        assert NonBlank(a[1..]) == [] by { assert a[1..] == []; }
        assert head + [] == head;
      }
    }
  }



  /** The paragraphs of a document: its non-blank pieces between blank lines. */
  function Paragraphs(text: string): seq<string> {
    NonBlank(SplitBlankLines(text))
  }

  /** `question.toLowerCase().trim()` */
  function SearchTerm(question: string): string {
    Trim(Lower(question))
  }

  /** The paragraphs whose lower-cased text contains the term, in their original order. */
  function Matching(ps: seq<string>, term: string): (ms: seq<string>)
    ensures |ms| <= |ps|
    ensures forall m {:trigger m in ms} :: m in ms <==> m in ps && Contains(Lower(m), term)
  {
    if ps == [] then []
    else (if Contains(Lower(ps[0]), term) then [ps[0]] else []) + Matching(ps[1..], term)
  }

  /** Filtering distributes over concatenation, and a single paragraph is kept exactly when it matches: the filter keeps order. */
  lemma {:induction false} MatchingDistributes(a: seq<string>, b: seq<string>, term: string)
    ensures Matching(a + b, term) == Matching(a, term) + Matching(b, term)
    ensures |a| == 1 ==> Matching(a, term) == (if Contains(Lower(a[0]), term) then a else [])
    decreases |a|
  {
    if a == [] {
      assert a + b == b;
    } else {
      var head := if Contains(Lower(a[0]), term) then [a[0]] else [];
      calc {
        Matching(a + b, term);
      == { assert (a + b)[1..] == a[1..] + b; }
        head + Matching(a[1..] + b, term);
      == { MatchingDistributes(a[1..], b, term); }
        head + (Matching(a[1..], term) + Matching(b, term));
      ==
        (head + Matching(a[1..], term)) + Matching(b, term);
      }
      if |a| == 1 {
        assert Matching(a[1..], term) == [] by { assert a[1..] == []; }
        assert head + [] == head;
      }
    }
  }

  function Matches(pdfText: string, question: string): seq<string> {
    Matching(Paragraphs(pdfText), SearchTerm(question))
  }

  /** Lower-casing keeps white space white space. */
  lemma LowerKeepsSpace(s: string)
    requires AllSpace(s)
    ensures AllSpace(Lower(s))
  {
  }

  /** The empty term is in every paragraph: nothing is filtered out. */
  lemma {:induction false} MatchingEmptyTerm(ps: seq<string>)
    ensures Matching(ps, "") == ps
  {
    if ps != [] {
      ContainsEmpty(Lower(ps[0]));
      MatchingEmptyTerm(ps[1..]);
      assert [ps[0]] + ps[1..] == ps;
    }
  }

  /** A question of white space only matches every paragraph. */
  lemma BlankQuestionMatchesAll(pdfText: string, question: string)
    requires AllSpace(question)
    ensures Matches(pdfText, question) == Paragraphs(pdfText)
  {
    LowerKeepsSpace(question);
    TrimEmptyIffAllSpace(Lower(question));
    MatchingEmptyTerm(Paragraphs(pdfText));
  }

  /** The selected text: the matching paragraphs separated by blank lines, or else the first 3000 characters. */
  function ContextText(pdfText: string, question: string): (context: string)
    ensures forall m :: m in Matches(pdfText, question) ==> Contains(context, m)
    ensures Matches(pdfText, question) == [] ==> context == Take(pdfText, FallbackLength)
  {
    var ms := Matches(pdfText, question);
    if |ms| > 0 then
      JoinContainsAll(ms, ParagraphBreak);
      Join(ms, ParagraphBreak)
    else Take(pdfText, FallbackLength)
  }

  // ---------------------------------------------------------------------------
  // Page attribution

  /** A page is credited with a paragraph when it contains, case-sensitively, the paragraph's first 100 characters. */
  predicate Attributes(page: PageContent, m: string) {
    Contains(page.text, Take(m, AttributionPrefix))
  }

  predicate PageOf(n: nat, m: string, pages: seq<PageContent>) {
    exists p | p in pages :: p.pageNum == n && Attributes(p, m)
  }

  /** Page `n` is credited with one of the matching paragraphs. */
  predicate Attributed(n: nat, matches: seq<string>, pages: seq<PageContent>) {
    exists m | m in matches :: PageOf(n, m, pages)
  }

  predicate NoDuplicates(s: seq<nat>) {
    forall i, j :: 0 <= i < j < |s| ==> s[i] != s[j]
  }

  predicate Ascending(s: seq<nat>) {
    forall i, j :: 0 <= i < j < |s| ==> s[i] <= s[j]
  }

  predicate StrictlyAscending(s: seq<nat>) {
    forall i, j :: 0 <= i < j < |s| ==> s[i] < s[j]
  }

  /** Inserts `x` before the first element not smaller than it. */
  function InsertSorted(x: nat, s: seq<nat>): (r: seq<nat>)
    ensures multiset(r) == multiset(s) + multiset{x}
  {
    if s == [] || x <= s[0] then [x] + s
    else
      assert s == [s[0]] + s[1..];
      [s[0]] + InsertSorted(x, s[1..])
  }

  /** An ascending sequence stays ascending behind a head no larger than any of its elements. */
  lemma AscendingCons(h: nat, t: seq<nat>)
    requires Ascending(t)
    requires forall k :: 0 <= k < |t| ==> h <= t[k]
    ensures Ascending([h] + t)
  {
    var r := [h] + t;
    forall i, j | 0 <= i < j < |r|
      ensures r[i] <= r[j]
    {
      assert r[j] == t[j - 1];
      if i > 0 {
        assert r[i] == t[i - 1];
      }
    }
  }

  lemma {:induction false} InsertSortedAscending(x: nat, s: seq<nat>)
    requires Ascending(s)
    ensures Ascending(InsertSorted(x, s))
  {
    if s == [] || x <= s[0] {
      AscendingCons(x, s);
    } else {
      var rest := InsertSorted(x, s[1..]);
      InsertSortedAscending(x, s[1..]);
      forall k | 0 <= k < |rest|
        ensures s[0] <= rest[k]
      {
        var y := rest[k];
        assert y in multiset(rest);
        if y != x {
          assert y in multiset(s[1..]);
          var m :| 0 <= m < |s[1..]| && s[1..][m] == y;
          assert s[m + 1] == y;
        }
      }
      AscendingCons(s[0], rest);
    }
  }

  /** `numbers.sort((a, b) => a - b)`: ascending, and a permutation of its input. */
  function SortAscending(s: seq<nat>): (r: seq<nat>)
    ensures multiset(r) == multiset(s)
    ensures Ascending(r)
  {
    if s == [] then []
    else
      var init := s[..|s| - 1];
      assert s == init + [s[|s| - 1]];
      var sorted := SortAscending(init);
      InsertSortedAscending(s[|s| - 1], sorted);
      InsertSorted(s[|s| - 1], sorted)
  }

  /** A sequence without repeats holds each value at most once. */
  lemma {:induction false} NoDuplicatesCount(s: seq<nat>, v: nat)
    requires NoDuplicates(s)
    ensures multiset(s)[v] <= 1
  {
    if s != [] {
      assert s == [s[0]] + s[1..];
      assert NoDuplicates(s[1..]);
      NoDuplicatesCount(s[1..], v);
      if s[0] == v {
        assert v !in s[1..];
        assert multiset(s[1..])[v] == 0;
      }
    }
  }

  /** A permutation of a sequence without repeats has none. */
  lemma NoDuplicatesPermutation(a: seq<nat>, b: seq<nat>)
    requires multiset(a) == multiset(b) && NoDuplicates(a)
    ensures NoDuplicates(b)
  {
    forall i, j | 0 <= i < j < |b|
      ensures b[i] != b[j]
    {
      if b[i] == b[j] {
        var v := b[i];
        assert b == b[..i] + [b[i]] + b[i + 1..j] + [b[j]] + b[j + 1..];
        assert multiset(b)[v] >= 2;
        NoDuplicatesCount(a, v);
        assert false;
      }
    }
  }

  lemma AscendingDistinctIsStrict(s: seq<nat>)
    requires Ascending(s) && NoDuplicates(s)
    ensures StrictlyAscending(s)
  {
  }

  /** `findRelevantContext`, as the source states it: the selected text, and the credited pages in ascending order. */
  method FindRelevantContext(pdfText: string, pageContents: seq<PageContent>, question: string) returns (r: ContextResult)
    ensures AllSpace(pdfText) ==> r == ContextResult("", [])
    ensures !AllSpace(pdfText) ==> r.context == ContextText(pdfText, question)
    ensures StrictlyAscending(r.pages)
    ensures forall n :: n in r.pages <==> !AllSpace(pdfText) && Attributed(n, Matches(pdfText, question), pageContents)
  {
    TrimEmptyIffAllSpace(pdfText);
    if pdfText == [] || Trim(pdfText) == [] {
      return ContextResult("", []);
    }
    var matches := Matches(pdfText, question);
    var context := if |matches| > 0 then Join(matches, ParagraphBreak) else Take(pdfText, FallbackLength);
    var matchedPages := CreditPages(matches, pageContents);
    var sorted := SortAscending(matchedPages);
    SortDistinct(matchedPages);
    r := ContextResult(context, sorted);
  }

  /** The nested loop of `findRelevantContext`: each credited page number once, in the order first credited. */
  method CreditPages(matches: seq<string>, pageContents: seq<PageContent>) returns (matchedPages: seq<nat>)
    ensures NoDuplicates(matchedPages)
    ensures forall n :: n in matchedPages <==> Attributed(n, matches, pageContents)
  {
    matchedPages := [];
    for i := 0 to |matches|
      invariant NoDuplicates(matchedPages)
      invariant forall n :: n in matchedPages <==> Attributed(n, matches[..i], pageContents)
    {
      var m := matches[i];
      for j := 0 to |pageContents|
        invariant NoDuplicates(matchedPages)
        invariant forall n :: n in matchedPages <==> Attributed(n, matches[..i], pageContents) || PageOf(n, m, pageContents[..j])
      {
        var page := pageContents[j];
        PageOfSnoc(m, pageContents[..j], page);
        assert pageContents[..j + 1] == pageContents[..j] + [page];
        if Attributes(page, m) && page.pageNum !in matchedPages {
          matchedPages := matchedPages + [page.pageNum];
        }
      }
      assert pageContents[..|pageContents|] == pageContents;
      AttributedSnoc(matches[..i], m, pageContents);
      assert matches[..i + 1] == matches[..i] + [m];
    }
    assert matches[..|matches|] == matches;
  }

  lemma PageOfSnoc(m: string, pages: seq<PageContent>, page: PageContent)
    ensures forall n :: PageOf(n, m, pages + [page]) <==> PageOf(n, m, pages) || (page.pageNum == n && Attributes(page, m))
  {
    assert forall p :: p in pages + [page] <==> p in pages || p == page;
  }

  lemma AttributedSnoc(matches: seq<string>, m: string, pages: seq<PageContent>)
    ensures forall n :: Attributed(n, matches + [m], pages) <==> Attributed(n, matches, pages) || PageOf(n, m, pages)
  {
    assert forall x :: x in matches + [m] <==> x in matches || x == m;
  }

  /** Sorting a sequence without repeats gives a strictly ascending sequence of the same numbers. */
  lemma SortDistinct(s: seq<nat>)
    requires NoDuplicates(s)
    ensures StrictlyAscending(SortAscending(s))
    ensures forall n :: n in SortAscending(s) <==> n in s
  {
    var sorted := SortAscending(s);
    NoDuplicatesPermutation(s, sorted);
    AscendingDistinctIsStrict(sorted);
    assert forall n :: n in sorted <==> n in multiset(sorted);
    assert forall n :: n in s <==> n in multiset(s);
  }

  /** Without a matching paragraph the context is a prefix of the document and no page is credited. */
  lemma NoMatchFallsBack(pdfText: string, question: string, pageContents: seq<PageContent>, n: nat)
    requires Matches(pdfText, question) == []
    ensures ContextText(pdfText, question) == pdfText[..if |pdfText| <= FallbackLength then |pdfText| else FallbackLength]
    ensures !Attributed(n, Matches(pdfText, question), pageContents)
  {
    var fallback := Take(pdfText, FallbackLength);
    assert ContextText(pdfText, question) == fallback;
    NothingAttributed(n, Matches(pdfText, question), pageContents);
  }

  lemma NothingAttributed(n: nat, matches: seq<string>, pageContents: seq<PageContent>)
    requires matches == []
    ensures !Attributed(n, matches, pageContents)
  {
  }

  // ---------------------------------------------------------------------------
  // Assembling the text of a document

  /** A text-content item: a run of text, or a marked-content marker without text. */
  datatype TextItem = Str(str: string) | MarkedContent

  /** What reading one page gave: the read threw, it yielded no text content, or it yielded items. */
  datatype PageRead = PageFailed | NoTextContent | Items(items: seq<TextItem>)

  function ItemString(item: TextItem): string {
    match item
    case Str(s) => s
    case MarkedContent => ""
  }

  /** The page's items joined with single spaces, then trimmed. */
  function ItemStrings(items: seq<TextItem>): (strs: seq<string>)
    ensures |strs| == |items|
  {
    seq(|items|, i requires 0 <= i < |items| => ItemString(items[i]))
  }

  function PageText(items: seq<TextItem>): (t: string)
    ensures Trim(t) == t
  {
    var joined := Join(ItemStrings(items), " ");
    TrimIdempotent(joined);
    Trim(joined)
  }

  /** A page text as extraction keeps it: not empty, and without surrounding white space. */
  predicate NonEmptyTrimmed(t: string) {
    t != [] && Trim(t) == t
  }

  predicate PagesNumbered(contents: seq<PageContent>, pageCount: nat) {
    forall k :: 0 <= k < |contents| ==> 1 <= contents[k].pageNum <= pageCount
  }

  predicate TextsTrimmed(contents: seq<PageContent>) {
    forall k :: 0 <= k < |contents| ==> NonEmptyTrimmed(contents[k].text)
  }

  predicate PagesAscending(contents: seq<PageContent>) {
    forall i, j :: 0 <= i < j < |contents| ==> contents[i].pageNum < contents[j].pageNum
  }

  /** Page contents of a document of `pageCount` pages as extraction returns them. */
  predicate WellFormedContents(contents: seq<PageContent>, pageCount: nat) {
    PagesNumbered(contents, pageCount) && TextsTrimmed(contents) && PagesAscending(contents)
  }

  lemma WellFormedWiden(contents: seq<PageContent>, pageCount: nat)
    requires WellFormedContents(contents, pageCount)
    ensures WellFormedContents(contents, pageCount + 1)
  {
  }

  lemma WellFormedSnoc(contents: seq<PageContent>, page: PageContent, pageCount: nat)
    requires WellFormedContents(contents, pageCount)
    requires page.pageNum == pageCount + 1 && NonEmptyTrimmed(page.text)
    ensures WellFormedContents(contents + [page], pageCount + 1)
  {
    var r := contents + [page];
    assert forall k :: 0 <= k < |contents| ==> r[k] == contents[k];
    assert PagesNumbered(r, pageCount + 1);
    assert TextsTrimmed(r);
    forall i, j | 0 <= i < j < |r|
      ensures r[i].pageNum < r[j].pageNum
    {
      assert r[i] == contents[i];
      if j < |contents| {
        assert r[j] == contents[j];
      }
    }
  }

  /** The text a page read contributes: its joined and trimmed items, or nothing when the read failed or gave no text content. */
  function ReadText(read: PageRead): string {
    match read
    case Items(items) => PageText(items)
    case _ => ""
  }

  /** `page` is one that extraction keeps: a page of the document whose read gave exactly that text, and not an empty one. */
  predicate Kept(pageReads: seq<PageRead>, page: PageContent) {
    1 <= page.pageNum <= |pageReads| && page.text != [] && page.text == ReadText(pageReads[page.pageNum - 1])
  }

  /** The pages kept by extraction: those whose text is not empty, numbered from 1, in page order. */
  function PageContents(pageReads: seq<PageRead>): (contents: seq<PageContent>)
    ensures WellFormedContents(contents, |pageReads|)
    ensures forall page :: page in contents <==> Kept(pageReads, page)
  {
    if pageReads == [] then []
    else
      var prev := PageContents(pageReads[..|pageReads| - 1]);
      KeepPageKeeps(pageReads, prev);
      KeepPage(prev, pageReads[|pageReads| - 1], |pageReads|)
  }

  /** One more page read: the kept pages grow by that page exactly when it has text. */
  lemma KeepPageKeeps(pageReads: seq<PageRead>, prev: seq<PageContent>)
    requires pageReads != []
    requires WellFormedContents(prev, |pageReads| - 1)
    requires forall page :: page in prev <==> Kept(pageReads[..|pageReads| - 1], page)
    ensures forall page :: page in KeepPage(prev, pageReads[|pageReads| - 1], |pageReads|) <==> Kept(pageReads, page)
  {
    var n := |pageReads|;
    var init := pageReads[..n - 1];
    var contents := KeepPage(prev, pageReads[n - 1], n);
    KeepPageMembers(prev, pageReads[n - 1], n);
    forall page
      ensures page in contents <==> Kept(pageReads, page)
    {
      if 1 <= page.pageNum < n {
        assert init[page.pageNum - 1] == pageReads[page.pageNum - 1];
      }
    }
  }

  lemma KeepPageMembers(prev: seq<PageContent>, read: PageRead, pageNum: nat)
    requires pageNum >= 1 && WellFormedContents(prev, pageNum - 1)
    ensures forall page :: page in KeepPage(prev, read, pageNum) <==>
      page in prev || (page.pageNum == pageNum && page.text != [] && page.text == ReadText(read))
  {
  }

  /** Appends the page read as number `pageNum` when it has text. */
  function KeepPage(prev: seq<PageContent>, read: PageRead, pageNum: nat): (contents: seq<PageContent>)
    requires pageNum >= 1 && WellFormedContents(prev, pageNum - 1)
    ensures WellFormedContents(contents, pageNum)
  {
    WellFormedWiden(prev, pageNum - 1);
    var t := ReadText(read);
    if t != [] then
      WellFormedSnoc(prev, PageContent(t, pageNum), pageNum - 1);
      prev + [PageContent(t, pageNum)]
    else prev
  }

  /** Each kept page's text followed by a blank line, in order. */
  function Blocks(contents: seq<PageContent>): string {
    if contents == [] then ""
    else Blocks(contents[..|contents| - 1]) + contents[|contents| - 1].text + ParagraphBreak
  }

  /** The per-page loop of `extractTextFromPDF`. */
  method AssemblePages(pageReads: seq<PageRead>) returns (fullText: string, contents: seq<PageContent>)
    ensures contents == PageContents(pageReads)
    ensures fullText == Blocks(contents)
  {
    fullText := "";
    contents := [];
    for pageNum := 1 to |pageReads| + 1
      invariant contents == PageContents(pageReads[..pageNum - 1])
      invariant fullText == Blocks(contents)
    {
      PageContentsStep(pageReads, pageNum);
      match pageReads[pageNum - 1]
      case Items(items) =>
        var pageText := PageText(items);
        if pageText != [] {
          BlocksSnoc(contents, PageContent(pageText, pageNum));
          contents := contents + [PageContent(pageText, pageNum)];
          fullText := fullText + pageText + ParagraphBreak;
        }
      case _ =>
    }
    assert pageReads[..|pageReads|] == pageReads;
  }

  lemma PageContentsStep(pageReads: seq<PageRead>, n: nat)
    requires 1 <= n <= |pageReads|
    ensures PageContents(pageReads[..n]) == KeepPage(PageContents(pageReads[..n - 1]), pageReads[n - 1], n)
  {
    assert pageReads[..n][..n - 1] == pageReads[..n - 1];
  }

  lemma BlocksSnoc(contents: seq<PageContent>, page: PageContent)
    ensures Blocks(contents + [page]) == Blocks(contents) + page.text + ParagraphBreak
  {
    assert (contents + [page])[..|contents|] == contents;
  }

  lemma AllSpaceMiddle(a: string, b: string, c: string)
    requires AllSpace(a + b + c)
    ensures AllSpace(b)
  {
    assert forall i :: 0 <= i < |b| ==> b[i] == (a + b + c)[|a| + i];
  }

  /** The assembled text is blank exactly when no page had text. */
  lemma BlocksBlankIffNoPages(contents: seq<PageContent>, pageCount: nat)
    requires WellFormedContents(contents, pageCount)
    ensures AllSpace(Blocks(contents)) <==> contents == []
  {
    if contents != [] {
      var last := contents[|contents| - 1];
      assert NonEmptyTrimmed(last.text);
      assert !IsSpace(last.text[0]) by { TrimEmptyIffAllSpace(last.text); }
      if AllSpace(Blocks(contents)) {
        AllSpaceMiddle(Blocks(contents[..|contents| - 1]), last.text, ParagraphBreak);
      }
    }
  }

  /** The final `filter(page => page.text.trim().length > 0)`. */
  function KeepNonBlank(contents: seq<PageContent>): (kept: seq<PageContent>)
    ensures forall p :: p in kept <==> p in contents && Trim(p.text) != []
  {
    if contents == [] then []
    else (if Trim(contents[0].text) != [] then [contents[0]] else []) + KeepNonBlank(contents[1..])
  }

  /** On assembled pages the final filter removes nothing. */
  lemma {:induction false} KeepNonBlankKeepsAll(contents: seq<PageContent>)
    requires TextsTrimmed(contents)
    ensures KeepNonBlank(contents) == contents
  {
    if contents != [] {
      assert KeepNonBlank(contents) == [contents[0]] + KeepNonBlank(contents[1..]) by {
        assert NonEmptyTrimmed(contents[0].text);
      }
      assert TextsTrimmed(contents[1..]) by {
        forall k | 0 <= k < |contents[1..]|
          ensures NonEmptyTrimmed(contents[1..][k].text)
        {
          assert contents[1..][k] == contents[k + 1];
        }
      }
      KeepNonBlankKeepsAll(contents[1..]);
      assert [contents[0]] + contents[1..] == contents;
    }
  }

  // ---------------------------------------------------------------------------
  // Loading, errors and the document cache

  const PdfMimeType := "application/pdf"
  const InvalidFileTypeMessage := "Invalid file type. Please upload a PDF file."
  const PasswordMessage := "This PDF is password protected. Please provide the password."
  const CorruptMessage := "The PDF file is corrupted. Please try a different file."
  const LoadFailedMessage := "Failed to load PDF file. Please try again."
  const InvalidStructureMessage := "Invalid PDF document structure"
  const NoReadableTextMessage := "No readable text found in the PDF. The document might be scanned or contain only images."
  /** One hour, in milliseconds. */
  const CacheDuration := 3600000

  /** The metadata of an uploaded file. */
  datatype FileInfo = FileInfo(name: string, mimeType: string, size: nat)

  /** A loaded document: what reading each of its pages gives. */
  datatype PdfDocument = PdfDocument(pageReads: seq<PageRead>)

  /** A value thrown by the loader: an `Error` with its message, or something else. */
  datatype Thrown = ErrorObject(message: string) | OtherValue

  /** What loading the file's bytes gives. */
  datatype LoadOutcome = Loaded(doc: PdfDocument) | LoadThrew(thrown: Thrown)

  datatype CacheEntry = CacheEntry(pdf: PdfDocument, timestamp: nat)

  /** What the caller sees of a completed extraction. */
  datatype Extraction = Extraction(fullText: string, pageContents: seq<PageContent>)

  /** The message `loadPDF` rethrows: a password problem, then corruption, then a generic failure. */
  function LoadErrorMessage(t: Thrown): (message: string)
    ensures message in {PasswordMessage, CorruptMessage, LoadFailedMessage}
    ensures message == PasswordMessage <==> t.ErrorObject? && Contains(t.message, "password")
    ensures message == CorruptMessage <==> t.ErrorObject? && !Contains(t.message, "password") && Contains(t.message, "corrupt")
  {
    if t.ErrorObject? && Contains(t.message, "password") then PasswordMessage
    else if t.ErrorObject? && Contains(t.message, "corrupt") then CorruptMessage
    else LoadFailedMessage
  }

  /** A message naming both a password and corruption is reported as a password problem. */
  lemma PasswordTakesPrecedence(message: string)
    requires Contains(message, "password") && Contains(message, "corrupt")
    ensures LoadErrorMessage(ErrorObject(message)) == PasswordMessage
  {
  }

  function Loading(load: LoadOutcome): Result<PdfDocument, string> {
    match load
    case Loaded(doc) => Success(doc)
    case LoadThrew(t) => Failure(LoadErrorMessage(t))
  }

  /** A cache entry is served while less than an hour has passed since it was stored. */
  predicate Fresh(entry: CacheEntry, now: nat) {
    now - entry.timestamp < CacheDuration
  }

  /** What `getCachedPDF` gives: the fresh cached document, or else the outcome of loading. */
  function Lookup(entries: map<string, CacheEntry>, key: string, checkedAt: nat, load: LoadOutcome): Result<PdfDocument, string> {
    if key in entries && Fresh(entries[key], checkedAt) then Success(entries[key].pdf) else Loading(load)
  }

  /**
   * The cache after `getCachedPDF`: a fresh entry is served and kept; otherwise
   * a successful load is stored under the key, stamped with the clock after
   * loading, and a failed load leaves the cache alone.
   */
  function CacheAfter(entries: map<string, CacheEntry>, key: string, checkedAt: nat, load: LoadOutcome, loadedAt: nat): (after: map<string, CacheEntry>)
    ensures forall k :: k != key ==> (k in after <==> k in entries)
    ensures forall k :: k != key && k in entries ==> after[k] == entries[k]
    ensures key in entries ==> key in after
    ensures Lookup(entries, key, checkedAt, load).Success? ==> key in after && after[key].pdf == Lookup(entries, key, checkedAt, load).value
  {
    if key in entries && Fresh(entries[key], checkedAt) then entries
    else if load.Loaded? then entries[key := CacheEntry(load.doc, loadedAt)]
    else entries
  }

  /** A document just loaded is served from the cache, whatever a later load would give, until an hour after it was stored. */
  lemma LoadedDocumentServedForAnHour(entries: map<string, CacheEntry>, key: string, checkedAt: nat, load: LoadOutcome, loadedAt: nat,
                                      later: nat, laterLoad: LoadOutcome)
    requires !(key in entries && Fresh(entries[key], checkedAt)) && load.Loaded?
    ensures Lookup(CacheAfter(entries, key, checkedAt, load, loadedAt), key, later, laterLoad) ==
      (if later - loadedAt < CacheDuration then Success(load.doc) else Loading(laterLoad))
  {
  }

  /** The cache after `extractTextFromPDF`: untouched for a file that is not a PDF. */
  function CacheAfterExtraction(file: FileInfo, entries: map<string, CacheEntry>, key: string, checkedAt: nat, load: LoadOutcome, loadedAt: nat): (after: map<string, CacheEntry>)
    ensures file.mimeType != PdfMimeType ==> after == entries
    ensures file.mimeType == PdfMimeType ==> after == CacheAfter(entries, key, checkedAt, load, loadedAt)
  {
    if file.mimeType != PdfMimeType then entries else CacheAfter(entries, key, checkedAt, load, loadedAt)
  }

  /** The rest of `extractTextFromPDF` once the document is at hand. */
  function ExtractFrom(loaded: Result<PdfDocument, string>): (r: Result<Extraction, string>)
    ensures loaded.Failure? ==> r == Failure(loaded.error)
    ensures r.Success? ==> r.value.fullText != [] && Trim(r.value.fullText) == r.value.fullText
  {
    match loaded
    case Failure(e) => Failure(e)
    case Success(doc) =>
      if |doc.pageReads| == 0 then Failure(InvalidStructureMessage)
      else
        var contents := PageContents(doc.pageReads);
        var full := Blocks(contents);
        TrimIdempotent(full);
        if Trim(full) == [] then Failure(NoReadableTextMessage)
        else Success(Extraction(Trim(full), KeepNonBlank(contents)))
  }

  /** What `extractTextFromPDF` gives for a file, given the cache it consults. */
  function ExtractionOutcome(file: FileInfo, entries: map<string, CacheEntry>, key: string, checkedAt: nat, load: LoadOutcome): (r: Result<Extraction, string>)
    ensures r.Success? ==> file.mimeType == PdfMimeType && r.value.fullText != [] && Trim(r.value.fullText) == r.value.fullText
    ensures file.mimeType == PdfMimeType && Lookup(entries, key, checkedAt, load).Failure? ==>
      r == Failure(Lookup(entries, key, checkedAt, load).error)
  {
    if file.mimeType != PdfMimeType then Failure(InvalidFileTypeMessage)
    else ExtractFrom(Lookup(entries, key, checkedAt, load))
  }

  /** A file not typed exactly as a PDF is refused before any loading: neither the cache nor the loader matters. */
  lemma NonPdfRefused(file: FileInfo, e1: map<string, CacheEntry>, e2: map<string, CacheEntry>, key: string, t1: nat, t2: nat, l1: LoadOutcome, l2: LoadOutcome)
    requires file.mimeType != PdfMimeType
    ensures ExtractionOutcome(file, e1, key, t1, l1) == ExtractionOutcome(file, e2, key, t2, l2) == Failure(InvalidFileTypeMessage)
  {
  }

  /** A successful extraction keeps non-empty, trimmed page texts in strictly ascending page order, and its full text is the trimmed concatenation of those texts each followed by a blank line. */
  lemma ExtractionWellFormed(loaded: Result<PdfDocument, string>)
    requires ExtractFrom(loaded).Success?
    ensures var e := ExtractFrom(loaded).value;
      && WellFormedContents(e.pageContents, |loaded.value.pageReads|)
      && e.fullText == Trim(Blocks(e.pageContents))
      && e.pageContents != []
  {
    var contents := PageContents(loaded.value.pageReads);
    KeepNonBlankKeepsAll(contents);
    TrimEmptyIffAllSpace(Blocks(contents));
  }

  /** A loaded document with pages fails extraction exactly when none of its pages has text. */
  lemma NoTextIffNoPages(doc: PdfDocument)
    requires |doc.pageReads| > 0
    ensures ExtractFrom(Success(doc)) == Failure(NoReadableTextMessage) <==>
      forall i :: 0 <= i < |doc.pageReads| ==> ReadText(doc.pageReads[i]) == []
  {
    var contents := PageContents(doc.pageReads);
    TrimEmptyIffAllSpace(Blocks(contents));
    BlocksBlankIffNoPages(contents, |doc.pageReads|);
    NoPagesIffNoText(doc.pageReads);
  }

  /** No page is kept exactly when no page read gave text. */
  lemma NoPagesIffNoText(pageReads: seq<PageRead>)
    ensures PageContents(pageReads) == [] <==> forall i :: 0 <= i < |pageReads| ==> ReadText(pageReads[i]) == []
  {
    var contents := PageContents(pageReads);
    if contents != [] {
      assert Kept(pageReads, contents[0]);
    }
    forall i | 0 <= i < |pageReads| && ReadText(pageReads[i]) != []
      ensures contents != []
    {
      var page := PageContent(ReadText(pageReads[i]), i + 1);
      assert page.pageNum - 1 == i;
      assert Kept(pageReads, page);
      assert page in contents;
    }
  }

  /** The module-level cache of loaded documents, keyed by the hash of the file's bytes. */
  class PdfCache {
    var entries: map<string, CacheEntry>

    constructor ()
      ensures entries == map[]
    {
      entries := map[];
    }

    /**
     * `getCachedPDF`: `checkedAt` is the clock when the cache is consulted and
     * `loadedAt` the clock after loading; a load replaces the entry only when
     * it succeeds.
     */
    method GetCachedPDF(key: string, checkedAt: nat, load: LoadOutcome, loadedAt: nat) returns (r: Result<PdfDocument, string>)
      modifies this
      ensures r == Lookup(old(entries), key, checkedAt, load)
      ensures entries == CacheAfter(old(entries), key, checkedAt, load, loadedAt)
    {
      if key in entries && checkedAt - entries[key].timestamp < CacheDuration {
        return Success(entries[key].pdf);
      }
      match load
      case Loaded(doc) =>
        entries := entries[key := CacheEntry(doc, loadedAt)];
        r := Success(doc);
      case LoadThrew(t) =>
        r := Failure(LoadErrorMessage(t));
    }

    /** `extractTextFromPDF`: the file type is checked before the cache is consulted or anything is loaded. */
    method ExtractTextFromPDF(file: FileInfo, key: string, checkedAt: nat, load: LoadOutcome, loadedAt: nat) returns (r: Result<Extraction, string>)
      modifies this
      ensures r == ExtractionOutcome(file, old(entries), key, checkedAt, load)
      ensures entries == CacheAfterExtraction(file, old(entries), key, checkedAt, load, loadedAt)
    {
      if file.mimeType != PdfMimeType {
        return Failure(InvalidFileTypeMessage);
      }
      var loaded := GetCachedPDF(key, checkedAt, load, loadedAt);
      if loaded.Failure? {
        return Failure(loaded.error);
      }
      var pdf := loaded.value;
      if |pdf.pageReads| == 0 {
        return Failure(InvalidStructureMessage);
      }
      var fullText, pageContents := AssemblePages(pdf.pageReads);
      if Trim(fullText) == [] {
        return Failure(NoReadableTextMessage);
      }
      r := Success(Extraction(Trim(fullText), KeepNonBlank(pageContents)));
    }
  }

  // ---------------------------------------------------------------------------
  // Answering

  /** The reply for a blank document, as the source spells it. */
  const NoDocumentReply := "\U{F8FF}\U{FC}\U{EC}\U{D1} I didn't detect any content in your document. Please upload a readable PDF!"

  /** The selector as a function, for use in specifications: what `FindRelevantContext` returns. */
  function RelevantContext(pdfText: string, pageContents: seq<PageContent>, question: string): (r: ContextResult)
    ensures AllSpace(pdfText) ==> r == ContextResult("", [])
    ensures StrictlyAscending(r.pages)
    ensures forall n :: n in r.pages <==> !AllSpace(pdfText) && Attributed(n, Matches(pdfText, question), pageContents)
  {
    if AllSpace(pdfText) then ContextResult("", [])
    else ContextResult(ContextText(pdfText, question), AttributedPages(Matches(pdfText, question), pageContents))
  }

  /** The credited page numbers in ascending order, each once. */
  function AttributedPages(matches: seq<string>, pages: seq<PageContent>): (r: seq<nat>)
    ensures StrictlyAscending(r)
    ensures forall n :: n in r <==> Attributed(n, matches, pages)
  {
    var distinct := Dedup(Credited(matches, pages));
    SortDistinct(distinct);
    SortAscending(distinct)
  }

  /** Page by page, the numbers of the pages credited with some matching paragraph. */
  function Credited(matches: seq<string>, pages: seq<PageContent>): (r: seq<nat>)
    ensures forall n :: n in r <==> Attributed(n, matches, pages)
  {
    if pages == [] then []
    else
      var r := (if exists m | m in matches :: Attributes(pages[0], m) then [pages[0].pageNum] else []) + Credited(matches, pages[1..]);
      assert forall m, n :: PageOf(n, m, pages) <==> (pages[0].pageNum == n && Attributes(pages[0], m)) || PageOf(n, m, pages[1..]) by {
        assert forall p :: p in pages <==> p == pages[0] || p in pages[1..];
      }
      r
  }

  /** Keeps the last occurrence of each number. */
  function Dedup(s: seq<nat>): (r: seq<nat>)
    ensures NoDuplicates(r)
    ensures forall n :: n in r <==> n in s
  {
    if s == [] then []
    else
      var rest := Dedup(s[1..]);
      if s[0] in rest then rest else [s[0]] + rest
  }

  /** The method and the function agree. */
  lemma SelectorsAgree(pdfText: string, pageContents: seq<PageContent>, question: string, r: ContextResult)
    requires AllSpace(pdfText) ==> r == ContextResult("", [])
    requires !AllSpace(pdfText) ==> r.context == ContextText(pdfText, question)
    requires StrictlyAscending(r.pages)
    requires forall n :: n in r.pages <==> !AllSpace(pdfText) && Attributed(n, Matches(pdfText, question), pageContents)
    ensures r == RelevantContext(pdfText, pageContents, question)
  {
    if !AllSpace(pdfText) {
      StrictlyAscendingUnique(r.pages, AttributedPages(Matches(pdfText, question), pageContents));
    }
  }

  /** The tail of a strictly ascending sequence holds exactly the elements above its head. */
  lemma SplitHead(s: seq<nat>)
    requires s != [] && StrictlyAscending(s)
    ensures forall n :: n in s ==> s[0] <= n
    ensures forall n :: n in s[1..] <==> n in s && n != s[0]
  {
    forall n | n in s
      ensures s[0] <= n
      ensures n in s[1..] <==> n != s[0]
    {
      var k :| 0 <= k < |s| && s[k] == n;
      assert k == 0 || s[0] < s[k];
      if k > 0 {
        assert s[1..][k - 1] == n;
      }
    }
    forall n | n in s[1..]
      ensures n in s
    {
      var k :| 0 <= k < |s[1..]| && s[1..][k] == n;
      assert s[k + 1] == n;
    }
  }

  /** Two strictly ascending sequences with the same elements are equal. */
  lemma {:induction false} StrictlyAscendingUnique(a: seq<nat>, b: seq<nat>)
    requires StrictlyAscending(a) && StrictlyAscending(b)
    requires forall n :: n in a <==> n in b
    ensures a == b
    decreases |a|
  {
    assert a == [] <==> b == [] by {
      if a != [] {
        assert a[0] in a;
      }
      if b != [] {
        assert b[0] in b;
      }
    }
    if a != [] {
      SplitHead(a);
      SplitHead(b);
      assert a[0] in b && b[0] in a;
      assert a[0] == b[0];
      assert StrictlyAscending(a[1..]) && StrictlyAscending(b[1..]);
      StrictlyAscendingUnique(a[1..], b[1..]);
      assert a == [a[0]] + a[1..] && b == [b[0]] + b[1..];
    }
  }

  /**
   * `answerQuestion`: a blank document gets a fixed reply; otherwise the
   * selected context and its pages go to the answer routing.
   */
  function AnswerQuestion(pdfText: string, pageContents: seq<PageContent>, question: string,
                          classifier: AiService.Completion, generation: AiService.Completion): (reply: string)
    ensures AllSpace(pdfText) ==> reply == NoDocumentReply
    ensures !AllSpace(pdfText) ==> reply == AiService.GenerateAnswer(ContextText(pdfText, question),
      AttributedPages(Matches(pdfText, question), pageContents), question, classifier, generation)
  {
    TrimEmptyIffAllSpace(pdfText);
    if pdfText == [] || Trim(pdfText) == [] then NoDocumentReply
    else
      var selected := RelevantContext(pdfText, pageContents, question);
      AiService.GenerateAnswer(selected.context, selected.pages, question, classifier, generation)
  }
}
