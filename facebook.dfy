/**
 * The lunch-candidate selection of `scrape_facebook_page` in fb.py, once the page text is
 * loaded: lines that mention lunch trigger a window of context lines, long enough windows become
 * candidates, and the first longest candidate is cleaned and returned. The page text is a
 * parameter; loading it is left out.
 */
module FacebookLunch {
  import opened Wrappers
  import opened Text
  import opened Cleaning
  import opened Found

  /** Words that make a line mention lunch. */
  const LunchKeywords: seq<string> := ["lunch", "lunchdags", "dagens", "idag", "serverar", "meny", "rätt"]

  /** A stripped line triggers a window: non-empty, at least 20 characters, and a lunch word in its lower-cased form. */
  predicate IsTrigger(line: string) {
    !(line == [] || |line| < 20) && ContainsAny(Lower(line), LunchKeywords)
  }

  /** A stripped line kept in a window: non-empty and longer than 10 characters. */
  predicate IsContextLine(line: string) {
    line != [] && |line| > 10
  }

  /** The window around the trigger at `i` starts one line before it... */
  function WindowStart(i: nat): nat {
    Max(0, i - 1)
  }

  /** ...and ends (exclusive) five lines after it, or at the last line. */
  function WindowEnd(count: nat, i: nat): nat {
    Min(count, i + 6)
  }

  /** The context lines kept from the stripped lines `start` .. `j - 1`, in order. */
  function ContextUpTo(stripped: seq<string>, start: nat, j: nat): seq<string>
    requires start <= j <= |stripped|
    decreases j
  {
    if j == start then []
    else ContextUpTo(stripped, start, j - 1) + (if IsContextLine(stripped[j - 1]) then [stripped[j - 1]] else [])
  }

  /** The context lines of the window around the line at `i`. */
  function ContextLines(stripped: seq<string>, i: nat): seq<string>
    requires i < |stripped|
  {
    ContextUpTo(stripped, WindowStart(i), WindowEnd(|stripped|, i))
  }

  /** The candidate the line at `i` yields: its window's context lines joined by spaces, when it triggers and the text is longer than 50 characters. */
  function Candidate(stripped: seq<string>, i: nat): Option<string>
    requires i < |stripped|
  {
    if !IsTrigger(stripped[i]) then None
    else
      var content := Join(ContextLines(stripped, i), " ");
      if |content| > 50 then Some(content) else None
  }

  function CandidateTexts(stripped: seq<string>): seq<Option<string>> {
    seq(|stripped|, i requires 0 <= i < |stripped| => Candidate(stripped, i))
  }

  /** `lunch_candidates`: the candidates of all lines, in line order. */
  function LunchCandidates(lines: seq<string>): seq<string> {
    Collected(CandidateTexts(StripAll(lines)), |lines|)
  }

  /** Python's `max(candidates[:n], key=len)`: the first of the longest. */
  function Longest(candidates: seq<string>, n: nat): string
    requires 1 <= n <= |candidates|
  {
    if n == 1 then candidates[0]
    else
      var best := Longest(candidates, n - 1);
      if |candidates[n - 1]| > |best| then candidates[n - 1] else best
  }

  /** What the selection returns: `None` without candidates, otherwise the cleaned first longest candidate. */
  function LunchContent(lines: seq<string>): Option<string> {
    var candidates := LunchCandidates(lines);
    if candidates == [] then None else Some(CleanSpec(Longest(candidates, |candidates|)))
  }

  /** The window around a line spans at most seven lines: the one before, the line itself and the five after. */
  lemma WindowSpan(count: nat, i: nat)
    requires i < count
    ensures WindowStart(i) <= i < WindowEnd(count, i) <= count
    ensures WindowEnd(count, i) - WindowStart(i) <= 7
  {
  }

  /** The context lines are exactly the kept lines of the range, in order, at most one per line. */
  lemma {:induction false} ContextUpToKeeps(stripped: seq<string>, start: nat, j: nat)
    requires start <= j <= |stripped|
    ensures |ContextUpTo(stripped, start, j)| <= j - start
    ensures forall x :: x in ContextUpTo(stripped, start, j) <==> exists k :: start <= k < j && stripped[k] == x && IsContextLine(x)
    decreases j
  {
    if j > start {
      ContextUpToKeeps(stripped, start, j - 1);
    }
  }

  /** The indices of the context lines kept from `start` .. `j - 1`, in the order they were kept. */
  function ContextIndices(stripped: seq<string>, start: nat, j: nat): seq<nat>
    requires start <= j <= |stripped|
    decreases j
  {
    if j == start then []
    else ContextIndices(stripped, start, j - 1) + (if IsContextLine(stripped[j - 1]) then [j - 1] else [])
  }

  /**
   * The context lines are appended in line order, once each: the `p`-th is the stripped line at
   * index `at[p]`, the indices increase strictly, and every long line of the range is listed.
   */
  lemma {:induction false} ContextUpToInOrder(stripped: seq<string>, start: nat, j: nat)
    requires start <= j <= |stripped|
    ensures var kept, at := ContextUpTo(stripped, start, j), ContextIndices(stripped, start, j);
      |at| == |kept|
      && (forall p :: 0 <= p < |at| ==> start <= at[p] < j && kept[p] == stripped[at[p]])
      && (forall p, q :: 0 <= p < q < |at| ==> at[p] < at[q])
      && (forall k :: start <= k < j && IsContextLine(stripped[k]) ==> k in at)
    decreases j
  {
    if j > start {
      ContextUpToInOrder(stripped, start, j - 1);
    }
  }

  /**
   * The window's context lines, joined by blanks into the candidate, are its long stripped lines
   * in line order, each once.
   */
  lemma ContextWindowInOrder(stripped: seq<string>, i: nat)
    requires i < |stripped|
    ensures var kept, at := ContextLines(stripped, i), ContextIndices(stripped, WindowStart(i), WindowEnd(|stripped|, i));
      |at| == |kept|
      && (forall p :: 0 <= p < |at| ==>
            WindowStart(i) <= at[p] < WindowEnd(|stripped|, i) && kept[p] == stripped[at[p]])
      && (forall p, q :: 0 <= p < q < |at| ==> at[p] < at[q])
      && (forall k :: WindowStart(i) <= k < WindowEnd(|stripped|, i) && IsContextLine(stripped[k]) ==> k in at)
  {
    WindowSpan(|stripped|, i);
    ContextUpToInOrder(stripped, WindowStart(i), WindowEnd(|stripped|, i));
  }

  /**
   * A window keeps at most seven lines, each a stripped line of the window longer than 10
   * characters, and it keeps its own trigger line.
   */
  lemma ContextWindow(stripped: seq<string>, i: nat)
    requires i < |stripped|
    ensures |ContextLines(stripped, i)| <= 7
    ensures forall x :: x in ContextLines(stripped, i) <==>
      exists k :: WindowStart(i) <= k < WindowEnd(|stripped|, i) && stripped[k] == x && IsContextLine(x)
    ensures IsTrigger(stripped[i]) ==> stripped[i] in ContextLines(stripped, i)
  {
    WindowSpan(|stripped|, i);
    ContextUpToKeeps(stripped, WindowStart(i), WindowEnd(|stripped|, i));
  }

  /** A candidate comes from a trigger line and is longer than 50 characters. */
  lemma CandidateShape(stripped: seq<string>, i: nat)
    requires i < |stripped|
    requires Candidate(stripped, i).Some?
    ensures |stripped[i]| >= 20 && ContainsAny(Lower(stripped[i]), LunchKeywords)
    ensures |Candidate(stripped, i).value| > 50
  {
  }

  /**
   * The candidates are those of the triggering lines, in increasing line order: the `p`-th
   * candidate is the one of line `CollectedIndices(...)[p]`, and every line's candidate is listed.
   */
  lemma LunchCandidatesInOrder(lines: seq<string>)
    ensures var stripped := StripAll(lines);
      var candidates := LunchCandidates(lines);
      var at := CollectedIndices(CandidateTexts(stripped), |lines|);
      |at| == |candidates| <= |lines|
      && (forall p :: 0 <= p < |candidates| ==> at[p] < |lines| && Candidate(stripped, at[p]) == Some(candidates[p]))
      && (forall p, q :: 0 <= p < q < |candidates| ==> at[p] < at[q])
      && (forall i :: 0 <= i < |lines| && Candidate(stripped, i).Some? ==> i in at)
  {
    var stripped := StripAll(lines);
    var found := CandidateTexts(stripped);
    CollectedInOrder(found, |lines|);
    forall i | 0 <= i < |lines|
      ensures found[i] == Candidate(stripped, i)
    {
    }
  }

  /** `max` by length returns the first of the longest candidates. */
  lemma {:induction false} LongestIsFirstLongest(candidates: seq<string>, n: nat)
    requires 1 <= n <= |candidates|
    ensures exists k :: (0 <= k < n && Longest(candidates, n) == candidates[k]
      && forall m :: 0 <= m < k ==> |candidates[m]| < |candidates[k]|)
    ensures forall m :: 0 <= m < n ==> |candidates[m]| <= |Longest(candidates, n)|
  {
    if n == 1 {
      assert Longest(candidates, n) == candidates[0];
    } else {
      LongestIsFirstLongest(candidates, n - 1);
      if |candidates[n - 1]| > |Longest(candidates, n - 1)| {
        assert Longest(candidates, n) == candidates[n - 1];
        assert forall m :: 0 <= m < n - 1 ==> |candidates[m]| < |candidates[n - 1]|;
      }
    }
  }

  /**
   * The selection returns `None` exactly when no line yields a candidate; otherwise the cleaned
   * text of a longest candidate, which is single-spaced, has no whitespace at its ends and is no
   * longer than the candidate.
   */
  lemma LunchContentResult(lines: seq<string>)
    ensures LunchContent(lines).None? <==> forall i :: 0 <= i < |lines| ==> Candidate(StripAll(lines), i).None?
    ensures LunchContent(lines).Some? ==>
      var best := Longest(LunchCandidates(lines), |LunchCandidates(lines)|);
      best in LunchCandidates(lines)
      && (forall c :: c in LunchCandidates(lines) ==> |c| <= |best|)
      && LunchContent(lines).value == CleanSpec(best)
      && Blanked(LunchContent(lines).value) && NoEdgeSpace(LunchContent(lines).value)
      && |LunchContent(lines).value| <= |best|
  {
    var stripped := StripAll(lines);
    var found := CandidateTexts(stripped);
    CollectedNone(found, |lines|);
    forall i | 0 <= i < |lines|
      ensures found[i] == Candidate(stripped, i)
    {
    }
    var candidates := LunchCandidates(lines);
    if candidates != [] {
      LongestIsFirstLongest(candidates, |candidates|);
      CleanShape(Longest(candidates, |candidates|));
    }
  }

  /** The inner loop of `scrape_facebook_page`: the context lines of the window around line `i`. */
  method GatherContext(lines: seq<string>, i: nat) returns (contextLines: seq<string>)
    requires i < |lines|
    ensures contextLines == ContextLines(StripAll(lines), i)
  {
    var start := Max(0, i - 1);
    var end := Min(|lines|, i + 6);
    contextLines := [];
    for j := start to end
      invariant contextLines == ContextUpTo(StripAll(lines), start, j)
    {
      var contextLine := Strip(lines[j]);
      if contextLine != [] && |contextLine| > 10 {
        contextLines := contextLines + [contextLine];
      }
    }
  }

  /** The loop of `scrape_facebook_page` over the page's lines, collecting `lunch_candidates`. */
  method CollectLunchCandidates(lines: seq<string>) returns (candidates: seq<string>)
    ensures candidates == LunchCandidates(lines)
  {
    candidates := [];
    for i := 0 to |lines|
      invariant candidates == Collected(CandidateTexts(StripAll(lines)), i)
    {
      var line := Strip(lines[i]);
      assert StripAll(lines)[i] == line;
      assert CandidateTexts(StripAll(lines))[i] == Candidate(StripAll(lines), i);
      if line == [] || |line| < 20 {
        continue;
      }
      if ContainsAny(Lower(line), LunchKeywords) {
        var contextLines := GatherContext(lines, i);
        var content := Join(contextLines, " ");
        if |content| > 50 {
          candidates := candidates + [content];
        }
      }
    }
  }

  /**
   * `scrape_facebook_page` once the page text is loaded: split it into lines, then return the
   * cleaned longest candidate, or `None`.
   */
  method SelectLunchContent(pageText: string) returns (result: Option<string>)
    ensures result == LunchContent(Split(pageText, '\n'))
  {
    var lines := Split(pageText, '\n');
    var candidates := CollectLunchCandidates(lines);
    if candidates != [] {
      var best := Longest(candidates, |candidates|);
      var cleaned := CleanMenuText(best);
      result := Some(cleaned);
    } else {
      result := None;
    }
  }
}
