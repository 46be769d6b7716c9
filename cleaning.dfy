/**
 * `clean_menu_text`, written out identically in scraper.py and fb.py: delete four
 * fixed UI labels, then phone numbers, e-mail addresses and web paths, then turn
 * every whitespace run into one blank and strip both ends.
 */
module Cleaning {
  import opened Text

  /** The UI labels removed verbatim, in the order they are removed. */
  const UiElements: seq<string> :=
    ["All reactions:", "from ICA Supermarket Hansa | Malmö", "Email or phone number", "Password"]

  /**
   * What one deletion step looks for: a UI label (`str.replace`), or one of the three
   * regular expressions `\d{3}-\d{2} \d{2} \d{2}`,
   * `[a-zA-Z]+\.[a-zA-Z]+@[a-zA-Z]+\.[a-zA-Z]+` and `[a-zA-Z]+\.[a-zA-Z]+/[a-zA-Z]+` (`re.sub`).
   */
  datatype Pattern = Literal(text: string) | Phone | Email | Url

  /** Every deletion step, in the order the cleaner runs them. */
  const NoisePatterns: seq<Pattern> :=
    [Literal(UiElements[0]), Literal(UiElements[1]), Literal(UiElements[2]), Literal(UiElements[3]),
     Phone, Email, Url]

  predicate IsDigit(c: char) { '0' <= c <= '9' }

  predicate IsLetter(c: char) { ('a' <= c <= 'z') || ('A' <= c <= 'Z') }

  /** Length of the longest prefix of ASCII letters (what a greedy `[a-zA-Z]+` takes). */
  function LetterRun(s: string): (n: nat)
    ensures n <= |s|
    ensures forall i :: 0 <= i < n ==> IsLetter(s[i])
    ensures n < |s| ==> !IsLetter(s[n])
  {
    if s != [] && IsLetter(s[0]) then 1 + LetterRun(s[1..]) else 0
  }

  /**
   * `[a-zA-Z]+` followed by the separator `sep`: the length of both, or 0 when `s` does not
   * start that way. Letters and separators are disjoint, so the greedy run is the only choice.
   */
  function LettersThen(s: string, sep: char): (n: nat)
    ensures n <= |s|
    ensures n > 0 ==> n >= 2 && s[n - 1] == sep && forall i :: 0 <= i < n - 1 ==> IsLetter(s[i])
    ensures !IsLetter(sep) ==> forall a :: 0 < a < |s| && s[a] == sep && (forall i :: 0 <= i < a ==> IsLetter(s[i])) ==> n == a + 1
  {
    var a := LetterRun(s);
    if a > 0 && a < |s| && s[a] == sep then a + 1 else 0
  }

  /** `\d{3}-\d{2} \d{2} \d{2}` written as a template: `d` stands for one digit, anything else for itself. */
  const PhoneTemplate: string := "ddd-dd dd dd"

  /** `s` starts with a string of the shape `tpl`. */
  predicate FitsTemplate(s: string, tpl: string)
    decreases |tpl|
  {
    |tpl| <= |s|
    && (tpl == [] || ((if tpl[0] == 'd' then IsDigit(s[0]) else s[0] == tpl[0]) && FitsTemplate(s[1..], tpl[1..])))
  }

  lemma {:induction false} TemplateAt(s: string, tpl: string, i: nat)
    requires FitsTemplate(s, tpl) && i < |tpl|
    ensures if tpl[i] == 'd' then IsDigit(s[i]) else s[i] == tpl[i]
    decreases |tpl|
  {
    if i > 0 {
      TemplateAt(s[1..], tpl[1..], i - 1);
    }
  }

  /** The separators of `[a-zA-Z]+\.[a-zA-Z]+@[a-zA-Z]+\.[a-zA-Z]+`, in order. */
  const EmailSeparators: string := ".@."

  /** The separators of `[a-zA-Z]+\.[a-zA-Z]+/[a-zA-Z]+`, in order. */
  const UrlSeparators: string := "./"

  /**
   * Length of the match of `[a-zA-Z]+ sep[0] [a-zA-Z]+ sep[1] ... [a-zA-Z]+` at the start of `s`,
   * or 0 when there is none. Letters and separators are disjoint, so each greedy run is the only choice.
   */
  function LetterChain(s: string, seps: string): (n: nat)
    ensures n <= |s|
    decreases |seps|
  {
    if seps == [] then LetterRun(s)
    else
      var a := LettersThen(s, seps[0]);
      if a == 0 then 0
      else
        var r := LetterChain(s[a..], seps[1..]);
        if r == 0 then 0 else a + r
  }

  /** The characters a match of `p` can be made of. */
  predicate InAlphabet(p: Pattern, c: char) {
    match p
    case Literal(w) => c in w
    case Phone => IsDigit(c) || c in PhoneTemplate
    case Email => IsLetter(c) || c in EmailSeparators
    case Url => IsLetter(c) || c in UrlSeparators
  }

  /** Length of the match of `p` that starts at the first character of `s`, or 0 when there is none. */
  function MatchLen(p: Pattern, s: string): (n: nat)
    ensures n <= |s|
  {
    match p
    case Literal(w) => if |w| > 0 && StartsWith(s, w) then |w| else 0
    case Phone => if FitsTemplate(s, PhoneTemplate) then |PhoneTemplate| else 0
    case Email => LetterChain(s, EmailSeparators)
    case Url => LetterChain(s, UrlSeparators)
  }

  /** A match is made only of its pattern's characters. */
  lemma MatchAlphabet(p: Pattern, s: string, i: nat)
    requires i < MatchLen(p, s)
    ensures InAlphabet(p, s[i])
  {
    match p
    case Literal(w) => LiteralAlphabet(w, s, i);
    case Phone => TemplateAt(s, PhoneTemplate, i);
    case Email => ChainAlphabet(s, EmailSeparators, i);
    case Url => ChainAlphabet(s, UrlSeparators, i);
  }

  lemma LiteralAlphabet(w: string, s: string, i: nat)
    requires i < MatchLen(Literal(w), s)
    ensures s[i] in w
  {
    assert s[..|w|] == w;
    assert s[i] == w[i];
  }

  /** A chain of letter runs is made of letters and its separators. */
  lemma {:induction false} ChainAlphabet(s: string, seps: string, i: nat)
    requires i < LetterChain(s, seps)
    ensures IsLetter(s[i]) || s[i] in seps
    decreases |seps|
  {
    if seps != [] {
      var a := LettersThen(s, seps[0]);
      assert a > 0 && LetterChain(s, seps) == a + LetterChain(s[a..], seps[1..]);
      if i < a - 1 {
        assert IsLetter(s[i]);
      } else if i == a - 1 {
        assert s[i] == seps[0];
      } else {
        ChainAlphabet(s[a..], seps[1..], i - a);
        assert s[i] == s[a..][i - a];
        assert seps[1..] <= seps[1..] && forall c :: c in seps[1..] ==> c in seps;
      }
    }
  }

  /**
   * `s.replace(w, "")` for a `Literal(w)`, `re.sub(pattern, '', s)` for the others: scan from
   * the left, delete each match, resume after it, keep every other character.
   */
  function Delete(p: Pattern, s: string): (r: string)
    ensures |r| <= |s|
    decreases |s|
  {
    if s == [] then []
    else
      var n := MatchLen(p, s);
      if n > 0 then Delete(p, s[n..]) else [s[0]] + Delete(p, s[1..])
  }

  /** The first `n` deletion steps of the cleaner, in order. */
  function DeleteSteps(s: string, n: nat): string
    requires n <= |NoisePatterns|
  {
    if n == 0 then s else Delete(NoisePatterns[n - 1], DeleteSteps(s, n - 1))
  }

  /**
   * Every whitespace character is a blank and the next character is not whitespace
   * (`BlankedMeans` states it with quantifiers).
   */
  predicate Blanked(t: string) {
    t == [] || ((IsSpace(t[0]) ==> t[0] == ' ' && (|t| == 1 || !IsSpace(t[1]))) && Blanked(t[1..]))
  }

  predicate NoEdgeSpace(t: string) {
    t == [] || (!IsSpace(t[0]) && !IsSpace(t[|t| - 1]))
  }

  /** `re.sub(r'\s+', ' ', s)`: every maximal whitespace run becomes a single blank. */
  function Collapse(s: string): string
    decreases |s|
  {
    if s == [] then []
    else if IsSpace(s[0]) then [' '] + Collapse(StripLeft(s[1..]))
    else [s[0]] + Collapse(s[1..])
  }

  /**
   * The collapse leaves whitespace only as single blanks, starts with whitespace exactly when
   * its input does, and never lengthens.
   */
  lemma {:induction false} CollapseShape(s: string)
    ensures |Collapse(s)| <= |s|
    ensures Blanked(Collapse(s))
    ensures s != [] ==> Collapse(s) != [] && (IsSpace(Collapse(s)[0]) <==> IsSpace(s[0]))
    decreases |s|
  {
    if s != [] {
      if IsSpace(s[0]) {
        var u := StripLeft(s[1..]);
        StripLeftShape(s[1..]);
        CollapseShape(u);
        var r := [' '] + Collapse(u);
        assert r[1..] == Collapse(u);
        assert |r| == 1 || r[1] == Collapse(u)[0];
      } else {
        CollapseShape(s[1..]);
        var r := [s[0]] + Collapse(s[1..]);
        assert r[1..] == Collapse(s[1..]);
      }
    }
  }

  /** The whitespace step: collapse, then `strip()`. */
  function Tidy(s: string): string {
    Strip(Collapse(s))
  }

  /** What `clean_menu_text` returns. */
  function CleanSpec(s: string): string {
    Tidy(DeleteSteps(s, |NoisePatterns|))
  }

  /** `clean_menu_text`: the loop over the UI labels, the three substitutions, the whitespace step. */
  method CleanMenuText(text: string) returns (cleaned: string)
    ensures cleaned == CleanSpec(text)
    ensures |cleaned| <= |text|
    ensures Blanked(cleaned) && NoEdgeSpace(cleaned)
  {
    var t := text;
    for k := 0 to |UiElements|
      invariant t == DeleteSteps(text, k)
    {
      assert NoisePatterns[k] == Literal(UiElements[k]);
      t := Delete(Literal(UiElements[k]), t);
    }
    assert NoisePatterns[4] == Phone && NoisePatterns[5] == Email && NoisePatterns[6] == Url;
    t := Delete(Phone, t);
    assert t == DeleteSteps(text, 5);
    t := Delete(Email, t);
    assert t == DeleteSteps(text, 6);
    t := Delete(Url, t);
    assert t == DeleteSteps(text, 7);
    cleaned := Tidy(t);
    CleanShape(text);
  }

  // ---------------------------------------------------------------------------
  // Which characters survive cleaning.

  /**
   * Characters that no step of the cleaner can remove: not whitespace, not an ASCII letter or
   * digit, and none of the separators and UI-label characters `-`, `.`, `@`, `/`, `:`, `|`, `ö`.
   */
  predicate Protected(c: char) {
    !IsSpace(c) && !IsLetter(c) && !IsDigit(c) && c !in "-.@/:|ö"
  }

  /** The protected characters of `s`, in order. */
  function Survivors(s: string): string {
    if s == [] then [] else (if Protected(s[0]) then [s[0]] else []) + Survivors(s[1..])
  }

  lemma SurvivorsCons(c: char, t: string)
    ensures Survivors([c] + t) == (if Protected(c) then [c] else []) + Survivors(t)
  {
    assert ([c] + t)[0] == c;
    assert ([c] + t)[1..] == t;
  }

  lemma {:induction false} SurvivorsAppend(a: string, b: string)
    ensures Survivors(a + b) == Survivors(a) + Survivors(b)
  {
    if a != [] {
      assert a + b == [a[0]] + (a[1..] + b);
      SurvivorsCons(a[0], a[1..] + b);
      SurvivorsAppend(a[1..], b);
    } else {
      assert a + b == b;
    }
  }

  lemma {:induction false} SurvivorsNone(s: string)
    requires forall i :: 0 <= i < |s| ==> !Protected(s[i])
    ensures Survivors(s) == []
  {
    if s != [] {
      SurvivorsNone(s[1..]);
    }
  }

  /** No pattern the cleaner deletes can contain a protected character. */
  lemma NoisePatternsSpareProtected(k: nat, c: char)
    requires k < |NoisePatterns| && Protected(c)
    ensures !InAlphabet(NoisePatterns[k], c)
  {
    if k < |UiElements| {
      assert NoisePatterns[k] == Literal(UiElements[k]);
      UiElementSparesProtected(k, c);
    }
  }

  lemma UiElementSparesProtected(k: nat, c: char)
    requires k < |UiElements| && Protected(c)
    ensures c !in UiElements[k]
  {
    if k == 0 {
      ReactionsLabelSparesProtected(c);
    } else if k == 1 {
      StoreLabelSparesProtected(c);
    } else if k == 2 {
      LoginLabelSparesProtected(c);
    } else {
      PasswordLabelSparesProtected(c);
    }
  }

  lemma ReactionsLabelSparesProtected(c: char)
    requires Protected(c)
    ensures c !in "All reactions:"
  {
  }

  lemma StoreLabelSparesProtected(c: char)
    requires Protected(c)
    ensures c !in "from ICA Supermarket Hansa | Malmö"
  {
  }

  lemma LoginLabelSparesProtected(c: char)
    requires Protected(c)
    ensures c !in "Email or phone number"
  {
  }

  lemma PasswordLabelSparesProtected(c: char)
    requires Protected(c)
    ensures c !in "Password"
  {
  }

  // ---------------------------------------------------------------------------
  // One deletion step.

  /** A match holds no protected character. */
  lemma MatchHasNoSurvivors(k: nat, s: string)
    requires k < |NoisePatterns|
    ensures Survivors(s[..MatchLen(NoisePatterns[k], s)]) == []
  {
    var p := NoisePatterns[k];
    var n := MatchLen(p, s);
    forall i | 0 <= i < n ensures !Protected(s[..n][i]) {
      MatchAlphabet(p, s, i);
      if Protected(s[i]) {
        NoisePatternsSpareProtected(k, s[i]);
      }
    }
    SurvivorsNone(s[..n]);
  }

  /** Each step only deletes matches: every protected character stays, in order. */
  lemma {:induction false} DeleteKeepsSurvivors(k: nat, s: string)
    requires k < |NoisePatterns|
    ensures Survivors(Delete(NoisePatterns[k], s)) == Survivors(s)
    decreases |s|
  {
    if s != [] {
      var p := NoisePatterns[k];
      var n := MatchLen(p, s);
      if n > 0 {
        DeleteSkipsMatch(p, s);
        DeleteKeepsSurvivors(k, s[n..]);
        SurvivorsAfterMatch(k, s);
      } else {
        DeleteKeepsHead(p, s);
        DeleteKeepsSurvivors(k, s[1..]);
        SurvivorsCons(s[0], Delete(p, s[1..]));
        assert s == [s[0]] + s[1..];
        SurvivorsCons(s[0], s[1..]);
      }
    }
  }

  lemma DeleteSkipsMatch(p: Pattern, s: string)
    requires s != [] && MatchLen(p, s) > 0
    ensures Delete(p, s) == Delete(p, s[MatchLen(p, s)..])
  {
  }

  lemma DeleteKeepsHead(p: Pattern, s: string)
    requires s != [] && MatchLen(p, s) == 0
    ensures Delete(p, s) == [s[0]] + Delete(p, s[1..])
  {
  }

  lemma SurvivorsAfterMatch(k: nat, s: string)
    requires k < |NoisePatterns|
    ensures Survivors(s) == Survivors(s[MatchLen(NoisePatterns[k], s)..])
  {
    MatchHasNoSurvivors(k, s);
    SurvivorsDropEmpty(s, MatchLen(NoisePatterns[k], s));
  }

  /** Dropping a prefix with no protected characters keeps the survivors. */
  lemma SurvivorsDropEmpty(s: string, n: nat)
    requires n <= |s| && Survivors(s[..n]) == []
    ensures Survivors(s) == Survivors(s[n..])
  {
    assert s == s[..n] + s[n..];
    SurvivorsAppend(s[..n], s[n..]);
  }

  /** No match starting before `i` in `s` means none starting before `i - 1` in `s[1..]`. */
  lemma NoMatchShift(p: Pattern, s: string, i: nat)
    requires 0 < i <= |s|
    requires forall k :: 0 <= k < i ==> MatchLen(p, s[k..]) == 0
    ensures MatchLen(p, s) == 0
    ensures forall k :: 0 <= k < i - 1 ==> MatchLen(p, s[1..][k..]) == 0
  {
    assert s[0..] == s;
    forall k | 0 <= k < i - 1
      ensures MatchLen(p, s[1..][k..]) == 0
    {
      assert s[1..][k..] == s[k + 1..];
    }
  }

  /** One step of `DeleteKeepsUnmatchedPrefix`: an unmatched first character goes in front of the rest. */
  lemma DeleteHeadStep(p: Pattern, s: string, i: nat)
    requires 0 < i <= |s| && MatchLen(p, s) == 0
    requires Delete(p, s[1..]) == s[1..][..i - 1] + Delete(p, s[1..][i - 1..])
    ensures Delete(p, s) == s[..i] + Delete(p, s[i..])
  {
    var t := s[1..];
    var e := Delete(p, s[i..]);
    DeleteKeepsHead(p, s);
    assert t[i - 1..] == s[i..];
    ConsSlice(s, i, e);
  }

  /** Putting the head of `s` in front of `s[1..][..i - 1] + e` gives `s[..i] + e`. */
  lemma ConsSlice(s: string, i: nat, e: string)
    requires 0 < i <= |s|
    ensures [s[0]] + (s[1..][..i - 1] + e) == s[..i] + e
  {
    assert s[..i] == [s[0]] + s[1..][..i - 1];
  }

  /** A deletion step keeps, in order, every character before the first place a match starts. */
  lemma {:induction false} DeleteKeepsUnmatchedPrefix(p: Pattern, s: string, i: nat)
    requires i <= |s|
    requires forall k :: 0 <= k < i ==> MatchLen(p, s[k..]) == 0
    ensures Delete(p, s) == s[..i] + Delete(p, s[i..])
  {
    if i > 0 {
      NoMatchShift(p, s, i);
      DeleteKeepsUnmatchedPrefix(p, s[1..], i - 1);
      DeleteHeadStep(p, s, i);
    } else {
      assert s[0..] == s;
    }
  }

  /** The first match a deletion step meets is dropped whole, the text before it kept, and the scan resumes after it. */
  lemma DeleteDropsFirstMatch(p: Pattern, s: string, i: nat)
    requires i < |s|
    requires forall k :: 0 <= k < i ==> MatchLen(p, s[k..]) == 0
    requires MatchLen(p, s[i..]) > 0
    ensures Delete(p, s) == s[..i] + Delete(p, s[i + MatchLen(p, s[i..])..])
  {
    DeleteKeepsUnmatchedPrefix(p, s, i);
    DeleteSkipsMatchAt(p, s, i);
  }

  /** `DeleteSkipsMatch` for a match starting at index `i` of `s`. */
  lemma DeleteSkipsMatchAt(p: Pattern, s: string, i: nat)
    requires i < |s| && MatchLen(p, s[i..]) > 0
    ensures Delete(p, s[i..]) == Delete(p, s[i + MatchLen(p, s[i..])..])
  {
    DeleteSkipsMatch(p, s[i..]);
    SuffixOfSuffix(s, i, MatchLen(p, s[i..]));
  }

  lemma SuffixOfSuffix(s: string, i: nat, n: nat)
    requires i + n <= |s|
    ensures s[i..][n..] == s[i + n..]
  {
  }

  /** Number of matches a deletion step removes. */
  function MatchCount(p: Pattern, s: string): nat
    decreases |s|
  {
    if s == [] then 0
    else
      var n := MatchLen(p, s);
      if n > 0 then 1 + MatchCount(p, s[n..]) else MatchCount(p, s[1..])
  }

  /** The phone step shrinks the text by exactly twelve characters per number it deletes. */
  lemma {:induction false} PhoneDeletesWholeNumbers(s: string)
    ensures |Delete(Phone, s)| + 12 * MatchCount(Phone, s) == |s|
    decreases |s|
  {
    if s != [] {
      var n := MatchLen(Phone, s);
      if n > 0 {
        PhoneDeletesWholeNumbers(s[n..]);
      } else {
        PhoneDeletesWholeNumbers(s[1..]);
      }
    }
  }

  /** With no match counted, no match starts anywhere. */
  lemma {:induction false} NoCountUnmatched(p: Pattern, s: string)
    requires MatchCount(p, s) == 0
    ensures Unmatched(p, s)
    decreases |s|
  {
    if s != [] {
      NoCountUnmatched(p, s[1..]);
    }
  }

  /** The phone step changes the text exactly when it holds a phone number. */
  lemma PhoneStepChangesIffNumber(s: string)
    ensures Delete(Phone, s) == s <==> MatchCount(Phone, s) == 0
  {
    PhoneDeletesWholeNumbers(s);
    if MatchCount(Phone, s) == 0 {
      NoCountUnmatched(Phone, s);
      DeleteUnmatched(Phone, s);
    }
  }

  /** No match of `p` starts anywhere in `s`. */
  predicate Unmatched(p: Pattern, s: string)
    decreases |s|
  {
    s == [] || (MatchLen(p, s) == 0 && Unmatched(p, s[1..]))
  }

  /** `Unmatched` from a check at every position. */
  lemma {:induction false} UnmatchedAtEveryPosition(p: Pattern, s: string)
    requires forall i :: 0 <= i < |s| ==> MatchLen(p, s[i..]) == 0
    ensures Unmatched(p, s)
    decreases |s|
  {
    if s != [] {
      assert s[0..] == s;
      forall i | 0 <= i < |s[1..]| ensures MatchLen(p, s[1..][i..]) == 0 {
        assert s[1..][i..] == s[i + 1..];
      }
      UnmatchedAtEveryPosition(p, s[1..]);
    }
  }

  /** A text in which no match starts anywhere passes a deletion step unchanged. */
  lemma {:induction false} DeleteUnmatched(p: Pattern, s: string)
    requires Unmatched(p, s)
    ensures Delete(p, s) == s
    decreases |s|
  {
    if s != [] {
      DeleteKeepsHead(p, s);
      DeleteUnmatched(p, s[1..]);
      assert s == [s[0]] + s[1..];
    }
  }

  // ---------------------------------------------------------------------------
  // The whitespace step.

  lemma {:induction false} BlankedSuffix(t: string, a: nat)
    requires a <= |t| && Blanked(t)
    ensures Blanked(t[a..])
  {
    if a > 0 {
      BlankedSuffix(t[1..], a - 1);
      assert t[1..][a - 1..] == t[a..];
    }
  }

  lemma {:induction false} BlankedPrefix(t: string, b: nat)
    requires b <= |t| && Blanked(t)
    ensures Blanked(t[..b])
  {
    if b > 0 {
      BlankedPrefix(t[1..], b - 1);
      assert t[..b][1..] == t[1..][..b - 1];
      if b > 1 {
        assert t[..b][1] == t[1];
      }
    }
  }

  lemma BlankedSlice(t: string, a: nat, b: nat)
    requires a <= b <= |t| && Blanked(t)
    ensures Blanked(t[a..b])
  {
    BlankedPrefix(t, b);
    BlankedSuffix(t[..b], a);
    assert t[..b][a..] == t[a..b];
  }

  /** `Blanked` spelled out: whitespace is only ever a single blank. */
  lemma {:induction false} BlankedMeans(t: string)
    requires Blanked(t)
    ensures forall i :: 0 <= i < |t| && IsSpace(t[i]) ==> t[i] == ' '
    ensures forall i :: 0 <= i < |t| - 1 ==> !(IsSpace(t[i]) && IsSpace(t[i + 1]))
  {
    if t != [] {
      BlankedMeans(t[1..]);
      forall i | 1 <= i < |t| ensures t[i] == t[1..][i - 1] { }
    }
  }

  lemma StripKeepsBlanked(t: string)
    requires Blanked(t)
    ensures Blanked(Strip(t))
  {
    StripSlice(t);
    var a := StripStart(t);
    BlankedSlice(t, a, a + |Strip(t)|);
  }

  /** The whitespace step leaves single blanks only, none at either end, and never lengthens. */
  lemma TidyShape(s: string)
    ensures Blanked(Tidy(s)) && NoEdgeSpace(Tidy(s)) && |Tidy(s)| <= |s|
  {
    var c := Collapse(s);
    CollapseShape(s);
    StripKeepsBlanked(c);
    StripSlice(c);
  }

  /** Text that is already blanked is left alone by the collapse. */
  lemma {:induction false} CollapseBlanked(t: string)
    requires Blanked(t)
    ensures Collapse(t) == t
    decreases |t|
  {
    if t != [] {
      BlankedSlice(t, 1, |t|);
      CollapseBlanked(t[1..]);
      if IsSpace(t[0]) {
        assert t[1..] == [] || !IsSpace(t[1..][0]);
        assert StripLeft(t[1..]) == t[1..];
      }
      assert t == [t[0]] + t[1..];
    }
  }

  /** Text that is blanked and has no whitespace at its ends is left alone by the whitespace step. */
  lemma TidyFixesTidyText(s: string)
    requires Blanked(s) && NoEdgeSpace(s)
    ensures Tidy(s) == s
  {
    CollapseBlanked(s);
    StripNoEdges(s);
  }

  /** The whitespace step is idempotent (unlike the whole cleaner, see `CleanNotIdempotent`). */
  lemma TidyIdempotent(s: string)
    ensures Tidy(Tidy(s)) == Tidy(s)
  {
    TidyShape(s);
    TidyFixesTidyText(Tidy(s));
  }

  /** `lstrip()` only removes whitespace: every protected character stays, in order. */
  lemma StripLeftKeepsSurvivors(s: string)
    ensures Survivors(StripLeft(s)) == Survivors(s)
  {
    var u := StripLeft(s);
    var k := |s| - |u|;
    StripLeftShape(s);
    assert s == s[..k] + u;
    SurvivorsAppend(s[..k], u);
    SurvivorsNone(s[..k]);
  }

  /** The collapse only touches whitespace: every protected character stays, in order. */
  lemma {:induction false} CollapseKeepsSurvivors(s: string)
    ensures Survivors(Collapse(s)) == Survivors(s)
    decreases |s|
  {
    if s != [] {
      assert s == [s[0]] + s[1..];
      SurvivorsCons(s[0], s[1..]);
      if IsSpace(s[0]) {
        var u := StripLeft(s[1..]);
        CollapseKeepsSurvivors(u);
        StripLeftKeepsSurvivors(s[1..]);
        SurvivorsCons(' ', Collapse(u));
      } else {
        CollapseKeepsSurvivors(s[1..]);
        SurvivorsCons(s[0], Collapse(s[1..]));
      }
    }
  }

  /** `rstrip()` only removes whitespace: every protected character stays, in order. */
  lemma StripRightKeepsSurvivors(s: string)
    ensures Survivors(StripRight(s)) == Survivors(s)
  {
    var u := StripRight(s);
    StripRightShape(s);
    assert s == u + s[|u|..];
    SurvivorsAppend(u, s[|u|..]);
    SurvivorsNone(s[|u|..]);
  }

  /** `strip()` only removes whitespace: every protected character stays, in order. */
  lemma StripKeepsSurvivors(s: string)
    ensures Survivors(Strip(s)) == Survivors(s)
  {
    StripLeftKeepsSurvivors(s);
    StripRightKeepsSurvivors(StripLeft(s));
  }

  /** The non-whitespace characters of `s`, in order: the text a reader sees. */
  function Visible(s: string): (r: string)
    ensures NoSpace(r) && |r| <= |s|
  {
    if s == [] then [] else (if IsSpace(s[0]) then [] else [s[0]]) + Visible(s[1..])
  }

  lemma VisibleCons(c: char, t: string)
    ensures Visible([c] + t) == (if IsSpace(c) then [] else [c]) + Visible(t)
  {
    assert ([c] + t)[0] == c;
    assert ([c] + t)[1..] == t;
  }

  lemma {:induction false} VisibleAppend(a: string, b: string)
    ensures Visible(a + b) == Visible(a) + Visible(b)
  {
    if a != [] {
      assert a + b == [a[0]] + (a[1..] + b);
      VisibleCons(a[0], a[1..] + b);
      VisibleAppend(a[1..], b);
    } else {
      assert a + b == b;
    }
  }

  lemma {:induction false} VisibleNone(s: string)
    requires AllSpace(s)
    ensures Visible(s) == []
  {
    if s != [] {
      VisibleNone(s[1..]);
    }
  }

  /** `lstrip()` only removes whitespace: every other character stays, in order. */
  lemma StripLeftKeepsVisible(s: string)
    ensures Visible(StripLeft(s)) == Visible(s)
  {
    var u := StripLeft(s);
    var k := |s| - |u|;
    StripLeftShape(s);
    assert s == s[..k] + u;
    VisibleAppend(s[..k], u);
    VisibleNone(s[..k]);
  }

  /** `strip()` only removes whitespace: every other character stays, in order. */
  lemma StripKeepsVisible(s: string)
    ensures Visible(Strip(s)) == Visible(s)
  {
    var a := StripStart(s);
    var r := Strip(s);
    StripSlice(s);
    assert s == s[..a] + (r + s[a + |r|..]);
    VisibleAppend(s[..a], r + s[a + |r|..]);
    VisibleAppend(r, s[a + |r|..]);
    VisibleNone(s[..a]);
    VisibleNone(s[a + |r|..]);
  }

  /** The collapse only touches whitespace: every other character stays, in order. */
  lemma {:induction false} CollapseKeepsVisible(s: string)
    ensures Visible(Collapse(s)) == Visible(s)
    decreases |s|
  {
    if s != [] {
      assert s == [s[0]] + s[1..];
      VisibleCons(s[0], s[1..]);
      if IsSpace(s[0]) {
        var u := StripLeft(s[1..]);
        CollapseKeepsVisible(u);
        StripLeftKeepsVisible(s[1..]);
        VisibleCons(' ', Collapse(u));
      } else {
        CollapseKeepsVisible(s[1..]);
        VisibleCons(s[0], Collapse(s[1..]));
      }
    }
  }

  /**
   * The whitespace step changes whitespace only: the non-whitespace characters of its result are
   * exactly those of its input, in the same order.
   */
  lemma TidyKeepsVisible(s: string)
    ensures Visible(Tidy(s)) == Visible(s)
  {
    CollapseKeepsVisible(s);
    StripKeepsVisible(Collapse(s));
  }

  /** Leading whitespace before a non-whitespace character (or the end) is exactly what `lstrip()` drops. */
  lemma {:induction false} StripLeftSpaceRun(w: string, t: string)
    requires AllSpace(w) && (t == [] || !IsSpace(t[0]))
    ensures StripLeft(w + t) == t
  {
    if w != [] {
      assert (w + t)[0] == w[0];
      assert (w + t)[1..] == w[1..] + t;
      StripLeftSpaceRun(w[1..], t);
    } else {
      assert w + t == t;
    }
  }

  /**
   * A whole whitespace run, however long and of whatever whitespace characters, becomes one
   * blank; with `CollapseNoSpacePrefix` this says the collapse changes nothing else.
   */
  lemma CollapseRun(w: string, t: string)
    requires w != [] && AllSpace(w) && (t == [] || !IsSpace(t[0]))
    ensures Collapse(w + t) == [' '] + Collapse(t)
  {
    assert (w + t)[0] == w[0];
    assert (w + t)[1..] == w[1..] + t;
    StripLeftSpaceRun(w[1..], t);
  }

  // ---------------------------------------------------------------------------
  // The whole cleaner.

  lemma {:induction false} DeleteStepsShrink(s: string, n: nat)
    requires n <= |NoisePatterns|
    ensures |DeleteSteps(s, n)| <= |s|
  {
    if n > 0 {
      DeleteStepsShrink(s, n - 1);
    }
  }

  /**
   * The cleaner's output has no whitespace at either end, every whitespace in it is a single
   * blank between two other characters, and it is never longer than the input.
   */
  lemma CleanShape(s: string)
    ensures Blanked(CleanSpec(s)) && NoEdgeSpace(CleanSpec(s))
    ensures |CleanSpec(s)| <= |s|
  {
    DeleteStepsShrink(s, |NoisePatterns|);
    TidyShape(DeleteSteps(s, |NoisePatterns|));
  }

  lemma {:induction false} DeleteStepsKeepSurvivors(s: string, n: nat)
    requires n <= |NoisePatterns|
    ensures Survivors(DeleteSteps(s, n)) == Survivors(s)
  {
    if n > 0 {
      DeleteStepsKeepSurvivors(s, n - 1);
      LastStepKeepsSurvivors(s, n);
    }
  }

  lemma LastStepKeepsSurvivors(s: string, n: nat)
    requires 0 < n <= |NoisePatterns|
    ensures Survivors(DeleteSteps(s, n)) == Survivors(DeleteSteps(s, n - 1))
  {
    DeleteKeepsSurvivors(n - 1, DeleteSteps(s, n - 1));
  }

  /** Punctuation, accented letters other than ö and every other protected character survive cleaning, in order. */
  lemma CleanKeepsProtected(s: string)
    ensures Survivors(CleanSpec(s)) == Survivors(s)
  {
    var d := DeleteSteps(s, |NoisePatterns|);
    DeleteStepsKeepSurvivors(s, |NoisePatterns|);
    CollapseKeepsSurvivors(d);
    StripKeepsSurvivors(Collapse(d));
  }

  lemma {:induction false} DeleteStepsUnmatched(s: string, n: nat)
    requires n <= |NoisePatterns|
    requires forall k :: 0 <= k < |NoisePatterns| ==> Unmatched(NoisePatterns[k], s)
    ensures DeleteSteps(s, n) == s
  {
    if n > 0 {
      DeleteStepsUnmatched(s, n - 1);
      DeleteUnmatched(NoisePatterns[n - 1], s);
    }
  }

  /** A text with no noise anywhere, already blanked and stripped, is its own cleaning. */
  lemma CleanFixesCleanText(s: string)
    requires Blanked(s) && NoEdgeSpace(s)
    requires forall k :: 0 <= k < |NoisePatterns| ==> Unmatched(NoisePatterns[k], s)
    ensures CleanSpec(s) == s
  {
    DeleteStepsUnmatched(s, |NoisePatterns|);
    TidyFixesTidyText(s);
  }

  /**
   * The cleaner is not idempotent: a UI label broken by a line feed only becomes whole after
   * the whitespace step, so a second pass deletes it.
   */
  lemma CleanNotIdempotent()
    ensures CleanSpec("All\nreactions:") == "All reactions:"
    ensures CleanSpec(CleanSpec("All\nreactions:")) == ""
  {
    BrokenLabelCleaning("All\nreactions:");
    WholeLabelCleaning("All reactions:");
  }

  lemma BrokenLabelCleaning(x: string)
    requires x == "All\nreactions:"
    ensures CleanSpec(x) == "All reactions:"
  {
    BrokenLabelHasNoNoise(x);
    BrokenLabelCollapse(x);
    StripNoEdges("All reactions:");
  }

  lemma BrokenLabelHasNoNoise(x: string)
    requires x == "All\nreactions:"
    ensures DeleteSteps(x, |NoisePatterns|) == x
  {
    forall k | 0 <= k < |NoisePatterns| ensures Unmatched(NoisePatterns[k], x) {
      forall i | 0 <= i < |x| ensures MatchLen(NoisePatterns[k], x[i..]) == 0 {
        NoMatchInBrokenLabel(k, i);
      }
      UnmatchedAtEveryPosition(NoisePatterns[k], x);
    }
    DeleteStepsUnmatched(x, |NoisePatterns|);
  }

  lemma NoMatchInBrokenLabel(k: nat, i: nat)
    requires k < |NoisePatterns| && i < |"All\nreactions:"|
    ensures MatchLen(NoisePatterns[k], "All\nreactions:"[i..]) == 0
  {
    var x := "All\nreactions:";
    var t := x[i..];
    assert '-' !in x && '.' !in x && 'P' !in x;
    SliceKeepsOut(x, i, |x|, '-');
    SliceKeepsOut(x, i, |x|, '.');
    SliceKeepsOut(x, i, |x|, 'P');
    if k < |UiElements| {
      assert NoisePatterns[k] == Literal(UiElements[k]);
      if k == 0 {
        BrokenLabelIsNotLabel(t);
      } else if k == 3 {
        NoCapitalPInBrokenLabel(t);
      }
    } else if k == 4 {
      assert NoisePatterns[k] == Phone;
      NoDashInBrokenLabel(t);
    } else {
      assert NoisePatterns[k] == Email || NoisePatterns[k] == Url;
      assert EmailSeparators[0] == '.' && UrlSeparators[0] == '.';
      NoDotInBrokenLabel(t);
    }
  }

  lemma BrokenLabelIsNotLabel(t: string)
    requires |t| <= 14 && (|t| == 14 ==> t == "All\nreactions:")
    ensures !StartsWith(t, "All reactions:")
  {
    if |t| == 14 {
      assert t[3] != "All reactions:"[3];
    }
  }

  lemma NoCapitalPInBrokenLabel(t: string)
    requires 'P' !in t
    ensures !StartsWith(t, "Password")
  {
    if |t| > 0 {
      assert t[0] != 'P';
    }
  }

  lemma NoDashInBrokenLabel(t: string)
    requires '-' !in t
    ensures !FitsTemplate(t, PhoneTemplate)
  {
    if FitsTemplate(t, PhoneTemplate) {
      TemplateAt(t, PhoneTemplate, 3);
    }
  }

  lemma NoDotInBrokenLabel(t: string)
    requires '.' !in t
    ensures LettersThen(t, '.') == 0
  {
  }

  lemma BrokenLabelCollapse(x: string)
    requires x == "All\nreactions:"
    ensures Collapse(x) == "All reactions:"
  {
    var a, b := "All", "reactions:";
    assert NoSpace(a) && NoSpace(b);
    assert x == a + ['\n'] + b;
    CollapseOneBreak(a, '\n', b);
    assert a + [' '] + b == "All reactions:";
  }

  /** Two whitespace-free words around one whitespace character collapse to the words around one blank. */
  lemma CollapseOneBreak(a: string, c: char, b: string)
    requires NoSpace(a) && NoSpace(b) && IsSpace(c)
    ensures Collapse(a + [c] + b) == a + [' '] + b
  {
    assert a + [c] + b == a + ([c] + b);
    CollapseNoSpacePrefix(a, [c] + b);
    assert ([c] + b)[1..] == b;
    assert StripLeft(b) == b;
    CollapseNoSpacePrefix(b, []);
    assert b + [] == b;
  }

  /** The collapse passes whitespace-free text through unchanged. */
  lemma {:induction false} CollapseNoSpacePrefix(a: string, t: string)
    requires NoSpace(a)
    ensures Collapse(a + t) == a + Collapse(t)
  {
    if a != [] {
      assert a + t == [a[0]] + (a[1..] + t);
      CollapseNoSpacePrefix(a[1..], t);
      assert [a[0]] + (a[1..] + Collapse(t)) == a + Collapse(t);
    } else {
      assert a + t == t;
    }
  }

  lemma WholeLabelCleaning(y: string)
    requires y == "All reactions:"
    ensures CleanSpec(y) == ""
  {
    assert NoisePatterns[0] == Literal(y);
    assert MatchLen(Literal(y), y) == |y|;
    assert y[|y|..] == [];
    assert Delete(Literal(y), y) == [];
    assert DeleteSteps(y, 1) == [];
    EmptyStaysEmpty(y, 1);
  }

  lemma {:induction false} EmptyStaysEmpty(s: string, n: nat)
    requires 1 <= n <= |NoisePatterns| && DeleteSteps(s, n) == []
    ensures DeleteSteps(s, |NoisePatterns|) == []
    decreases |NoisePatterns| - n
  {
    if n < |NoisePatterns| {
      EmptyStaysEmpty(s, n + 1);
    }
  }

  /**
   * The cleaned text can still hold a phone number: a number broken by a line feed escapes the
   * phone step, which runs before the whitespace step joins it up again.
   */
  lemma CleanKeepsBrokenNumber()
    ensures CleanSpec("123-45\n67 89") == "123-45 67 89"
    ensures FitsTemplate(CleanSpec("123-45\n67 89"), PhoneTemplate)
  {
    BrokenNumberCleaning("123-45\n67 89");
  }

  lemma BrokenNumberCleaning(x: string)
    requires x == "123-45\n67 89"
    ensures CleanSpec(x) == "123-45 67 89"
    ensures FitsTemplate("123-45 67 89", PhoneTemplate)
  {
    BrokenNumberHasNoNoise(x);
    BrokenNumberCollapse(x);
    StripNoEdges("123-45 67 89");
    JoinedNumberFits("123-45 67 89");
  }

  lemma BrokenNumberCollapse(x: string)
    requires x == "123-45\n67 89"
    ensures Collapse(x) == "123-45 67 89"
  {
    assert NoSpace("123-45") && NoSpace("67") && NoSpace("89");
    assert x == "123-45" + ['\n'] + ("67" + [' '] + "89");
    CollapseTwoBreaks("123-45", '\n', "67", ' ', "89");
    assert "123-45" + [' '] + ("67" + [' '] + "89") == "123-45 67 89";
  }

  /** Three whitespace-free words around two whitespace characters collapse to the words around two blanks. */
  lemma CollapseTwoBreaks(a: string, c: char, b: string, d: char, e: string)
    requires NoSpace(a) && NoSpace(b) && NoSpace(e) && b != [] && IsSpace(c) && IsSpace(d)
    ensures Collapse(a + [c] + (b + [d] + e)) == a + [' '] + (b + [' '] + e)
  {
    var rest := b + [d] + e;
    assert a + [c] + rest == a + ([c] + rest);
    CollapseNoSpacePrefix(a, [c] + rest);
    assert ([c] + rest)[1..] == rest;
    assert rest[0] == b[0];
    assert StripLeft(rest) == rest;
    CollapseOneBreak(b, d, e);
    assert a + ([' '] + (b + [' '] + e)) == a + [' '] + (b + [' '] + e);
  }

  lemma JoinedNumberFits(y: string)
    requires y == "123-45 67 89"
    ensures FitsTemplate(y, PhoneTemplate)
  {
    var tpl := PhoneTemplate;
    assert FitsTemplate(y[12..], tpl[12..]);
    assert FitsTemplate(y[11..], tpl[11..]);
    assert FitsTemplate(y[10..], tpl[10..]);
    assert FitsTemplate(y[9..], tpl[9..]);
    assert FitsTemplate(y[8..], tpl[8..]);
    assert FitsTemplate(y[7..], tpl[7..]);
    assert FitsTemplate(y[6..], tpl[6..]);
    assert FitsTemplate(y[5..], tpl[5..]);
    assert FitsTemplate(y[4..], tpl[4..]);
    assert FitsTemplate(y[3..], tpl[3..]);
    assert FitsTemplate(y[2..], tpl[2..]);
    assert FitsTemplate(y[1..], tpl[1..]);
    assert y[0..] == y && tpl[0..] == tpl;
  }

  lemma BrokenNumberHasNoNoise(x: string)
    requires x == "123-45\n67 89"
    ensures DeleteSteps(x, |NoisePatterns|) == x
  {
    forall k | 0 <= k < |NoisePatterns| ensures Unmatched(NoisePatterns[k], x) {
      forall i | 0 <= i < |x| ensures MatchLen(NoisePatterns[k], x[i..]) == 0 {
        NoMatchInBrokenNumber(k, i);
      }
      UnmatchedAtEveryPosition(NoisePatterns[k], x);
    }
    DeleteStepsUnmatched(x, |NoisePatterns|);
  }

  lemma NoMatchInBrokenNumber(k: nat, i: nat)
    requires k < |NoisePatterns| && i < |"123-45\n67 89"|
    ensures MatchLen(NoisePatterns[k], "123-45\n67 89"[i..]) == 0
  {
    var t := "123-45\n67 89"[i..];
    NoLetterInBrokenNumber(i);
    if k < |UiElements| {
      assert NoisePatterns[k] == Literal(UiElements[k]);
      NoLetterNoLabel(t, UiElements[k]);
    } else if k == 4 {
      assert NoisePatterns[k] == Phone;
      NoPhoneInBrokenNumber(t);
    } else {
      assert NoisePatterns[k] == Email || NoisePatterns[k] == Url;
      assert t == [] || !IsLetter(t[0]);
    }
  }

  lemma NoLetterInBrokenNumber(i: nat)
    requires i < |"123-45\n67 89"|
    ensures forall j :: 0 <= j < |"123-45\n67 89"[i..]| ==> !IsLetter("123-45\n67 89"[i..][j])
  {
    var x := "123-45\n67 89";
    assert forall j :: 0 <= j < |x| ==> !IsLetter(x[j]);
    assert forall j :: 0 <= j < |x[i..]| ==> x[i..][j] == x[i + j];
  }

  lemma NoPhoneInBrokenNumber(t: string)
    requires |t| <= 12 && (|t| == 12 ==> t == "123-45\n67 89")
    ensures !FitsTemplate(t, PhoneTemplate)
  {
    if FitsTemplate(t, PhoneTemplate) {
      TemplateAt(t, PhoneTemplate, 6);
    }
  }

  /** A text without ASCII letters holds no label that starts with one. */
  lemma NoLetterNoLabel(t: string, w: string)
    requires w != [] && IsLetter(w[0])
    requires forall j :: 0 <= j < |t| ==> !IsLetter(t[j])
    ensures !StartsWith(t, w)
  {
    if |w| <= |t| {
      assert t[..|w|][0] == t[0];
    }
  }
}
