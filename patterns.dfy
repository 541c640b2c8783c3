/**
 * The four assignment file-name patterns of the problem-set pairer, written out as explicit
 * matchers with the semantics of Python's `re.search`: start positions are tried left to right,
 * `\d{1,2}` and `n?` are greedy and backtrack, `.` does not match a newline, and `$` matches at
 * the end of the string or just before a final newline.
 */
module AssignmentPatterns {
  import opened Wrappers
  import opened Text

  /** The patterns, in the order the classifier tries them. */
  datatype Pattern =
    | InlineSolution    // hw(\d{1,2})_soln?.*\.pdf$
    | SeparateSolution  // soln?(\d{1,2}).*\.pdf$
    | Homework          // hw(\d{1,2})(?!_soln?)\.pdf$
    | ProblemSet        // ps(\d{1,2})(?!_soln?)\.pdf$

  /** `$`: at the end of `s`, or just before a newline that ends `s`. */
  predicate AtEnd(s: string, p: nat) {
    p == |s| || (p + 1 == |s| && s[p] == '\n')
  }

  /** `\.pdf$` starting at `p` (case-sensitive). */
  predicate PdfAtEnd(s: string, p: nat) {
    OccursAt(s, ".pdf", p) && AtEnd(s, p + 4)
  }

  /** `.*\.pdf$` starting at `p`. */
  predicate AnyThenPdfAtEnd(s: string, p: nat)
    decreases |s| - p
  {
    PdfAtEnd(s, p) || (p < |s| && s[p] != '\n' && AnyThenPdfAtEnd(s, p + 1))
  }

  /** The negative lookahead `(?!_soln?)` at `p`. */
  predicate NotFollowedBySol(s: string, p: nat) {
    !OccursAt(s, "_sol", p)
  }

  /** What each pattern demands after its digit group, starting at `p`. */
  predicate TailMatches(s: string, p: nat, pat: Pattern) {
    match pat
    case InlineSolution =>
      OccursAt(s, "_sol", p)
      && ((p + 4 < |s| && s[p + 4] == 'n' && AnyThenPdfAtEnd(s, p + 5)) || AnyThenPdfAtEnd(s, p + 4))
    case SeparateSolution => AnyThenPdfAtEnd(s, p)
    case Homework => NotFollowedBySol(s, p) && PdfAtEnd(s, p)
    case ProblemSet => NotFollowedBySol(s, p) && PdfAtEnd(s, p)
  }

  /** The group `(\d{1,2})` at `p` followed by the pattern's tail; two digits are tried first. */
  function DigitsThen(s: string, p: nat, pat: Pattern): (r: Option<string>)
    ensures r.Some? ==> 1 <= |r.value| <= 2 && AllDigits(r.value) && OccursAt(s, r.value, p)
    ensures r.Some? ==> TailMatches(s, p + |r.value|, pat)
  {
    if p + 2 <= |s| && IsDigit(s[p]) && IsDigit(s[p + 1]) && TailMatches(s, p + 2, pat) then
      Some(s[p..p + 2])
    else if p + 1 <= |s| && IsDigit(s[p]) && TailMatches(s, p + 1, pat) then
      Some(s[p..p + 1])
    else
      None
  }

  /** The literal text each pattern starts with. */
  function Lead(pat: Pattern): string {
    match pat
    case InlineSolution => "hw"
    case SeparateSolution => "sol"
    case Homework => "hw"
    case ProblemSet => "ps"
  }

  /** The pattern anchored at index `i`: the captured group 1 on a match. */
  function MatchAt(s: string, i: nat, pat: Pattern): (r: Option<string>)
    ensures r.Some? ==> 1 <= |r.value| <= 2 && AllDigits(r.value) && OccursAt(s, Lead(pat), i)
  {
    if !OccursAt(s, Lead(pat), i) then None
    else if pat == SeparateSolution then
      var p := i + 3;
      if p < |s| && s[p] == 'n' && DigitsThen(s, p + 1, pat).Some? then DigitsThen(s, p + 1, pat)
      else DigitsThen(s, p, pat)
    else
      DigitsThen(s, i + 2, pat)
  }

  /** `re.search` from start index `i` onwards: the leftmost start that matches decides. */
  function SearchFrom(s: string, i: nat, pat: Pattern): (r: Option<string>)
    ensures r.Some? ==> 1 <= |r.value| <= 2 && AllDigits(r.value)
    decreases |s| + 1 - i
  {
    if i > |s| then None
    else
      var m := MatchAt(s, i, pat);
      if m.Some? then m else SearchFrom(s, i + 1, pat)
  }

  /** `re.search(pattern, s)`, reduced to its group 1. */
  function Search(s: string, pat: Pattern): Option<string> {
    SearchFrom(s, 0, pat)
  }

  /** The role a file plays in a problem set. */
  datatype Role = Problem | Solution

  /** A classified assignment file: its role and its two-digit pairing key. */
  datatype Classification = Classification(role: Role, key: string)

  /** A pairing key: exactly two ASCII digits. */
  predicate IsKey(k: string) {
    |k| == 2 && AllDigits(k)
  }

  /** `group(1).zfill(2)` */
  function KeyOfDigits(d: string): (k: string)
    requires 1 <= |d| <= 2 && AllDigits(d)
    ensures IsKey(k) && DecimalValue(k) == DecimalValue(d) && EndsWith(k, d)
  {
    ZFillDigits(d, 2);
    ZFill(d, 2)
  }

  /** The four patterns tried in priority order; the first that matches decides. */
  function Classify(name: string): (r: Option<Classification>)
    ensures r.Some? ==> IsKey(r.value.key)
  {
    match Search(name, InlineSolution)
    case Some(d) => Some(Classification(Solution, KeyOfDigits(d)))
    case None =>
      match Search(name, SeparateSolution)
      case Some(d) => Some(Classification(Solution, KeyOfDigits(d)))
      case None =>
        match Search(name, Homework)
        case Some(d) => Some(Classification(Problem, KeyOfDigits(d)))
        case None =>
          match Search(name, ProblemSet)
          case Some(d) => Some(Classification(Problem, KeyOfDigits(d)))
          case None => None
  }

  // ----- Lemmas -----------------------------------------------------------------------------

  /** A `.*\.pdf$` match ends in a `.pdf` that reaches the end of the string. */
  lemma {:induction false} AnyThenPdfWitness(s: string, p: nat)
    requires AnyThenPdfAtEnd(s, p)
    ensures exists q: nat :: p <= q && PdfAtEnd(s, q) && forall j :: p <= j < q ==> s[j] != '\n'
    decreases |s| - p
  {
    if !PdfAtEnd(s, p) {
      AnyThenPdfWitness(s, p + 1);
      var q: nat :| p + 1 <= q && PdfAtEnd(s, q) && forall j :: p + 1 <= j < q ==> s[j] != '\n';
      assert forall j :: p <= j < q ==> s[j] != '\n';
    }
  }

  /** Conversely, newline-free text followed by a final `.pdf` matches `.*\.pdf$`. */
  lemma {:induction false} AnyThenPdfIntro(s: string, p: nat, q: nat)
    requires p <= q && PdfAtEnd(s, q)
    requires forall j :: p <= j < q ==> s[j] != '\n'
    ensures AnyThenPdfAtEnd(s, p)
    decreases q - p
  {
    if p < q {
      AnyThenPdfIntro(s, p + 1, q);
    }
  }

  /** There is only one place where a final `.pdf` can start. */
  lemma PdfAtEndUnique(s: string, q1: nat, q2: nat)
    requires PdfAtEnd(s, q1) && PdfAtEnd(s, q2)
    ensures q1 == q2
  {
    assert s[q1 + 3] == 'f' && s[q2 + 3] == 'f';
  }

  /** A final `.pdf` makes the string end in ".pdf" or ".pdf\n". */
  lemma PdfAtEndShape(s: string, q: nat)
    requires PdfAtEnd(s, q)
    ensures EndsWith(s, ".pdf") || EndsWith(s, ".pdf\n")
  {
    if q + 4 == |s| {
      assert s[|s| - 4..] == s[q..q + 4];
    } else {
      assert s[|s| - 5..] == s[q..q + 4] + ['\n'];
    }
  }

  /** Every tail demands a final, lower-case `.pdf`. */
  lemma TailNeedsPdf(s: string, p: nat, pat: Pattern)
    requires TailMatches(s, p, pat)
    ensures EndsWith(s, ".pdf") || EndsWith(s, ".pdf\n")
  {
    var p' := p;
    if pat == InlineSolution {
      if p + 4 < |s| && s[p + 4] == 'n' && AnyThenPdfAtEnd(s, p + 5) { p' := p + 5; } else { p' := p + 4; }
    }
    if pat == InlineSolution || pat == SeparateSolution {
      AnyThenPdfWitness(s, p');
      var q: nat :| p' <= q && PdfAtEnd(s, q) && forall j :: p' <= j < q ==> s[j] != '\n';
      PdfAtEndShape(s, q);
    } else {
      PdfAtEndShape(s, p);
    }
  }

  /** A match of any pattern, at any start, needs a final lower-case `.pdf`. */
  lemma MatchNeedsPdf(s: string, k: nat, pat: Pattern)
    requires MatchAt(s, k, pat).Some?
    ensures EndsWith(s, ".pdf") || EndsWith(s, ".pdf\n")
  {
    var p := k + 2;
    if pat == SeparateSolution {
      p := if k + 3 < |s| && s[k + 3] == 'n' && DigitsThen(s, k + 4, pat).Some? then k + 4 else k + 3;
    }
    DigitsThenNeedsPdf(s, p, pat);
  }

  /** The digit group and the tail after it need a final lower-case `.pdf`. */
  lemma DigitsThenNeedsPdf(s: string, p: nat, pat: Pattern)
    requires DigitsThen(s, p, pat).Some?
    ensures EndsWith(s, ".pdf") || EndsWith(s, ".pdf\n")
  {
    TailNeedsPdf(s, p + |DigitsThen(s, p, pat).value|, pat);
  }

  /**
   * The digit group is greedy for every pattern: a one-digit capture is never followed by another
   * digit, so "sol12.pdf" and "hw12_sol.pdf" capture "12", not "1".
   */
  lemma DigitGroupMaximal(s: string, p: nat, pat: Pattern)
    requires DigitsThen(s, p, pat).Some? && |DigitsThen(s, p, pat).value| == 1
    ensures p + 1 >= |s| || !IsDigit(s[p + 1])
  {
    assert TailMatches(s, p + 1, pat);
    match pat
    case InlineSolution => OccursAtChar(s, "_sol", p + 1, 0);
    case Homework => OccursAtChar(s, ".pdf", p + 1, 0);
    case ProblemSet => OccursAtChar(s, ".pdf", p + 1, 0);
    case SeparateSolution =>
      assert !(p + 2 <= |s| && IsDigit(s[p + 1]) && AnyThenPdfAtEnd(s, p + 2));
      if p + 1 < |s| && !AnyThenPdfAtEnd(s, p + 2) {
        assert PdfAtEnd(s, p + 1);
        OccursAtChar(s, ".pdf", p + 1, 0);
      }
  }

  lemma SearchNeedsPdf(s: string, pat: Pattern)
    requires Search(s, pat).Some?
    ensures EndsWith(s, ".pdf") || EndsWith(s, ".pdf\n")
  {
    SearchFromWitness(s, 0, pat);
    var k: nat :| MatchAt(s, k, pat) == Search(s, pat);
    MatchNeedsPdf(s, k, pat);
  }

  /**
   * All four patterns match `.pdf` case-sensitively at the very end: a name the classifier
   * accepts ends in ".pdf" (or ".pdf" and one final newline).
   */
  lemma ClassifiedNamesEndInPdf(name: string)
    requires Classify(name).Some?
    ensures EndsWith(name, ".pdf") || EndsWith(name, ".pdf\n")
  {
    if Search(name, InlineSolution).Some? {
      SearchNeedsPdf(name, InlineSolution);
    } else if Search(name, SeparateSolution).Some? {
      SearchNeedsPdf(name, SeparateSolution);
    } else if Search(name, Homework).Some? {
      SearchNeedsPdf(name, Homework);
    } else {
      SearchNeedsPdf(name, ProblemSet);
    }
  }

  /** For the homework and problem-set patterns the lookahead `(?!_soln?)` never rejects anything. */
  lemma LookaheadRedundant(s: string, p: nat, pat: Pattern)
    requires pat == Homework || pat == ProblemSet
    ensures TailMatches(s, p, pat) <==> PdfAtEnd(s, p)
  {
    if PdfAtEnd(s, p) {
      assert s[p] == '.';
    }
  }

  /** The literal text a homework or problem-set name must end with, for digits `d`. */
  function SuffixFor(pat: Pattern, d: string): string {
    Lead(pat) + d + ".pdf"
  }

  /** A successful search returns the group of a match that starts at or after `i`. */
  lemma {:induction false} SearchFromWitness(s: string, i: nat, pat: Pattern)
    requires SearchFrom(s, i, pat).Some?
    ensures exists k: nat :: i <= k && MatchAt(s, k, pat) == SearchFrom(s, i, pat)
    decreases |s| + 1 - i
  {
    if MatchAt(s, i, pat).None? {
      SearchFromWitness(s, i + 1, pat);
      var k: nat :| i + 1 <= k && MatchAt(s, k, pat) == SearchFrom(s, i + 1, pat);
    }
  }

  /** Searching from `i` finds a match if one starts at some `k >= i`. */
  lemma {:induction false} SearchFromFinds(s: string, i: nat, k: nat, pat: Pattern)
    requires i <= k <= |s| && MatchAt(s, k, pat).Some?
    ensures SearchFrom(s, i, pat).Some?
    decreases k - i
  {
    if i < k && MatchAt(s, i, pat).None? {
      SearchFromFinds(s, i + 1, k, pat);
    }
  }

  /** Searching from `i` returns the match at `k` when nothing matches in between. */
  lemma {:induction false} SearchFromFirst(s: string, i: nat, k: nat, pat: Pattern)
    requires i <= k <= |s| && MatchAt(s, k, pat).Some?
    requires forall j: nat :: i <= j < k ==> MatchAt(s, j, pat).None?
    ensures SearchFrom(s, i, pat) == MatchAt(s, k, pat)
    decreases k - i
  {
    if i < k {
      SearchFromFirst(s, i + 1, k, pat);
    }
  }

  /** A homework or problem-set match at `i` with digits `d` means `s` ends with lead, `d`, ".pdf". */
  lemma SuffixMatchShape(s: string, i: nat, pat: Pattern, d: string)
    requires pat == Homework || pat == ProblemSet
    requires MatchAt(s, i, pat) == Some(d)
    ensures PdfAtEnd(s, i + 2 + |d|) && OccursAt(s, d, i + 2) && OccursAt(s, Lead(pat), i)
  {
    assert DigitsThen(s, i + 2, pat) == Some(d);
  }

  /** Three adjacent pieces that run up to the end (or up to a final newline) form a suffix. */
  lemma PiecesFormSuffix(s: string, k: nat, a: string, b: string, c: string, nl: string)
    requires nl == "" || nl == "\n"
    requires OccursAt(s, a, k) && OccursAt(s, b, k + |a|) && OccursAt(s, c, k + |a| + |b|)
    requires OccursAt(s, nl, k + |a| + |b| + |c|) && k + |a| + |b| + |c| + |nl| == |s|
    ensures EndsWith(s, a + b + c + nl)
  {
    var i := k + |a|;
    var j := i + |b|;
    var m := j + |c|;
    assert s[k..j] == a + b by { assert s[k..j] == s[k..i] + s[i..j]; }
    assert s[k..m] == a + b + c by { assert s[k..m] == s[k..j] + s[j..m]; }
    assert s[k..] == a + b + c + nl by { assert s[k..] == s[k..m] + s[m..]; }
  }

  /** A suffix made of three pieces puts each piece at its place. */
  lemma SuffixGivesPieces(s: string, a: string, b: string, c: string, nl: string)
    requires EndsWith(s, a + b + c + nl)
    ensures var k := |s| - |a| - |b| - |c| - |nl|;
      k >= 0 && OccursAt(s, a, k) && OccursAt(s, b, k + |a|) && OccursAt(s, c, k + |a| + |b|)
      && OccursAt(s, nl, k + |a| + |b| + |c|)
  {
    var w := a + b + c + nl;
    var k := |s| - |w|;
    assert s[k..] == w;
    assert s[k..k + |a|] == w[..|a|];
    assert s[k + |a|..k + |a| + |b|] == w[|a|..|a| + |b|];
    assert s[k + |a| + |b|..k + |a| + |b| + |c|] == w[|a| + |b|..|a| + |b| + |c|];
    assert s[k + |a| + |b| + |c|..k + |a| + |b| + |c| + |nl|] == w[|a| + |b| + |c|..];
  }

  /** A homework or problem-set match at `k` capturing `d` leaves the name ending with lead, `d`, ".pdf". */
  lemma MatchGivesSuffix(s: string, k: nat, pat: Pattern, d: string)
    requires pat == Homework || pat == ProblemSet
    requires MatchAt(s, k, pat) == Some(d)
    ensures EndsWith(s, SuffixFor(pat, d)) || EndsWith(s, SuffixFor(pat, d) + "\n")
  {
    SuffixMatchShape(s, k, pat, d);
    ShapeGivesSuffix(s, k, Lead(pat), d);
  }

  /** A two-letter lead, then `d`, then a final `.pdf` at `k` make the name end with lead, `d`, ".pdf". */
  lemma ShapeGivesSuffix(s: string, k: nat, lead: string, d: string)
    requires |lead| == 2 && OccursAt(s, lead, k) && OccursAt(s, d, k + 2) && PdfAtEnd(s, k + 2 + |d|)
    ensures EndsWith(s, lead + d + ".pdf") || EndsWith(s, lead + d + ".pdf" + "\n")
  {
    var q := k + 2 + |d|;
    if q + 4 == |s| {
      assert s[q + 4..q + 4] == "";
      PiecesFormSuffix(s, k, lead, d, ".pdf", "");
      assert lead + d + ".pdf" + "" == lead + d + ".pdf";
    } else {
      assert s[q + 4..q + 5] == "\n";
      PiecesFormSuffix(s, k, lead, d, ".pdf", "\n");
    }
  }

  /** A homework or problem-set search that captures `d` leaves the name ending with lead, `d`, ".pdf". */
  lemma SuffixPatternSound(s: string, pat: Pattern, d: string)
    requires pat == Homework || pat == ProblemSet
    requires Search(s, pat) == Some(d)
    ensures 1 <= |d| <= 2 && AllDigits(d)
    ensures EndsWith(s, SuffixFor(pat, d)) || EndsWith(s, SuffixFor(pat, d) + "\n")
  {
    SearchFromWitness(s, 0, pat);
    var k: nat :| MatchAt(s, k, pat) == Some(d);
    MatchGivesSuffix(s, k, pat, d);
  }

  /** No homework or problem-set match can start before the position that the final `.pdf` fixes. */
  lemma NoEarlierSuffixMatch(s: string, pat: Pattern, i0: nat, d: string, j: nat)
    requires pat == Homework || pat == ProblemSet
    requires 1 <= |d| <= 2 && j < i0
    requires OccursAt(s, Lead(pat), i0) && PdfAtEnd(s, i0 + 2 + |d|)
    ensures MatchAt(s, j, pat).None?
  {
    if MatchAt(s, j, pat).Some? {
      var d' := MatchAt(s, j, pat).value;
      SuffixMatchShape(s, j, pat, d');
      PdfAtEndUnique(s, j + 2 + |d'|, i0 + 2 + |d|);
    }
  }

  /** The match anchored where the suffix starts captures its digits. */
  lemma SuffixMatchAt(s: string, pat: Pattern, d: string, i0: nat)
    requires pat == Homework || pat == ProblemSet
    requires 1 <= |d| <= 2 && AllDigits(d)
    requires OccursAt(s, Lead(pat), i0) && OccursAt(s, d, i0 + 2) && PdfAtEnd(s, i0 + 2 + |d|)
    ensures MatchAt(s, i0, pat) == Some(d)
  {
    var q := i0 + 2 + |d|;
    LookaheadRedundant(s, q, pat);
    assert TailMatches(s, q, pat);
    OccursAtChar(s, d, i0 + 2, 0);
    if |d| == 1 {
      OccursAtChar(s, ".pdf", q, 0);
      assert s[i0 + 2..i0 + 3] == d;
      assert DigitsThen(s, i0 + 2, pat) == Some(d);
    } else {
      OccursAtChar(s, d, i0 + 2, 1);
      assert s[i0 + 2..i0 + 4] == d;
      assert DigitsThen(s, i0 + 2, pat) == Some(d);
    }
  }

  /** Where a suffix lead, `d`, ".pdf" (and perhaps a final newline) starts, and what stands there. */
  lemma SuffixStart(s: string, lead: string, d: string) returns (i0: nat)
    requires |lead| == 2
    requires EndsWith(s, lead + d + ".pdf") || EndsWith(s, lead + d + ".pdf" + "\n")
    ensures OccursAt(s, lead, i0) && OccursAt(s, d, i0 + 2) && PdfAtEnd(s, i0 + 2 + |d|)
  {
    var nl := if EndsWith(s, lead + d + ".pdf") then "" else "\n";
    assert lead + d + ".pdf" + nl == if nl == "" then lead + d + ".pdf" else lead + d + ".pdf" + "\n";
    SuffixGivesPieces(s, lead, d, ".pdf", nl);
    i0 := |s| - 2 - |d| - 4 - |nl|;
    assert nl == "\n" ==> s[|s| - 1] == '\n';
  }

  /** A name ending with lead, one or two digits `d`, ".pdf" is matched, capturing `d`. */
  lemma SuffixPatternComplete(s: string, pat: Pattern, d: string)
    requires pat == Homework || pat == ProblemSet
    requires 1 <= |d| <= 2 && AllDigits(d)
    requires EndsWith(s, SuffixFor(pat, d)) || EndsWith(s, SuffixFor(pat, d) + "\n")
    ensures Search(s, pat) == Some(d)
  {
    var i0 := SuffixStart(s, Lead(pat), d);
    SuffixMatchAt(s, pat, d, i0);
    forall j: nat | j < i0 ensures MatchAt(s, j, pat).None? {
      NoEarlierSuffixMatch(s, pat, i0, d, j);
    }
    SearchFromFirst(s, 0, i0, pat);
  }

  /**
   * The homework and problem-set patterns accept exactly the names that end with
   * "hw"/"ps", one or two digits, and ".pdf" (optionally followed by one final newline), and they
   * capture those digits: digits anywhere else, three digits, or an upper-case ".PDF" do not count.
   */
  lemma SuffixPatternIff(s: string, pat: Pattern, d: string)
    requires pat == Homework || pat == ProblemSet
    ensures Search(s, pat) == Some(d) <==>
      1 <= |d| <= 2 && AllDigits(d) && (EndsWith(s, SuffixFor(pat, d)) || EndsWith(s, SuffixFor(pat, d) + "\n"))
  {
    if Search(s, pat) == Some(d) {
      SuffixPatternSound(s, pat, d);
    }
    if 1 <= |d| <= 2 && AllDigits(d) && (EndsWith(s, SuffixFor(pat, d)) || EndsWith(s, SuffixFor(pat, d) + "\n")) {
      SuffixPatternComplete(s, pat, d);
    }
  }

  /** An inline-solution match at `k` makes the name a solution, whatever else it contains. */
  lemma InlineSolutionWins(s: string, k: nat)
    requires k <= |s| && MatchAt(s, k, InlineSolution).Some?
    ensures Classify(s).Some? && Classify(s).value.role == Solution
  {
    SearchFromFinds(s, 0, k, InlineSolution);
  }

  /** A separate-solution match at `k` makes the name a solution, whatever else it contains. */
  lemma SeparateSolutionWins(s: string, k: nat)
    requires k <= |s| && MatchAt(s, k, SeparateSolution).Some?
    ensures Classify(s).Some? && Classify(s).value.role == Solution
  {
    SearchFromFinds(s, 0, k, SeparateSolution);
  }

  /** Example: "hw01_sol.pdf" is the solution for key "01" (and so never a problem). */
  lemma ClassifyInlineExample(s: string)
    requires s == "hw01_sol.pdf"
    ensures Classify(s) == Some(Classification(Solution, "01"))
  {
    assert |s| == 12 && s[0] == 'h' && s[1] == 'w' && s[2] == '0' && s[3] == '1';
    assert s[4] == '_' && s[5] == 's' && s[6] == 'o' && s[7] == 'l';
    assert s[8] == '.' && s[9] == 'p' && s[10] == 'd' && s[11] == 'f';
    assert OccursAt(s, "hw", 0) by { assert s[0..2] == "hw"; }
    assert OccursAt(s, "_sol", 4) by { assert s[4..8] == "_sol"; }
    assert PdfAtEnd(s, 8) by { assert s[8..12] == ".pdf"; }
    AnyThenPdfIntro(s, 8, 8);
    var d := s[2..4];
    assert d == "01";
    assert MatchAt(s, 0, InlineSolution) == Some(d);
    SearchFromFirst(s, 0, 0, InlineSolution);
  }

  /** A match at `k` holds the pattern's leading literal (and "_sol" for inline solutions). */
  lemma MatchNeedsLead(s: string, k: nat, pat: Pattern)
    requires MatchAt(s, k, pat).Some?
    ensures Contains(s, Lead(pat))
    ensures pat == InlineSolution ==> Contains(s, "_sol")
  {
    ContainsIff(s, Lead(pat));
    if pat == InlineSolution {
      var d := DigitsThen(s, k + 2, pat).value;
      assert OccursAt(s, "_sol", k + 2 + |d|);
      ContainsIff(s, "_sol");
    }
  }

  /** A pattern only matches a name that holds its leading literal (and "_sol" for inline solutions). */
  lemma SearchNeedsLead(s: string, pat: Pattern)
    requires Search(s, pat).Some?
    ensures Contains(s, Lead(pat))
    ensures pat == InlineSolution ==> Contains(s, "_sol")
  {
    var d := Search(s, pat).value;
    SearchFromWitness(s, 0, pat);
    var k: nat :| MatchAt(s, k, pat) == Some(d);
    MatchNeedsLead(s, k, pat);
  }

  /** A name with no "sol" in it is not a solution under either solution pattern. */
  lemma NoSolutionWithoutSol(s: string)
    requires !Contains(s, "sol")
    ensures Search(s, InlineSolution).None? && Search(s, SeparateSolution).None?
  {
    if Search(s, InlineSolution).Some? {
      SearchNeedsLead(s, InlineSolution);
      ContainsIff(s, "_sol");
      var k: nat :| OccursAt(s, "_sol", k);
      assert OccursAt(s, "sol", k + 1);
      ContainsIff(s, "sol");
    }
    if Search(s, SeparateSolution).Some? {
      SearchNeedsLead(s, SeparateSolution);
    }
  }

  /** A name with a final "hw" + digits + ".pdf" and no "sol" in it is the problem for those digits. */
  lemma HomeworkName(s: string, d: string)
    requires 1 <= |d| <= 2 && AllDigits(d) && EndsWith(s, "hw" + d + ".pdf")
    requires !Contains(s, "sol")
    ensures Classify(s) == Some(Classification(Problem, KeyOfDigits(d)))
  {
    SuffixPatternComplete(s, Homework, d);
    NoSolutionWithoutSol(s);
  }

  /** A name with a final "ps" + digits + ".pdf" and neither "sol" nor "hw" in it is the problem for those digits. */
  lemma ProblemSetName(s: string, d: string)
    requires 1 <= |d| <= 2 && AllDigits(d) && EndsWith(s, "ps" + d + ".pdf")
    requires !Contains(s, "sol") && !Contains(s, "hw")
    ensures Classify(s) == Some(Classification(Problem, KeyOfDigits(d)))
  {
    SuffixPatternComplete(s, ProblemSet, d);
    NoSolutionWithoutSol(s);
    if Search(s, Homework).Some? {
      SearchNeedsLead(s, Homework);
    }
  }

  /** A name spelled out as lead, digits and ".pdf" ends with them. */
  lemma LiteralSuffix(s: string, lead: string, d: string)
    requires s == lead + d + ".pdf"
    ensures EndsWith(s, lead + d + ".pdf")
  {
    assert s[|s| - |lead + d + ".pdf"|..] == s;
  }

  /** None of the homework names of the examples holds "sol". */
  lemma HomeworkNamesLackSol(s: string)
    requires s == "hw1.pdf" || s == "hw01.pdf" || s == "hw03.pdf"
    ensures !Contains(s, "sol")
  {
    if s == "hw1.pdf" {
      assert NoAdjacentFrom("hw1.pdf", 's', 'o', 0);
      NotContains("hw1.pdf", "sol");
    } else if s == "hw01.pdf" {
      assert NoAdjacentFrom("hw01.pdf", 's', 'o', 0);
      NotContains("hw01.pdf", "sol");
    } else {
      assert NoAdjacentFrom("hw03.pdf", 's', 'o', 0);
      NotContains("hw03.pdf", "sol");
    }
  }

  /** Example: "hw1.pdf" is the problem for key "01". */
  lemma ClassifyPaddedHomeworkExample(s: string)
    requires s == "hw1.pdf"
    ensures Classify(s) == Some(Classification(Problem, "01"))
  {
    HomeworkNamesLackSol(s);
    LiteralSuffix(s, "hw", "1");
    HomeworkName(s, "1");
    assert KeyOfDigits("1") == "01";
  }

  /** A name without "_sol" in it never matches the inline-solution pattern. */
  lemma NoInlineWithoutUnderscoreSol(s: string)
    requires !Contains(s, "_sol")
    ensures Search(s, InlineSolution).None?
  {
    if Search(s, InlineSolution).Some? {
      SearchNeedsLead(s, InlineSolution);
    }
  }

  /** The separate-solution match of "soln1_extra.pdf" at its start captures "1". */
  lemma SeparateMatchExample(s: string)
    requires s == "soln1_extra.pdf"
    ensures MatchAt(s, 0, SeparateSolution) == Some("1")
  {
    assert |s| == 15 && s[3] == 'n' && s[4] == '1' && s[5] == '_' && s[6] == 'e';
    assert OccursAt(s, "sol", 0) by { assert s[0..3] == "sol"; }
    assert PdfAtEnd(s, 11) by { assert s[11..15] == ".pdf"; }
    assert forall j :: 5 <= j < 11 ==> s[j] != '\n';
    AnyThenPdfIntro(s, 5, 11);
    assert s[4..5] == "1";
    assert DigitsThen(s, 4, SeparateSolution) == Some("1");
  }

  /** Example: "soln1_extra.pdf" is the solution for key "01". */
  lemma ClassifyPaddedSolutionExample(s: string)
    requires s == "soln1_extra.pdf"
    ensures Classify(s) == Some(Classification(Solution, "01"))
  {
    assert NoAdjacentFrom("soln1_extra.pdf", '_', 's', 0);
    NotContains("soln1_extra.pdf", "_sol");
    NoInlineWithoutUnderscoreSol(s);
    SeparateMatchExample(s);
    SearchFromFirst(s, 0, 0, SeparateSolution);
    assert KeyOfDigits("1") == "01";
  }

  /** The separate-solution match of "sol02.pdf" at its start captures "02". */
  lemma Sol02Match(s: string)
    requires s == "sol02.pdf"
    ensures MatchAt(s, 0, SeparateSolution) == Some("02")
  {
    assert |s| == 9 && s[3] == '0' && s[4] == '2';
    assert OccursAt(s, "sol", 0) by { assert s[0..3] == "sol"; }
    assert PdfAtEnd(s, 5) by { assert s[5..9] == ".pdf"; }
    AnyThenPdfIntro(s, 5, 5);
    assert s[3..5] == "02";
    assert DigitsThen(s, 3, SeparateSolution) == Some("02");
  }

  /** Example: "sol02.pdf" is the solution for key "02". */
  lemma ClassifySeparateExample(s: string)
    requires s == "sol02.pdf"
    ensures Classify(s) == Some(Classification(Solution, "02"))
  {
    assert NoAdjacentFrom("sol02.pdf", '_', 's', 0);
    NotContains("sol02.pdf", "_sol");
    NoInlineWithoutUnderscoreSol(s);
    Sol02Match(s);
    SearchFromFirst(s, 0, 0, SeparateSolution);
    assert KeyOfDigits("02") == "02";
  }

  /** A homework or problem-set match puts a digit just before the final ".pdf" (or ".pdf\n"). */
  lemma DigitBeforeExtension(s: string, pat: Pattern, d: string)
    requires pat == Homework || pat == ProblemSet
    requires Search(s, pat) == Some(d)
    ensures |s| >= 5 && (IsDigit(s[|s| - 5]) || s[|s| - 1] == '\n')
  {
    SuffixPatternSound(s, pat, d);
    var t := SuffixFor(pat, d);
    assert t[|t| - 5] == d[|d| - 1];
    if EndsWith(s, t) {
      EndsWithAt(s, t, |t| - 5);
    } else {
      EndsWithAt(s, t + "\n", |t|);
    }
  }

  /**
   * A name that does not end in a newline, and whose character just before its final four is not a
   * digit, matches neither the homework nor the problem-set pattern.
   */
  lemma NoDigitBeforeExtension(s: string, pat: Pattern)
    requires pat == Homework || pat == ProblemSet
    requires |s| >= 5 && !IsDigit(s[|s| - 5]) && s[|s| - 1] != '\n'
    ensures Search(s, pat).None?
  {
    if Search(s, pat).Some? {
      DigitBeforeExtension(s, pat, Search(s, pat).value);
    }
  }

  /** A name with neither "sol" nor "ps" in it, and no homework match, is not an assignment file. */
  lemma Unclassified(s: string)
    requires !Contains(s, "sol") && !Contains(s, "ps") && Search(s, Homework).None?
    ensures Classify(s) == None
  {
    NoSolutionWithoutSol(s);
    if Search(s, ProblemSet).Some? {
      SearchNeedsLead(s, ProblemSet);
    }
  }

  /** The name used in `ClassifyTrailingWordExample` holds neither "sol" nor "ps" and ends in "s.pdf". */
  lemma TrailingWordText(a: string)
    requires a == "hw01_problems.pdf"
    ensures !Contains(a, "sol") && !Contains(a, "ps")
    ensures |a| >= 5 && !IsDigit(a[|a| - 5]) && a[|a| - 1] != '\n'
  {
    NoSolInTrailingWord();
    NoPsInTrailingWord(a);
    assert |a| == 17 && a[12] == 's' && a[16] == 'f';
  }

  /** "hw01_problems.pdf" holds no "sol": its only 's' is not followed by 'o'. */
  lemma NoSolInTrailingWord()
    ensures !Contains("hw01_problems.pdf", "sol")
  {
    assert NoAdjacentFrom("hw01_problems.pdf", 's', 'o', 9);
    assert NoAdjacentFrom("hw01_problems.pdf", 's', 'o', 0);
    NotContains("hw01_problems.pdf", "sol");
  }

  /** "hw01_problems.pdf" holds no "ps": neither of its 'p's is followed by 's'. */
  lemma NoPsInTrailingWord(a: string)
    requires a == "hw01_problems.pdf"
    ensures !Contains(a, "ps")
  {
    assert NoAdjacentFrom("hw01_problems.pdf", 'p', 's', 9);
    assert NoAdjacentFrom("hw01_problems.pdf", 'p', 's', 0);
    NotContains("hw01_problems.pdf", "ps");
  }

  /** Example: digits that do not sit directly before ".pdf" do not make a problem file. */
  lemma ClassifyTrailingWordExample(a: string)
    requires a == "hw01_problems.pdf"
    ensures Classify(a) == None
  {
    TrailingWordText(a);
    NoDigitBeforeExtension(a, Homework);
    Unclassified(a);
  }

  /** The homework pattern rejects "hw123.pdf": neither "hw" + one digit nor "hw" + two digits ends it. */
  lemma ThreeDigitsNotHomework(b: string)
    requires b == "hw123.pdf"
    ensures Search(b, Homework).None?
  {
    if Search(b, Homework).Some? {
      var d := Search(b, Homework).value;
      SuffixPatternSound(b, Homework, d);
      var t := SuffixFor(Homework, d);
      if EndsWith(b, t) {
        EndsWithAt(b, t, 0);
      } else {
        EndsWithAt(b, t + "\n", |t|);
      }
    }
  }

  /** Example: three digits are more than `\d{1,2}` allows before ".pdf". */
  lemma ClassifyThreeDigitsExample(b: string)
    requires b == "hw123.pdf"
    ensures Classify(b) == None
  {
    assert NoAdjacentFrom("hw123.pdf", 's', 'o', 0);
    NotContains("hw123.pdf", "sol");
    assert NoAdjacentFrom("hw123.pdf", 'p', 's', 0);
    NotContains("hw123.pdf", "ps");
    ThreeDigitsNotHomework(b);
    Unclassified(b);
  }

  /** Example: the patterns are case-sensitive, so an upper-case name is ignored. */
  lemma ClassifyUpperCaseExample(c: string)
    requires c == "HW01.PDF"
    ensures Classify(c) == None
  {
    assert NoAdjacentFrom("HW01.PDF", 's', 'o', 0);
    NotContains("HW01.PDF", "sol");
    assert NoAdjacentFrom("HW01.PDF", 'p', 's', 0);
    NotContains("HW01.PDF", "ps");
    assert NoAdjacentFrom("HW01.PDF", 'h', 'w', 0);
    NotContains("HW01.PDF", "hw");
    if Search(c, Homework).Some? {
      SearchNeedsLead(c, Homework);
    }
    Unclassified(c);
  }

  /** Examples: "hw01.pdf" and "hw03.pdf" are the problems for "01" and "03". */
  lemma ClassifyHomeworkExample(s: string, d: string)
    requires (s == "hw01.pdf" && d == "01") || (s == "hw03.pdf" && d == "03")
    ensures Classify(s) == Some(Classification(Problem, d))
  {
    HomeworkNamesLackSol(s);
    LiteralSuffix(s, "hw", d);
    HomeworkName(s, d);
    assert KeyOfDigits(d) == d;
  }

  /** The name "ps02.pdf" holds neither "sol" nor "hw". */
  lemma Ps02Text(s: string)
    requires s == "ps02.pdf"
    ensures !Contains(s, "sol") && !Contains(s, "hw")
  {
    assert NoAdjacentFrom("ps02.pdf", 's', 'o', 0);
    NotContains("ps02.pdf", "sol");
    assert NoAdjacentFrom("ps02.pdf", 'h', 'w', 0);
    NotContains("ps02.pdf", "hw");
  }

  /** Example: "ps02.pdf" is the problem for "02". */
  lemma ClassifyPs02Example(s: string)
    requires s == "ps02.pdf"
    ensures Classify(s) == Some(Classification(Problem, "02"))
  {
    Ps02Text(s);
    LiteralSuffix(s, "ps", "02");
    ProblemSetName(s, "02");
    assert KeyOfDigits("02") == "02";
  }
}
