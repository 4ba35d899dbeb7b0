/** The two pure helpers of the result card: the verdict badge's colours and icon, and the
    display copy of the analysis with the verdict and confidence lines taken out. */
module SignalCard {
  import opened Wrappers
  import opened Seqs
  import opened Text
  import opened Types
  import opened GeminiService

  // ---------------------------------------------------------------------------------------
  // getVerdictStyles

  /** The icons the badge can show. */
  datatype Icon = ShieldCheck | ShieldAlert | ShieldQuestion | TrendingUp

  /** The badge's text, background and border classes and its icon. */
  datatype VerdictStyle = VerdictStyle(color: string, bg: string, border: string, icon: Icon)

  const TrueStyle: VerdictStyle :=
    VerdictStyle("text-emerald-400", "bg-emerald-400/10", "border-emerald-400/20", ShieldCheck)
  const FalseStyle: VerdictStyle :=
    VerdictStyle("text-rose-400", "bg-rose-400/10", "border-rose-400/20", ShieldAlert)
  const MisleadingStyle: VerdictStyle :=
    VerdictStyle("text-orange-400", "bg-orange-400/10", "border-orange-400/20", ShieldAlert)
  const DevelopingStyle: VerdictStyle :=
    VerdictStyle("text-sky-400", "bg-sky-400/10", "border-sky-400/20", TrendingUp)
  const NeutralStyle: VerdictStyle :=
    VerdictStyle("text-gray-400", "bg-gray-400/10", "border-gray-400/20", ShieldQuestion)

  /** The four verdict spellings the badge recognises, in lower case. */
  const StyledNames: set<string> := {"true", "false", "misleading", "developing"}

  /** `getVerdictStyles(verdict)`: the lower-cased verdict selects one of four styles; any
      other string gets the neutral one. */
  function GetVerdictStyles(verdict: string): (r: VerdictStyle)
    ensures r == NeutralStyle <==> ToLower(verdict) !in StyledNames
    ensures r.icon == ShieldAlert <==> ToLower(verdict) in {"false", "misleading"}
  {
    match ToLower(verdict)
    case "true" => TrueStyle
    case "false" => FalseStyle
    case "misleading" => MisleadingStyle
    case "developing" => DevelopingStyle
    case _ => NeutralStyle
  }

  /** The badge each verdict is meant to wear: an independent, per-verdict reading of the
      style table, where Unconfirmed has no entry of its own. */
  function StyleOf(v: Verdict): VerdictStyle {
    match v
    case True => TrueStyle
    case False => FalseStyle
    case Misleading => MisleadingStyle
    case Developing => DevelopingStyle
    case Unconfirmed => NeutralStyle
  }

  /** Two verdict strings that differ only in letter case get the same badge. */
  lemma StylesIgnoreCase(a: string, b: string)
    requires EqualsIgnoreCase(a, b)
    ensures GetVerdictStyles(a) == GetVerdictStyles(b)
  {
  }

  lemma LowerNames()
    ensures ToLower("True") == "true" && ToLower("False") == "false"
    ensures ToLower("Misleading") == "misleading" && ToLower("Developing") == "developing"
    ensures ToLower("Unconfirmed") == "unconfirmed"
  {
    assert ToLower("True") == "true";
    assert ToLower("False") == "false";
    assert ToLower("Misleading") == "misleading";
    assert ToLower("Developing") == "developing";
    assert ToLower("Unconfirmed") == "unconfirmed";
  }

  /** Any spelling of a verdict, in any letter case, gets that verdict's badge; in particular
      every spelling of Unconfirmed gets the neutral one. */
  lemma VerdictStyleAgrees(s: string, v: Verdict)
    requires EqualsIgnoreCase(s, VerdictName(v))
    ensures GetVerdictStyles(s) == StyleOf(v)
  {
    LowerNames();
  }

  /** Every verdict the parser files is styled by the verdict it spells. */
  lemma ParsedVerdictStyle(text: string)
    ensures exists v: Verdict ::
      (GetVerdictStyles(ParseVerdict(text)) == StyleOf(v) && EqualsIgnoreCase(ParseVerdict(text), VerdictName(v)))
  {
    var s := ParseVerdict(text);
    var v: Verdict :| EqualsIgnoreCase(s, VerdictName(v));
    VerdictStyleAgrees(s, v);
  }

  /** A string that spells none of the five verdicts gets the neutral badge. */
  lemma UnknownVerdictIsNeutral(s: string)
    requires !IsVerdictSpelling(s)
    ensures GetVerdictStyles(s) == NeutralStyle
  {
    LowerNames();
    assert !EqualsIgnoreCase(s, VerdictName(True));
    assert !EqualsIgnoreCase(s, VerdictName(False));
    assert !EqualsIgnoreCase(s, VerdictName(Misleading));
    assert !EqualsIgnoreCase(s, VerdictName(Developing));
  }

  // ---------------------------------------------------------------------------------------
  // The analysis cleanup: `replace(/VERDICT:.*\n|CONFIDENCE:.*\n/g, '')`

  /** The class `.`: any character but a line terminator. */
  predicate InLine(c: char) {
    !IsLineTerminator(c)
  }

  /** `s[i..e]` is `.*\n`: characters on one line, then a line feed. */
  predicate RestOfLine(s: string, i: nat, e: nat) {
    && i < e <= |s|
    && s[e - 1] == '\n'
    && forall k :: i <= k < e - 1 ==> InLine(s[k])
  }

  /** The two markers the pattern looks for. */
  predicate IsMarker(m: string) {
    m == VerdictMarker || m == ConfidenceMarker
  }

  /** Neither marker holds a line feed, and both end with a colon. */
  lemma MarkerChars(m: string)
    requires IsMarker(m)
    ensures |m| > 0 && m[|m| - 1] == ':'
    ensures forall k :: 0 <= k < |m| ==> m[k] != '\n'
  {
  }

  /** `s[p..e]` is `m.*\n`. */
  predicate LineOf(s: string, p: nat, m: string, e: nat) {
    MatchesAt(s, p, m) && RestOfLine(s, p + |m|, e)
  }

  /** `s[p..e]` is matched by one of the two alternatives of the pattern, both case-sensitive. */
  predicate MarkerLineAt(s: string, p: nat, e: nat) {
    LineOf(s, p, VerdictMarker, e) || LineOf(s, p, ConfidenceMarker, e)
  }

  /** The end of the line feed that closes the line starting at `i`, if that line is closed by
      one rather than by another terminator or the end of the text. */
  function LineEnd(s: string, i: nat): (r: Option<nat>)
    requires i <= |s|
    ensures r.Some? ==> i < r.value <= |s|
  {
    var j := SpanWhile(s, i, InLine);
    if j < |s| && s[j] == '\n' then Some(j + 1) else None
  }

  /** `LineEnd` finds the one `.*\n` that starts at `i`, if there is one. */
  lemma LineEndSpec(s: string, i: nat)
    requires i <= |s|
    ensures LineEnd(s, i).Some? ==> RestOfLine(s, i, LineEnd(s, i).value)
    ensures forall e: nat :: RestOfLine(s, i, e) ==> LineEnd(s, i) == Some(e)
  {
    var j := SpanWhile(s, i, InLine);
    forall e: nat | RestOfLine(s, i, e) ensures j == e - 1 {
      SpanWhileIs(s, i, InLine, e - 1);
    }
  }

  /** Where the pattern's match starting at `p` ends, if it matches there. */
  function MarkerLineEnd(s: string, p: nat): (r: Option<nat>)
    requires p <= |s|
    ensures r.Some? ==> p < r.value <= |s|
  {
    if MatchesAt(s, p, VerdictMarker) then LineEnd(s, p + |VerdictMarker|)
    else if MatchesAt(s, p, ConfidenceMarker) then LineEnd(s, p + |ConfidenceMarker|)
    else None
  }

  /** `MarkerLineEnd` finds exactly the matches of the pattern: the greedy `.*` can only stop
      at the first line terminator, and the two markers start with different letters, so a
      match starting at `p` is unique. */
  lemma MarkerLineEndSpec(s: string, p: nat)
    requires p <= |s|
    ensures MarkerLineEnd(s, p).Some? ==> MarkerLineAt(s, p, MarkerLineEnd(s, p).value)
    ensures forall e: nat :: MarkerLineAt(s, p, e) ==> MarkerLineEnd(s, p) == Some(e)
  {
    if MatchesAt(s, p, VerdictMarker) {
      assert s[p] == 'V';
      LineEndSpec(s, p + |VerdictMarker|);
    } else if MatchesAt(s, p, ConfidenceMarker) {
      LineEndSpec(s, p + |ConfidenceMarker|);
    }
  }

  /** The global replacement from position `i` on: each match, scanning left to right, is
      deleted; every other character is kept. */
  function CleanFrom(s: string, i: nat): (r: string)
    requires i <= |s|
    ensures |r| <= |s| - i
    decreases |s| - i
  {
    if i == |s| then []
    else
      match MarkerLineEnd(s, i)
      case Some(e) => CleanFrom(s, e)
      case None => [s[i]] + CleanFrom(s, i + 1)
  }

  /** The analysis as the card displays it. */
  function CleanAnalysis(analysis: string): (r: string)
    ensures |r| <= |analysis|
  {
    CleanFrom(analysis, 0)
  }

  /** Some match of the pattern starts at or after `i`. */
  ghost predicate HasMarkerLine(s: string, i: nat) {
    exists p: nat, e: nat :: i <= p && MarkerLineAt(s, p, e)
  }

  /** Dropping a prefix of the longer sequence keeps a subsequence a subsequence. */
  lemma {:induction false} SubsequenceOfSuffix<T>(r: seq<T>, t: seq<T>, k: nat)
    requires k <= |t|
    requires IsSubsequence(r, t[k..])
    ensures IsSubsequence(r, t)
    decreases k
  {
    if k > 0 {
      assert t[k - 1..][1..] == t[k..];
      SubsequenceOfSuffix(r, t, k - 1);
    }
  }

  /** The cleanup only deletes: what is left is the text with some characters removed, in
      order. */
  lemma {:induction false} CleanIsSubsequence(s: string, i: nat)
    requires i <= |s|
    ensures IsSubsequence(CleanFrom(s, i), s[i..])
    decreases |s| - i
  {
    if i < |s| {
      var t := s[i..];
      match MarkerLineEnd(s, i)
      case Some(e) =>
        var skipped := e - i;
        SkipMatch(s, i, e);
        CleanIsSubsequence(s, e);
        assert t[skipped..] == s[e..];
        SubsequenceOfSuffix(CleanFrom(s, e), t, skipped);
      case None =>
        var i1 := i + 1;
        KeepChar(s, i, i1);
        CleanIsSubsequence(s, i1);
        assert t[1..] == s[i1..];
    }
  }

  /** The scan keeps a character no match starts at. */
  lemma KeepChar(s: string, i: nat, i1: nat)
    requires i < |s| && i1 == i + 1 && MarkerLineEnd(s, i).None?
    ensures CleanFrom(s, i) == [s[i]] + CleanFrom(s, i1)
  {
  }

  /** Without a match the text is shown as it is. */
  lemma {:induction false} CleanWithoutMatch(s: string, i: nat)
    requires i <= |s|
    requires !HasMarkerLine(s, i)
    ensures CleanFrom(s, i) == s[i..]
    decreases |s| - i
  {
    if i < |s| {
      MarkerLineEndSpec(s, i);
      CleanWithoutMatch(s, i + 1);
      assert s[i..] == [s[i]] + s[i + 1..];
    }
  }

  /** With a match the text gets strictly shorter. */
  lemma {:induction false} CleanWithMatch(s: string, i: nat, p: nat, e: nat)
    requires i <= p && MarkerLineAt(s, p, e)
    ensures |CleanFrom(s, i)| < |s| - i
    decreases |s| - i
  {
    if i == p {
      MarkerLineEndSpec(s, i);
      assert MarkerLineEnd(s, i) == Some(e);
    } else {
      match MarkerLineEnd(s, i)
      case Some(f) =>
      case None =>
        CleanWithMatch(s, i + 1, p, e);
    }
  }

  /** The cleanup leaves a text unchanged exactly when the pattern matches nowhere in it. */
  lemma CleanUnchangedIff(s: string)
    ensures CleanAnalysis(s) == s <==> !HasMarkerLine(s, 0)
  {
    if HasMarkerLine(s, 0) {
      var p: nat, e: nat :| 0 <= p && MarkerLineAt(s, p, e);
      CleanWithMatch(s, 0, p, e);
    } else {
      CleanWithoutMatch(s, 0);
    }
  }

  /** Every match ends with a line feed, so a text without one is shown unchanged, and that
      includes a marker line at the very end of the text. */
  lemma NoLineFeedUnchanged(s: string)
    requires '\n' !in s
    ensures CleanAnalysis(s) == s
  {
    forall p: nat, e: nat ensures !MarkerLineAt(s, p, e) {
      if 0 < e <= |s| {
        assert s[e - 1] in s;
      }
    }
    CleanWithoutMatch(s, 0);
  }

  /** In a text whose every line feed follows a carriage return, no line starting with `m`
      is closed by a line feed. */
  lemma NoLineOfInCrlf(s: string, p: nat, m: string, e: nat)
    requires IsMarker(m)
    requires forall q :: 0 <= q < |s| && s[q] == '\n' ==> q > 0 && s[q - 1] == '\r'
    ensures !LineOf(s, p, m, e)
  {
    MarkerChars(m);
    if MatchesAt(s, p, m) && p + |m| < e <= |s| && s[e - 1] == '\n' {
      assert s[p + |m| - 1] == m[|m| - 1];
      assert s[e - 2] == '\r';
      assert p + |m| <= e - 2 < e - 1 && !InLine(s[e - 2]);
    }
  }

  /** A text whose every line feed follows a carriage return (Windows line ends) is shown
      unchanged: `.` stops at the carriage return, which is not the line feed the pattern
      needs. */
  lemma CrlfTextUnchanged(s: string)
    requires forall q :: 0 <= q < |s| && s[q] == '\n' ==> q > 0 && s[q - 1] == '\r'
    ensures CleanAnalysis(s) == s
  {
    forall p: nat, e: nat ensures !MarkerLineAt(s, p, e) {
      NoLineOfInCrlf(s, p, VerdictMarker, e);
      NoLineOfInCrlf(s, p, ConfidenceMarker, e);
    }
    CleanWithoutMatch(s, 0);
  }

  /** A match starting before a line feed at `n - 1` ends by `n`: it reads the same in the
      text cut at `n`. */
  lemma LineOfInPrefix(s: string, n: nat, p: nat, m: string, e: nat)
    requires IsMarker(m)
    requires 0 < n <= |s| && s[n - 1] == '\n' && p < n
    ensures LineOf(s, p, m, e) <==> LineOf(s[..n], p, m, e)
  {
    MarkerChars(m);
    var t := s[..n];
    var last := n - 1;
    if p + |m| <= last {
      assert s[p..p + |m|] == t[p..p + |m|];
      if e > n {
        assert p + |m| <= last < e - 1 && !InLine(s[last]);
      }
    } else {
      if p + |m| <= |s| {
        assert s[p..p + |m|][last - p] == '\n';
      }
      if p + |m| <= n {
        assert t[p..p + |m|][last - p] == '\n';
      }
    }
  }

  /** Cutting the text after a line feed does not change any match that starts before it. */
  lemma EndInPrefix(s: string, n: nat, i: nat)
    requires 0 < n <= |s| && s[n - 1] == '\n' && i < n
    ensures MarkerLineEnd(s, i) == MarkerLineEnd(s[..n], i)
  {
    var t := s[..n];
    forall e: nat ensures MarkerLineAt(s, i, e) <==> MarkerLineAt(t, i, e) {
      LineOfInPrefix(s, n, i, VerdictMarker, e);
      LineOfInPrefix(s, n, i, ConfidenceMarker, e);
    }
    MarkerLineEndSpec(s, i);
    MarkerLineEndSpec(t, i);
    if MarkerLineEnd(s, i).Some? {
      assert MarkerLineAt(t, i, MarkerLineEnd(s, i).value);
    }
    if MarkerLineEnd(t, i).Some? {
      assert MarkerLineAt(s, i, MarkerLineEnd(t, i).value);
    }
  }

  /** A text that is empty or ends with a line feed. */
  predicate EndsLine(s: string) {
    s == [] || s[|s| - 1] == '\n'
  }

  /** The cleanup works block by block: cleaning a text is cleaning its part up to a line
      feed and then the rest. */
  lemma {:induction false} CleanSplitsAfterLineFeed(s: string, n: nat, i: nat)
    requires i <= n <= |s| && EndsLine(s[..n])
    ensures CleanFrom(s, i) == CleanFrom(s[..n], i) + CleanFrom(s, n)
    decreases n - i
  {
    if i < n {
      EndInPrefix(s, n, i);
      match MarkerLineEnd(s[..n], i)
      case Some(e) =>
        CleanSplitsAfterLineFeed(s, n, e);
      case None =>
        CleanSplitsAfterLineFeed(s, n, i + 1);
    }
  }

  /** A match in a suffix is the same match moved by the length of what was dropped. */
  lemma LineOfInSuffix(s: string, d: nat, p: nat, m: string, e: nat)
    requires d <= |s|
    ensures LineOf(s[d..], p, m, e) <==> LineOf(s, p + d, m, e + d)
  {
    var t := s[d..];
    var i := p + |m|;
    if p + |m| <= |t| {
      assert t[p..p + |m|] == s[p + d..p + d + |m|];
    }
    if RestOfLine(t, i, e) {
      forall k | i + d <= k < e + d - 1 ensures InLine(s[k]) {
        assert s[k] == t[k - d];
      }
    }
    if RestOfLine(s, i + d, e + d) {
      forall k | i <= k < e - 1 ensures InLine(t[k]) {
        assert t[k] == s[k + d];
      }
    }
  }

  /** Matches in a suffix do not depend on what was dropped before it: position `j` of the
      suffix is position `k` of the text. */
  lemma EndInSuffix(s: string, d: nat, j: nat, k: nat)
    requires k == j + d && k <= |s|
    ensures MarkerLineEnd(s[d..], j).Some? <==> MarkerLineEnd(s, k).Some?
    ensures MarkerLineEnd(s[d..], j).Some? ==> MarkerLineEnd(s, k).value == MarkerLineEnd(s[d..], j).value + d
  {
    SuffixMatchLifts(s, d, j, k);
    SuffixMatchDescends(s, d, j, k);
  }

  lemma SuffixMatchLifts(s: string, d: nat, j: nat, k: nat)
    requires k == j + d && k <= |s|
    ensures MarkerLineEnd(s[d..], j).Some? ==> MarkerLineEnd(s, k) == Some(MarkerLineEnd(s[d..], j).value + d)
  {
    var t := s[d..];
    if MarkerLineEnd(t, j).Some? {
      var e := MarkerLineEnd(t, j).value;
      var f := e + d;
      MarkerLineEndSpec(t, j);
      LineOfInSuffix(s, d, j, VerdictMarker, e);
      LineOfInSuffix(s, d, j, ConfidenceMarker, e);
      assert MarkerLineAt(s, k, f);
      MarkerLineEndSpec(s, k);
    }
  }

  lemma SuffixMatchDescends(s: string, d: nat, j: nat, k: nat)
    requires k == j + d && k <= |s|
    ensures MarkerLineEnd(s, k).Some? ==> MarkerLineEnd(s[d..], j).Some?
  {
    var t := s[d..];
    if MarkerLineEnd(s, k).Some? {
      var f := MarkerLineEnd(s, k).value;
      var e := f - d;
      MarkerLineEndSpec(s, k);
      LineOfInSuffix(s, d, j, VerdictMarker, e);
      LineOfInSuffix(s, d, j, ConfidenceMarker, e);
      assert MarkerLineAt(t, j, e);
      MarkerLineEndSpec(t, j);
    }
  }

  /** Cleaning a suffix is cleaning the whole text from where the suffix starts. */
  lemma {:induction false} CleanSuffix(s: string, d: nat, j: nat, k: nat)
    requires k == j + d && k <= |s|
    ensures CleanFrom(s[d..], j) == CleanFrom(s, k)
    decreases |s| - k
  {
    var t := s[d..];
    if k < |s| {
      EndInSuffix(s, d, j, k);
      match MarkerLineEnd(t, j)
      case Some(e) =>
        var f := e + d;
        SkipInBoth(s, t, j, e, k, f);
        CleanSuffix(s, d, e, f);
      case None =>
        var j1 := j + 1;
        var k1 := k + 1;
        assert t[j] == s[k];
        KeepInBoth(s, t, j, j1, k, k1);
        CleanSuffix(s, d, j1, k1);
    }
  }

  lemma SkipInBoth(s: string, t: string, j: nat, e: nat, k: nat, f: nat)
    requires j < |t| && k < |s|
    requires MarkerLineEnd(t, j) == Some(e) && MarkerLineEnd(s, k) == Some(f)
    ensures CleanFrom(t, j) == CleanFrom(t, e) && CleanFrom(s, k) == CleanFrom(s, f)
  {
  }

  lemma KeepInBoth(s: string, t: string, j: nat, j1: nat, k: nat, k1: nat)
    requires j < |t| && k < |s| && j1 == j + 1 && k1 == k + 1 && t[j] == s[k]
    requires MarkerLineEnd(t, j).None? && MarkerLineEnd(s, k).None?
    ensures CleanFrom(t, j) == [s[k]] + CleanFrom(t, j1) && CleanFrom(s, k) == [s[k]] + CleanFrom(s, k1)
  {
  }

  /** A whole marker line, closed by a line feed, is matched where it starts. */
  lemma MarkerLineMatches(s: string, p: nat, marker: string, body: string, e: nat)
    requires IsMarker(marker)
    requires forall k :: 0 <= k < |body| ==> InLine(body[k])
    requires e == p + |marker + body + "\n"| && e <= |s| && s[p..e] == marker + body + "\n"
    ensures MarkerLineEnd(s, p) == Some(e)
  {
    var line := marker + body + "\n";
    var i := p + |marker|;
    assert s[p..i] == line[..|marker|];
    forall k | i <= k < e - 1 ensures InLine(s[k]) {
      assert s[k] == line[k - p] == body[k - i];
    }
    assert s[e - 1] == line[|line| - 1];
    assert LineOf(s, p, marker, e);
    MarkerLineEndSpec(s, p);
  }

  /** The scan jumps over a match in one step. */
  lemma SkipMatch(s: string, p: nat, e: nat)
    requires p < |s| && MarkerLineEnd(s, p) == Some(e)
    ensures CleanFrom(s, p) == CleanFrom(s, e)
  {
  }

  /** The scan keeps every character before the first position a match starts at. */
  lemma {:induction false} CleanKeepsUpToMatch(s: string, i: nat, p: nat)
    requires i <= p <= |s|
    requires forall q | i <= q < p :: MarkerLineEnd(s, q).None?
    ensures CleanFrom(s, i) == s[i..p] + CleanFrom(s, p)
    decreases p - i
  {
    if i < p {
      var i1 := i + 1;
      KeepChar(s, i, i1);
      CleanKeepsUpToMatch(s, i1, p);
      assert s[i..p] == [s[i]] + s[i1..p];
    }
  }

  /** The first match from `i` on is cut out, and everything between `i` and it is kept. */
  lemma CleanCutsFirstMatch(s: string, i: nat, p: nat, e: nat)
    requires i <= p < |s|
    requires forall q | i <= q < p :: MarkerLineEnd(s, q).None?
    requires MarkerLineEnd(s, p) == Some(e)
    ensures CleanFrom(s, i) == s[i..p] + CleanFrom(s, e)
  {
    CleanKeepsUpToMatch(s, i, p);
    SkipMatch(s, p, e);
  }

  /** Wherever the leftmost match of the pattern sits, at the start of a line or inside one,
      the text before it is shown as it is and the match is removed through its line feed. */
  lemma LeftmostMatchCut(s: string, p: nat, e: nat)
    requires MarkerLineAt(s, p, e)
    requires forall q: nat, f: nat | q < p :: !MarkerLineAt(s, q, f)
    ensures CleanAnalysis(s) == s[..p] + CleanAnalysis(s[e..])
  {
    forall q | 0 <= q < p ensures MarkerLineEnd(s, q).None? {
      MarkerLineEndSpec(s, q);
    }
    MarkerLineEndSpec(s, p);
    CleanCutsFirstMatch(s, 0, p, e);
    CleanSuffix(s, e, 0, e);
  }

  /** A match starts with the first letter of its marker. */
  lemma MatchStartsWithMarker(s: string, q: nat)
    requires q <= |s| && MarkerLineEnd(s, q).Some?
    ensures q < |s| && (s[q] == 'V' || s[q] == 'C')
  {
    if MatchesAt(s, q, VerdictMarker) {
      assert s[q] == s[q..q + |VerdictMarker|][0];
    } else {
      assert s[q] == s[q..q + |ConfidenceMarker|][0];
    }
  }

  /** A marker line behind text without a `V` or a `C`, such as a section number, loses the
      marker and the rest of its line; the text before the marker stays. */
  lemma MidLineMarkerCut(pre: string, marker: string, body: string, post: string)
    requires forall k :: 0 <= k < |pre| ==> pre[k] != 'V' && pre[k] != 'C'
    requires IsMarker(marker)
    requires forall k :: 0 <= k < |body| ==> InLine(body[k])
    ensures CleanAnalysis(pre + (marker + body + "\n") + post) == pre + CleanAnalysis(post)
  {
    var line := marker + body + "\n";
    var s := pre + line + post;
    var n := |pre|;
    var m := n + |line|;
    assert s[..n] == pre;
    assert s[n..m] == line;
    assert s[m..] == post;
    forall q | 0 <= q < n ensures MarkerLineEnd(s, q).None? {
      assert s[q] == pre[q];
      if MarkerLineEnd(s, q).Some? {
        MatchStartsWithMarker(s, q);
      }
    }
    MarkerLineMatches(s, n, marker, body, m);
    CleanCutsFirstMatch(s, 0, n, m);
    CleanSuffix(s, m, 0, m);
  }

  /** A numbered verdict line keeps its number: `1. VERDICT: True` followed by a line feed
      is shown as `1. `. */
  lemma NumberedVerdictLineCut(post: string)
    ensures CleanAnalysis("1. VERDICT: True\n" + post) == "1. " + CleanAnalysis(post)
  {
    var pre := "1. ";
    var body := " True";
    assert forall k :: 0 <= k < |body| ==> InLine(body[k]);
    MidLineMarkerCut(pre, VerdictMarker, body, post);
    var line := VerdictMarker + body + "\n";
    assert line == "VERDICT: True\n";
    assert pre + line == "1. VERDICT: True\n";
  }

  /** A verdict or confidence line that follows a line feed (or opens the text) and is closed
      by one is cut out, and nothing else around it changes. */
  lemma MarkerLineCut(pre: string, marker: string, body: string, post: string)
    requires EndsLine(pre)
    requires IsMarker(marker)
    requires forall k :: 0 <= k < |body| ==> InLine(body[k])
    ensures CleanAnalysis(pre + (marker + body + "\n") + post) == CleanAnalysis(pre) + CleanAnalysis(post)
  {
    var line := marker + body + "\n";
    var s := pre + line + post;
    var n := |pre|;
    var m := n + |line|;
    assert s[..n] == pre;
    assert s[n..m] == line;
    assert s[m..] == post;
    CleanSplitsAfterLineFeed(s, n, 0);
    MarkerLineMatches(s, n, marker, body, m);
    SkipMatch(s, n, m);
    CleanSuffix(s, m, 0, m);
  }

  /** A marker line that opens the text is cut out. */
  lemma LeadingMarkerLineCut(marker: string, body: string, post: string)
    requires IsMarker(marker)
    requires forall k :: 0 <= k < |body| ==> InLine(body[k])
    ensures CleanAnalysis((marker + body + "\n") + post) == CleanAnalysis(post)
  {
    var empty: string := [];
    MarkerLineCut(empty, marker, body, post);
    assert empty + (marker + body + "\n") + post == (marker + body + "\n") + post;
  }

  /** The text the service is asked to produce: the verdict line and the confidence line
      disappear from the card and the explanation after them stays. */
  lemma HeaderLinesCut(verdict: string, confidence: string, explanation: string)
    requires forall k :: 0 <= k < |verdict| ==> InLine(verdict[k])
    requires forall k :: 0 <= k < |confidence| ==> InLine(confidence[k])
    ensures CleanAnalysis((VerdictMarker + verdict + "\n") + (ConfidenceMarker + confidence + "\n") + explanation)
         == CleanAnalysis(explanation)
  {
    var first := VerdictMarker + verdict + "\n";
    var rest := (ConfidenceMarker + confidence + "\n") + explanation;
    LeadingMarkerLineCut(VerdictMarker, verdict, rest);
    LeadingMarkerLineCut(ConfidenceMarker, confidence, explanation);
    assert first + (ConfidenceMarker + confidence + "\n") + explanation == first + rest;
  }
}
