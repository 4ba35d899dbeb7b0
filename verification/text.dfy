/** The JavaScript string built-ins the program relies on, over strings of Unicode scalar
    values (one per UTF-16 code unit inside the Basic Multilingual Plane): the `\s` and `.`
    character classes, `trim`, `split`/`join` on one character, ASCII case folding (what the
    `i` flag does to an ASCII pattern), and the decimal digit strings `\d+` captures and
    `parseInt` reads. */
module Text {
  import opened Wrappers

  /** ECMAScript WhiteSpace and LineTerminator code points: the class `\s` matches and the
      characters `String.prototype.trim` removes. */
  predicate IsWhitespace(c: char) {
    || c == '\t' || c == '\n' || c == '\U{000B}' || c == '\U{000C}' || c == '\r' || c == ' '
    || c == '\U{00A0}' || c == '\U{1680}' || ('\U{2000}' <= c <= '\U{200A}')
    || c == '\U{2028}' || c == '\U{2029}' || c == '\U{202F}' || c == '\U{205F}'
    || c == '\U{3000}' || c == '\U{FEFF}'
  }

  /** ECMAScript LineTerminator: the characters `.` does not match. */
  predicate IsLineTerminator(c: char) {
    c == '\n' || c == '\r' || c == '\U{2028}' || c == '\U{2029}'
  }

  /** The class `\d`, which is ASCII-only in JavaScript. */
  predicate IsDigit(c: char) {
    '0' <= c <= '9'
  }

  predicate AllWhitespace(s: string) {
    forall k :: 0 <= k < |s| ==> IsWhitespace(s[k])
  }

  predicate AllDigits(s: string) {
    forall k :: 0 <= k < |s| ==> IsDigit(s[k])
  }

  /** JavaScript's `a || b` where `a` is a possibly absent string: both `undefined` and the
      empty string are falsy. */
  function Or(a: Option<string>, b: string): (r: string)
    ensures a.Some? && a.value != "" ==> r == a.value
    ensures a.None? || a.value == "" ==> r == b
  {
    if a.Some? && a.value != "" then a.value else b
  }

  /** The end of the longest run of characters satisfying `p` that starts at `i`. */
  function SpanWhile(s: string, i: nat, p: char -> bool): (j: nat)
    requires i <= |s|
    ensures i <= j <= |s|
    ensures forall k :: i <= k < j ==> p(s[k])
    ensures j < |s| ==> !p(s[j])
    decreases |s| - i
  {
    if i < |s| && p(s[i]) then SpanWhile(s, i + 1, p) else i
  }

  /** The maximal run is the only run that stops where `p` fails. */
  lemma SpanWhileIs(s: string, i: nat, p: char -> bool, j: nat)
    requires i <= j <= |s|
    requires forall k :: i <= k < j ==> p(s[k])
    requires j < |s| ==> !p(s[j])
    ensures SpanWhile(s, i, p) == j
  {
  }

  /** The start of the longest run of characters satisfying `p` that ends at `j`. */
  function SpanBackWhile(s: string, j: nat, p: char -> bool): (i: nat)
    requires j <= |s|
    ensures i <= j
    ensures forall k :: i <= k < j ==> p(s[k])
    ensures i > 0 ==> !p(s[i - 1])
    decreases j
  {
    if j > 0 && p(s[j - 1]) then SpanBackWhile(s, j - 1, p) else j
  }

  /** `s.trim()`: the one slice of `s` that is bordered only by whitespace and neither starts
      nor ends with it. */
  function Trim(s: string): (r: string)
    ensures exists i, j | 0 <= i <= j <= |s| ::
      r == s[i..j] && AllWhitespace(s[..i]) && AllWhitespace(s[j..])
    ensures r != [] ==> !IsWhitespace(r[0]) && !IsWhitespace(r[|r| - 1])
    ensures r == [] <==> AllWhitespace(s)
  {
    var i := SpanWhile(s, 0, IsWhitespace);
    if i == |s| then
      TrimAll(s, i);
      []
    else
      var j := SpanBackWhile(s, |s|, IsWhitespace);
      TrimBounds(s, i, j);
      s[i..j]
  }

  /** A string whose leading whitespace run reaches its end is all whitespace. */
  lemma TrimAll(s: string, i: nat)
    requires i == |s| && i == SpanWhile(s, 0, IsWhitespace)
    ensures AllWhitespace(s) && s[..i] == s && s[i..] == [] && AllWhitespace(s[i..])
  {
  }

  /** Where the two whitespace runs of a string that is not all whitespace stop. */
  lemma TrimBounds(s: string, i: nat, j: nat)
    requires i < |s| && i == SpanWhile(s, 0, IsWhitespace)
    requires j == SpanBackWhile(s, |s|, IsWhitespace)
    ensures i < j <= |s|
    ensures AllWhitespace(s[..i]) && AllWhitespace(s[j..])
    ensures var r := s[i..j]; r != [] && !IsWhitespace(r[0]) && !IsWhitespace(r[|r| - 1])
    ensures !AllWhitespace(s)
  {
    assert !IsWhitespace(s[i]);
    assert forall k :: 0 <= k < i ==> s[..i][k] == s[k];
    assert forall k :: 0 <= k < |s| - j ==> s[j..][k] == s[j + k];
    assert s[i..j][0] == s[i];
    assert s[i..j][j - i - 1] == s[j - 1];
  }

  /** `!s.trim()`: the string is empty or whitespace only. */
  predicate IsBlank(s: string) {
    Trim(s) == []
  }

  /** A string with no whitespace at either end is its own trim. */
  lemma TrimOfTrimmed(s: string)
    requires s == [] || (!IsWhitespace(s[0]) && !IsWhitespace(s[|s| - 1]))
    ensures Trim(s) == s
  {
    var r := Trim(s);
    var i, j :| 0 <= i <= j <= |s| && r == s[i..j] && AllWhitespace(s[..i]) && AllWhitespace(s[j..]);
  }

  /** Trimming twice is trimming once. */
  lemma TrimIdempotent(s: string)
    ensures Trim(Trim(s)) == Trim(s)
  {
    TrimOfTrimmed(Trim(s));
  }

  /** ASCII lower-casing of one character. */
  function LowerChar(c: char): char {
    if 'A' <= c <= 'Z' then (c as int + 32) as char else c
  }

  /** `s.toLowerCase()` on ASCII letters: no upper-case letter is left, and each character is
      either kept or is an upper-case letter moved to its lower-case partner. */
  function ToLower(s: string): (r: string)
    ensures |r| == |s|
    ensures forall k :: 0 <= k < |r| ==> !('A' <= r[k] <= 'Z')
    ensures forall k :: 0 <= k < |s| ==>
      r[k] == s[k] || ('A' <= s[k] <= 'Z' && r[k] as int == s[k] as int + 32)
  {
    seq(|s|, k requires 0 <= k < |s| => LowerChar(s[k]))
  }

  /** Lower-casing twice is lower-casing once. */
  lemma ToLowerIdempotent(s: string)
    ensures ToLower(ToLower(s)) == ToLower(s)
  {
    var r := ToLower(s);
    assert forall k :: 0 <= k < |r| ==> ToLower(r)[k] == r[k];
  }

  /** Equality up to the case of ASCII letters. */
  predicate EqualsIgnoreCase(a: string, b: string) {
    ToLower(a) == ToLower(b)
  }

  /** The literal `lit` occurs in `s` at position `i`, case-sensitively. */
  predicate MatchesAt(s: string, i: nat, lit: string) {
    i + |lit| <= |s| && s[i..i + |lit|] == lit
  }

  /** The literal `lit` occurs in `s` at position `i` under the regular-expression `i` flag. */
  predicate MatchesAtIgnoreCase(s: string, i: nat, lit: string) {
    i + |lit| <= |s| && EqualsIgnoreCase(s[i..i + |lit|], lit)
  }

  /** The parts joined with the separator between them (`parts.join(sep)`). */
  function Join(parts: seq<string>, sep: char): string
    decreases |parts|
  {
    if |parts| == 0 then ""
    else if |parts| == 1 then parts[0]
    else parts[0] + [sep] + Join(parts[1..], sep)
  }

  /** Joining two non-empty lists of parts puts one separator between their joins. */
  lemma {:induction false} JoinAppend(a: seq<string>, b: seq<string>, sep: char)
    requires |a| > 0 && |b| > 0
    ensures Join(a + b, sep) == Join(a, sep) + [sep] + Join(b, sep)
    decreases |a|
  {
    if |a| == 1 {
      assert (a + b)[0] == a[0] && (a + b)[1..] == b;
    } else {
      assert (a + b)[0] == a[0] && (a + b)[1..] == a[1..] + b;
      JoinAppend(a[1..], b, sep);
    }
  }

  /** Joining parts around one middle part. */
  lemma JoinAround(a: seq<string>, m: string, b: seq<string>, sep: char)
    requires |a| > 0 && |b| > 0
    ensures Join(a + [m] + b, sep) == Join(a, sep) + [sep] + m + [sep] + Join(b, sep)
  {
    JoinAppend(a, [m], sep);
    JoinAppend(a + [m], b, sep);
  }

  /** `s.split(sep)` for a one-character separator: the pieces between separators, one more
      piece than there are separators, so the empty string splits into one empty piece. */
  function Split(s: string, sep: char): (parts: seq<string>)
    ensures |parts| >= 1
    ensures forall k :: 0 <= k < |parts| ==> sep !in parts[k]
    ensures Join(parts, sep) == s
    decreases |s|
  {
    var j := SpanWhile(s, 0, c => c != sep);
    if j == |s| then
      assert forall k :: 0 <= k < |s| ==> s[k] != sep;
      [s]
    else
      var rest := Split(s[j + 1..], sep);
      assert forall k :: 0 <= k < j ==> s[..j][k] != sep;
      assert s == s[..j] + [sep] + s[j + 1..];
      [s[..j]] + rest
  }

  /** Splitting the join of separator-free parts gives the parts back. */
  lemma {:induction false} SplitJoin(parts: seq<string>, sep: char)
    requires |parts| >= 1
    requires forall k :: 0 <= k < |parts| ==> sep !in parts[k]
    ensures Split(Join(parts, sep), sep) == parts
    decreases |parts|
  {
    var p0 := parts[0];
    if |parts| == 1 {
      SplitWithoutSeparator(p0, sep);
    } else {
      var rest := parts[1..];
      var tail := Join(rest, sep);
      var s := p0 + [sep] + tail;
      var j := |p0|;
      var j1 := j + 1;
      assert s[..j] == p0 && s[j] == sep && s[j1..] == tail;
      SplitAtFirstSeparator(s, sep, j, j1);
      SplitJoin(rest, sep);
    }
  }

  /** A string without the separator splits into itself. */
  lemma SplitWithoutSeparator(s: string, sep: char)
    requires sep !in s
    ensures Split(s, sep) == [s]
  {
    var notSep := c => c != sep;
    forall k | 0 <= k < |s| ensures notSep(s[k]) {
      assert s[k] in s;
    }
    SpanWhileIs(s, 0, notSep, |s|);
  }

  /** The first separator at `j` ends the first piece. */
  lemma SplitAtFirstSeparator(s: string, sep: char, j: nat, j1: nat)
    requires j < |s| && j1 == j + 1
    requires s[j] == sep && sep !in s[..j]
    ensures Split(s, sep) == [s[..j]] + Split(s[j1..], sep)
  {
    var notSep := c => c != sep;
    forall k | 0 <= k < j ensures notSep(s[k]) {
      assert s[k] == s[..j][k];
    }
    SpanWhileIs(s, 0, notSep, j);
  }

  /** The value of one decimal digit. */
  function DigitValue(c: char): nat
    requires IsDigit(c)
  {
    c as int - '0' as int
  }

  /** The digit character for a value below ten. */
  function DigitChar(d: nat): (c: char)
    requires d < 10
    ensures IsDigit(c) && DigitValue(c) == d
  {
    ('0' as int + d) as char
  }

  /** The number a run of decimal digits denotes, as `parseInt` reads it (leading zeros
      allowed, no precision limit). */
  function DecimalValue(ds: string): nat
    requires AllDigits(ds)
    decreases |ds|
  {
    if |ds| == 0 then 0
    else 10 * DecimalValue(ds[..|ds| - 1]) + DigitValue(ds[|ds| - 1])
  }

  /** The decimal rendering of `n` without leading zeros (`String(n)`). */
  function DecimalString(n: nat): (r: string)
    ensures |r| >= 1 && AllDigits(r)
    ensures |r| > 1 ==> r[0] != '0'
    decreases n
  {
    if n < 10 then [DigitChar(n)] else DecimalString(n / 10) + [DigitChar(n % 10)]
  }

  /** Reading back a rendered number gives the number. */
  lemma {:induction false} DecimalRoundTrip(n: nat)
    ensures DecimalValue(DecimalString(n)) == n
    decreases n
  {
    if n >= 10 {
      var r := DecimalString(n);
      assert r[..|r| - 1] == DecimalString(n / 10);
      DecimalRoundTrip(n / 10);
    }
  }

  function Pow10(e: nat): nat {
    if e == 0 then 1 else 10 * Pow10(e - 1)
  }

  /** A run of `k` digits denotes a number below `10^k`. */
  lemma {:induction false} DecimalValueBound(ds: string)
    requires AllDigits(ds)
    ensures DecimalValue(ds) < Pow10(|ds|)
    decreases |ds|
  {
    if |ds| > 0 {
      DecimalValueBound(ds[..|ds| - 1]);
    }
  }
}
