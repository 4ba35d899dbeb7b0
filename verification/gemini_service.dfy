/** The client for the generative-language service: how `verifySignal` turns a reply into a
    verification result and how `getTrendingSignals` turns a reply into topic phrases. The
    network call itself is not modelled; its outcome is an input. */
module GeminiService {
  import opened Wrappers
  import opened Seqs
  import opened Text
  import opened Types

  /** The web part of a grounding chunk; either field may be missing. */
  datatype Web = Web(uri: Option<string>, title: Option<string>)

  datatype GroundingChunk = GroundingChunk(web: Option<Web>)

  datatype GroundingMetadata = GroundingMetadata(groundingChunks: Option<seq<GroundingChunk>>)

  datatype Candidate = Candidate(groundingMetadata: Option<GroundingMetadata>)

  /** The parts of a generation reply the client reads. */
  datatype Response = Response(text: Option<string>, candidates: Option<seq<Candidate>>)

  /** The outcome of one request: a reply, or a failure of the exchange (the SDK call throws). */
  datatype Exchange = Delivered(response: Response) | TransportFailed

  /** The error `verifySignal` rethrows to its caller. */
  datatype VerificationFailure = VerificationFailure

  const DefaultCategory: string := "General"
  const NoAnalysis: string := "Unable to generate analysis."
  const DefaultVerdict: string := "Unconfirmed"
  const DefaultConfidence: nat := 50
  const PlaceholderTitle: string := "Source"
  const VerdictMarker: string := "VERDICT:"
  const ConfidenceMarker: string := "CONFIDENCE:"

  // ---------------------------------------------------------------------------------------
  // Leftmost match

  /** The first position at or after `from` where the pattern `m` matches: the position a
      non-global `String.prototype.match` reports. */
  function Leftmost<T>(s: string, from: nat, m: (string, nat) -> Option<T>): (r: Option<nat>)
    requires from <= |s|
    ensures r.Some? ==> from <= r.value < |s| && m(s, r.value).Some?
    ensures r.Some? ==> forall q :: from <= q < r.value ==> m(s, q).None?
    ensures r.None? ==> forall q :: from <= q < |s| ==> m(s, q).None?
    decreases |s| - from
  {
    if from == |s| then None
    else if m(s, from).Some? then Some(from)
    else Leftmost(s, from + 1, m)
  }

  /** A position where `m` matches and before which it never does is the leftmost match. */
  lemma LeftmostIsFirst<T>(s: string, m: (string, nat) -> Option<T>)
    ensures forall p | 0 <= p < |s| && m(s, p).Some? && (forall q | 0 <= q < p :: m(s, q).None?) ::
      Leftmost(s, 0, m) == Some(p)
  {
  }

  // ---------------------------------------------------------------------------------------
  // Verdict: /VERDICT:\s*(True|False|Misleading|Unconfirmed|Developing)/i

  /** The alternatives of the verdict group, in the order the pattern tries them. */
  const VerdictAlternatives: seq<Verdict> := [True, False, Misleading, Unconfirmed, Developing]

  /** The text captured by the first alternative spelled, in any case, at position `q`. */
  function KeywordAt(s: string, q: nat, alts: seq<Verdict>): (r: Option<string>)
    ensures r.Some? ==> MatchesAt(s, q, r.value)
    ensures r.Some? ==> exists v :: v in alts && EqualsIgnoreCase(r.value, VerdictName(v))
    ensures r.Some? ==> IsVerdictSpelling(r.value)
    ensures r.None? ==> forall v :: v in alts ==> !MatchesAtIgnoreCase(s, q, VerdictName(v))
    decreases |alts|
  {
    if |alts| == 0 then None
    else
      var name := VerdictName(alts[0]);
      if MatchesAtIgnoreCase(s, q, name) then Some(s[q..q + |name|])
      else KeywordAt(s, q, alts[1..])
  }

  /** The verdict pattern's capture when a match starts at `p`. The `\s*` can only give back
      whitespace, and no keyword starts with whitespace, so only its longest run matters. */
  function VerdictCaptureAt(s: string, p: nat): (r: Option<string>)
    ensures r.Some? ==> MatchesAtIgnoreCase(s, p, VerdictMarker) && IsVerdictSpelling(r.value)
    ensures r.Some? ==> exists q :: (p + |VerdictMarker| <= q <= |s|
      && AllWhitespace(s[p + |VerdictMarker|..q]) && MatchesAt(s, q, r.value))
  {
    if MatchesAtIgnoreCase(s, p, VerdictMarker) then
      var m := p + |VerdictMarker|;
      var q := SpanWhile(s, m, IsWhitespace);
      assert AllWhitespace(s[m..q]);
      KeywordAt(s, q, VerdictAlternatives)
    else None
  }

  /** The verdict of a reply: the keyword at the leftmost verdict match, in the case the text
      spells it, or `Unconfirmed` when nothing matches. */
  function ParseVerdict(text: string): (r: string)
    ensures IsVerdictSpelling(r)
    ensures (forall p | 0 <= p < |text| :: VerdictCaptureAt(text, p).None?) ==> r == DefaultVerdict
    ensures forall p | 0 <= p < |text| ::
      VerdictCaptureAt(text, p).Some? && (forall q | 0 <= q < p :: VerdictCaptureAt(text, q).None?)
      ==> r == VerdictCaptureAt(text, p).value
  {
    LeftmostIsFirst(text, VerdictCaptureAt);
    match Leftmost(text, 0, VerdictCaptureAt)
    case None =>
      DefaultIsSpelling();
      DefaultVerdict
    case Some(p) => VerdictCaptureAt(text, p).value
  }

  lemma DefaultIsSpelling()
    ensures IsVerdictSpelling(DefaultVerdict)
  {
    assert EqualsIgnoreCase(DefaultVerdict, VerdictName(Unconfirmed));
  }

  // ---------------------------------------------------------------------------------------
  // Confidence: /CONFIDENCE:\s*(\d+)/i

  /** The confidence pattern's capture when a match starts at `p`: the longest run of digits
      directly after the marker and its whitespace. */
  function ConfidenceDigitsAt(s: string, p: nat): (r: Option<string>)
    ensures r.Some? ==> |r.value| > 0 && AllDigits(r.value)
    ensures r.Some? ==> MatchesAtIgnoreCase(s, p, ConfidenceMarker)
    ensures r.Some? ==> exists q :: (p + |ConfidenceMarker| <= q && q + |r.value| <= |s|
      && AllWhitespace(s[p + |ConfidenceMarker|..q]) && MatchesAt(s, q, r.value)
      && (q + |r.value| < |s| ==> !IsDigit(s[q + |r.value|])))
  {
    if MatchesAtIgnoreCase(s, p, ConfidenceMarker) then
      var m := p + |ConfidenceMarker|;
      var q := SpanWhile(s, m, IsWhitespace);
      var e := SpanWhile(s, q, IsDigit);
      assert AllWhitespace(s[m..q]);
      if q < e then
        assert MatchesAt(s, q, s[q..e]);
        Some(s[q..e])
      else None
    else None
  }

  /** The number the confidence capture at `p` denotes, as `parseInt` reads it. */
  function ConfidenceCaptureAt(s: string, p: nat): (r: Option<nat>)
    ensures r.Some? <==> ConfidenceDigitsAt(s, p).Some?
    ensures r.Some? ==> r.value == DecimalValue(ConfidenceDigitsAt(s, p).value)
  {
    match ConfidenceDigitsAt(s, p)
    case Some(ds) => Some(DecimalValue(ds))
    case None => None
  }

  /** The confidence of a reply: the number at the leftmost confidence match, not clamped,
      or 50 when nothing matches. */
  function ParseConfidence(text: string): (r: nat)
    ensures (forall p | 0 <= p < |text| :: ConfidenceCaptureAt(text, p).None?) ==> r == DefaultConfidence
    ensures forall p | 0 <= p < |text| ::
      ConfidenceCaptureAt(text, p).Some? && (forall q | 0 <= q < p :: ConfidenceCaptureAt(text, q).None?)
      ==> r == ConfidenceCaptureAt(text, p).value
  {
    LeftmostIsFirst(text, ConfidenceCaptureAt);
    match Leftmost(text, 0, ConfidenceCaptureAt)
    case None => DefaultConfidence
    case Some(p) => ConfidenceCaptureAt(text, p).value
  }

  // ---------------------------------------------------------------------------------------
  // Sources

  /** `response.candidates?.[0]?.groundingMetadata?.groundingChunks || []`. */
  function ChunksOf(response: Response): (r: seq<GroundingChunk>)
    ensures r == [] || (
      && response.candidates.Some? && |response.candidates.value| > 0
      && response.candidates.value[0].groundingMetadata.Some?
      && response.candidates.value[0].groundingMetadata.value.groundingChunks == Some(r))
    ensures
      && response.candidates.Some? && |response.candidates.value| > 0
      && response.candidates.value[0].groundingMetadata.Some?
      && response.candidates.value[0].groundingMetadata.value.groundingChunks.Some?
      ==> r == response.candidates.value[0].groundingMetadata.value.groundingChunks.value
  {
    match response.candidates
    case Some(cs) =>
      if |cs| > 0 && cs[0].groundingMetadata.Some? && cs[0].groundingMetadata.value.groundingChunks.Some?
      then cs[0].groundingMetadata.value.groundingChunks.value
      else []
    case None => []
  }

  function ChunkUri(c: GroundingChunk): Option<string> {
    if c.web.Some? then c.web.value.uri else None
  }

  function ChunkTitle(c: GroundingChunk): Option<string> {
    if c.web.Some? then c.web.value.title else None
  }

  /** The source a chunk maps to before filtering: a missing uri becomes the empty string, a
      missing or empty title the placeholder. */
  function ToSource(c: GroundingChunk): (r: GroundingSource)
    ensures r.title != ""
    ensures ChunkUri(c).Some? ==> r.uri == ChunkUri(c).value
    ensures ChunkUri(c).None? ==> r.uri == ""
    ensures ChunkTitle(c).Some? && ChunkTitle(c).value != "" ==> r.title == ChunkTitle(c).value
    ensures ChunkTitle(c).None? || ChunkTitle(c).value == "" ==> r.title == PlaceholderTitle
  {
    GroundingSource(Or(ChunkUri(c), ""), Or(ChunkTitle(c), PlaceholderTitle))
  }

  predicate HasUri(s: GroundingSource) {
    s.uri != ""
  }

  /** A source as the client reports it: a usable uri and a non-empty title. */
  predicate WellFormedSource(s: GroundingSource) {
    s.uri != "" && s.title != ""
  }

  /** The cited sources: every chunk that has a non-empty uri, in citation order, without
      deduplication. */
  function ExtractSources(chunks: seq<GroundingChunk>): (r: seq<GroundingSource>)
    ensures |r| <= |chunks|
    ensures forall k :: 0 <= k < |r| ==> WellFormedSource(r[k])
    ensures forall k :: 0 <= k < |r| ==> exists i :: 0 <= i < |chunks| && r[k] == ToSource(chunks[i])
    ensures forall i :: 0 <= i < |chunks| && HasUri(ToSource(chunks[i])) ==> ToSource(chunks[i]) in r
  {
    var all := Map(chunks, ToSource);
    var r := Filter(all, HasUri);
    assert forall k :: 0 <= k < |r| ==> r[k] in all;
    forall i | 0 <= i < |chunks| && HasUri(ToSource(chunks[i]))
      ensures ToSource(chunks[i]) in r
    {
      assert all[i] == ToSource(chunks[i]);
      FilterMultiset(all, HasUri, all[i]);
    }
    r
  }

  // ---------------------------------------------------------------------------------------
  // verifySignal

  /** `response.text || "Unable to generate analysis."`. */
  function AnalysisText(response: Response): (r: string)
    ensures r != ""
    ensures response.text.Some? && response.text.value != "" ==> r == response.text.value
    ensures response.text.None? || response.text.value == "" ==> r == NoAnalysis
  {
    Or(response.text, NoAnalysis)
  }

  /** A result as the client builds it: a verdict name up to case, and well-formed sources. */
  predicate WellFormedResult(v: VerificationResult) {
    && IsVerdictSpelling(v.verdict)
    && forall k :: 0 <= k < |v.sources| ==> WellFormedSource(v.sources[k])
  }

  /** `verifySignal(query, category)`, given the outcome of its request and the identifier and
      timestamp it would generate. A failed exchange is rethrown; a reply always yields a
      complete result. */
  function VerifySignal(query: string, category: string, exchange: Exchange, id: string, timestamp: string)
    : (r: Result<VerificationResult, VerificationFailure>)
    ensures r.Failure? <==> exchange.TransportFailed?
    ensures r.Success? ==>
      var text := AnalysisText(exchange.response);
      && r.value.id == id && r.value.query == query && r.value.category == category
      && r.value.timestamp == timestamp && r.value.analysis == text
      && r.value.verdict == ParseVerdict(text) && r.value.confidence == ParseConfidence(text)
      && r.value.sources == ExtractSources(ChunksOf(exchange.response))
    ensures r.Success? ==> WellFormedResult(r.value)
  {
    match exchange
    case TransportFailed => Failure(VerificationFailure)
    case Delivered(response) =>
      var text := AnalysisText(response);
      Success(VerificationResult(
        id, query, ParseVerdict(text), ParseConfidence(text), text,
        ExtractSources(ChunksOf(response)), timestamp, category))
  }

  // ---------------------------------------------------------------------------------------
  // Properties of the reply parser

  /** A case-insensitive match fixes each matched letter up to case. */
  lemma MatchedLetter(s: string, q: nat, lit: string, i: nat)
    requires MatchesAtIgnoreCase(s, q, lit) && i < |lit|
    ensures LowerChar(s[q + i]) == LowerChar(lit[i])
  {
    assert ToLower(s[q..q + |lit|])[i] == ToLower(lit)[i];
  }

  /** Both markers end in a colon, which case folding leaves alone, so a text without a
      colon holds neither. */
  lemma NoColonNoMatch(s: string, lit: string)
    requires |lit| > 0 && lit[|lit| - 1] == ':'
    requires ':' !in s
    ensures forall p :: !MatchesAtIgnoreCase(s, p, lit)
  {
    forall p: nat ensures !MatchesAtIgnoreCase(s, p, lit) {
      if p + |lit| <= |s| {
        var last := |lit| - 1;
        var c := s[p + last];
        assert c in s;
        assert ToLower(s[p..p + |lit|])[last] == LowerChar(c) != ':';
        assert ToLower(lit)[last] == ':';
      }
    }
  }

  /** With no reply text, or an empty one, the analysis is the fixed placeholder, and the
      verdict and confidence fall back to `Unconfirmed` and 50. */
  lemma MissingTextDefaults(query: string, category: string, response: Response, id: string, timestamp: string)
    requires response.text.None? || response.text == Some("")
    ensures var r := VerifySignal(query, category, Delivered(response), id, timestamp);
      && r.Success?
      && r.value.analysis == NoAnalysis
      && r.value.verdict == DefaultVerdict
      && r.value.confidence == DefaultConfidence
  {
    assert AnalysisText(response) == NoAnalysis;
    NoColonDefaults(NoAnalysis);
  }

  /** A reply without a colon holds neither marker, so it is read with the defaults. */
  lemma NoColonDefaults(text: string)
    requires ':' !in text
    ensures ParseVerdict(text) == DefaultVerdict
    ensures ParseConfidence(text) == DefaultConfidence
  {
    NoColonNoMatch(text, VerdictMarker);
    NoColonNoMatch(text, ConfidenceMarker);
    forall p | 0 <= p < |text| ensures VerdictCaptureAt(text, p).None? && ConfidenceCaptureAt(text, p).None? {
      assert !MatchesAtIgnoreCase(text, p, VerdictMarker);
      assert !MatchesAtIgnoreCase(text, p, ConfidenceMarker);
    }
  }

  /** A line terminator ending `pre` keeps a literal without line terminators from matching
      across it, so matches before it lie wholly inside `pre`. */
  lemma NoMatchBeforeLine(pre: string, post: string, lit: string)
    requires pre == [] || pre[|pre| - 1] == '\n'
    requires '\n' !in lit
    requires forall p: nat :: p + |lit| <= |pre| ==> !MatchesAtIgnoreCase(pre, p, lit)
    ensures forall p: nat :: p < |pre| ==> !MatchesAtIgnoreCase(pre + post, p, lit)
  {
    var s := pre + post;
    forall p: nat | p < |pre| && MatchesAtIgnoreCase(s, p, lit) ensures false {
      if p + |lit| <= |pre| {
        assert s[p..p + |lit|] == pre[p..p + |lit|];
        assert MatchesAtIgnoreCase(pre, p, lit);
      } else {
        MatchedLetter(s, p, lit, |pre| - 1 - p);
      }
    }
  }

  /** A character that lower-cases to an ASCII letter is not whitespace. */
  lemma LetterIsNotWhitespace(c: char)
    requires 'a' <= LowerChar(c) <= 'z'
    ensures !IsWhitespace(c)
  {
  }

  /** The five verdict names begin with five different letters, even ignoring case. */
  lemma DistinctFirstLetters(a: Verdict, v: Verdict)
    requires a != v
    ensures LowerChar(VerdictName(a)[0]) != LowerChar(VerdictName(v)[0])
  {
  }

  /** The keyword group finds the one alternative spelled at `q` when all others fail. */
  lemma {:induction false} KeywordAtFinds(s: string, q: nat, k: string, v: Verdict, alts: seq<Verdict>)
    requires MatchesAt(s, q, k) && EqualsIgnoreCase(k, VerdictName(v))
    requires v in alts
    requires forall a :: a in alts && a != v ==> !MatchesAtIgnoreCase(s, q, VerdictName(a))
    ensures KeywordAt(s, q, alts) == Some(k)
    decreases |alts|
  {
    var head := alts[0];
    var tail := alts[1..];
    assert alts == [head] + tail;
    if head == v {
      KeywordAtHead(s, q, k, alts);
    } else {
      KeywordAtSkip(s, q, alts);
      assert v in tail;
      forall a | a in tail && a != v ensures !MatchesAtIgnoreCase(s, q, VerdictName(a)) {
        assert a in alts;
      }
      KeywordAtFinds(s, q, k, v, tail);
    }
  }

  /** The keyword group takes its first alternative when that one matches. */
  lemma KeywordAtHead(s: string, q: nat, k: string, alts: seq<Verdict>)
    requires |alts| > 0
    requires MatchesAt(s, q, k) && EqualsIgnoreCase(k, VerdictName(alts[0]))
    ensures KeywordAt(s, q, alts) == Some(k)
  {
    SpelledMatch(s, q, k, VerdictName(alts[0]));
  }

  /** The keyword group moves on to the next alternative when the first one fails. */
  lemma KeywordAtSkip(s: string, q: nat, alts: seq<Verdict>)
    requires |alts| > 0
    requires !MatchesAtIgnoreCase(s, q, VerdictName(alts[0]))
    ensures KeywordAt(s, q, alts) == KeywordAt(s, q, alts[1..])
  {
  }

  /** A text spelling `name` up to case at `q` matches `name` there under the `i` flag, and
      the matched slice is that spelling. */
  lemma SpelledMatch(s: string, q: nat, k: string, name: string)
    requires MatchesAt(s, q, k) && EqualsIgnoreCase(k, name)
    ensures MatchesAtIgnoreCase(s, q, name) && s[q..q + |name|] == k
  {
    assert |k| == |ToLower(k)| == |ToLower(name)| == |name|;
  }

  /** When `k` spells the verdict `v` in any case, the keyword group captures exactly `k`. */
  lemma KeywordAtSpelling(s: string, q: nat, k: string, v: Verdict)
    requires MatchesAt(s, q, k)
    requires EqualsIgnoreCase(k, VerdictName(v))
    ensures KeywordAt(s, q, VerdictAlternatives) == Some(k)
  {
    var name := VerdictName(v);
    assert |k| == |name|;
    assert s[q..q + |k|] == k;
    assert LowerChar(s[q]) == LowerChar(name[0]) by {
      assert ToLower(k)[0] == ToLower(name)[0];
    }
    forall a | a in VerdictAlternatives && a != v
      ensures !MatchesAtIgnoreCase(s, q, VerdictName(a))
    {
      DistinctFirstLetters(a, v);
      if MatchesAtIgnoreCase(s, q, VerdictName(a)) {
        MatchedLetter(s, q, VerdictName(a), 0);
      }
    }
    KeywordAtFinds(s, q, k, v, VerdictAlternatives);
  }

  /** The verdict pattern captures `k` at `p` when the marker, a whitespace run and a
      spelling `k` of a verdict follow each other there. */
  lemma VerdictCaptureOfLine(text: string, p: nat, m: nat, q: nat, k: string, v: Verdict)
    requires m == p + |VerdictMarker| && m <= q <= |text|
    requires MatchesAtIgnoreCase(text, p, VerdictMarker)
    requires forall i :: m <= i < q ==> IsWhitespace(text[i])
    requires MatchesAt(text, q, k) && EqualsIgnoreCase(k, VerdictName(v))
    ensures VerdictCaptureAt(text, p) == Some(k)
  {
    assert LowerChar(k[0]) == LowerChar(VerdictName(v)[0]) by {
      assert ToLower(k)[0] == ToLower(VerdictName(v))[0];
    }
    LetterIsNotWhitespace(k[0]);
    assert text[q] == k[0];
    SpanWhileIs(text, m, IsWhitespace, q);
    KeywordAtSpelling(text, q, k, v);
  }

  /** The pieces of a marker line sit where the line puts them. */
  lemma LineLayout(pre: string, marker: string, ws: string, word: string, rest: string)
    ensures var text := pre + marker + ws + word + rest;
      var m := |pre| + |marker|;
      var q := m + |ws|;
      && text == pre + (marker + ws + word + rest)
      && text[|pre|..m] == marker
      && text[m..q] == ws
      && text[q..q + |word|] == word
      && text[q + |word|..] == rest
  {
  }

  /** The first `VERDICT:` line fixes the verdict: after lines that never mention the marker,
      a marker in any case, any whitespace, and a spelling of a verdict in any case yield that
      spelling, whatever follows it. */
  lemma VerdictOfFirstMarkerLine(pre: string, marker: string, ws: string, k: string, v: Verdict, rest: string)
    requires pre == [] || pre[|pre| - 1] == '\n'
    requires forall p: nat :: p + |VerdictMarker| <= |pre| ==> !MatchesAtIgnoreCase(pre, p, VerdictMarker)
    requires EqualsIgnoreCase(marker, VerdictMarker)
    requires AllWhitespace(ws)
    requires EqualsIgnoreCase(k, VerdictName(v))
    ensures ParseVerdict(pre + marker + ws + k + rest) == k
  {
    var text := pre + marker + ws + k + rest;
    var p := |pre|;
    var m := p + |marker|;
    var q := m + |ws|;
    assert |marker| == |VerdictMarker|;
    LineLayout(pre, marker, ws, k, rest);
    NoMatchBeforeLine(pre, marker + ws + k + rest, VerdictMarker);
    forall i | m <= i < q ensures IsWhitespace(text[i]) {
      assert text[i] == ws[i - m];
    }
    VerdictCaptureOfLine(text, p, m, q, k, v);
    forall i | 0 <= i < p ensures VerdictCaptureAt(text, i).None? {
      assert !MatchesAtIgnoreCase(text, i, VerdictMarker);
    }
  }

  /** The confidence pattern captures the digit run `ds` at `p` when the marker, a
      whitespace run and `ds` follow each other there and no digit comes after `ds`. */
  lemma ConfidenceDigitsOfLine(text: string, p: nat, m: nat, q: nat, e: nat, ds: string)
    requires m == p + |ConfidenceMarker| && m <= q <= |text| && e == q + |ds|
    requires MatchesAtIgnoreCase(text, p, ConfidenceMarker)
    requires forall i :: m <= i < q ==> IsWhitespace(text[i])
    requires |ds| > 0 && AllDigits(ds) && MatchesAt(text, q, ds)
    requires e < |text| ==> !IsDigit(text[e])
    ensures ConfidenceDigitsAt(text, p) == Some(ds)
  {
    assert text[q] == ds[0];
    SpanWhileIs(text, m, IsWhitespace, q);
    forall i | q <= i < e ensures IsDigit(text[i]) {
      assert text[i] == ds[i - q];
    }
    SpanWhileIs(text, q, IsDigit, e);
  }

  /** The first `CONFIDENCE:` line fixes the confidence: after lines that never mention the
      marker, a marker in any case, any whitespace, and a number written in decimal yield that
      number, as long as no further digit follows. */
  lemma ConfidenceOfFirstMarkerLine(pre: string, marker: string, ws: string, n: nat, rest: string)
    requires pre == [] || pre[|pre| - 1] == '\n'
    requires forall p: nat :: p + |ConfidenceMarker| <= |pre| ==> !MatchesAtIgnoreCase(pre, p, ConfidenceMarker)
    requires EqualsIgnoreCase(marker, ConfidenceMarker)
    requires AllWhitespace(ws)
    requires rest == [] || !IsDigit(rest[0])
    ensures ParseConfidence(pre + marker + ws + DecimalString(n) + rest) == n
  {
    var ds := DecimalString(n);
    var text := pre + marker + ws + ds + rest;
    var p := |pre|;
    var m := p + |marker|;
    var q := m + |ws|;
    var e := q + |ds|;
    assert |marker| == |ConfidenceMarker|;
    LineLayout(pre, marker, ws, ds, rest);
    NoMatchBeforeLine(pre, marker + ws + ds + rest, ConfidenceMarker);
    forall i | m <= i < q ensures IsWhitespace(text[i]) {
      assert text[i] == ws[i - m];
    }
    assert e < |text| ==> text[e] == rest[0];
    ConfidenceDigitsOfLine(text, p, m, q, e, ds);
    DecimalRoundTrip(n);
    assert ConfidenceCaptureAt(text, p) == Some(n);
    forall i | 0 <= i < p ensures ConfidenceCaptureAt(text, i).None? {
      assert !MatchesAtIgnoreCase(text, i, ConfidenceMarker);
    }
  }

  /** `VERDICT: False` followed by a line break holds no confidence marker: no `o` follows
      any of its first five letters. */
  lemma NoConfidenceMarkerInVerdictLine()
    ensures forall p: nat :: p + |ConfidenceMarker| <= |"VERDICT: False\n"| ==>
      !MatchesAtIgnoreCase("VERDICT: False\n", p, ConfidenceMarker)
  {
    var pre := "VERDICT: False\n";
    forall p: nat | p + |ConfidenceMarker| <= |pre| && MatchesAtIgnoreCase(pre, p, ConfidenceMarker)
      ensures false
    {
      MatchedLetter(pre, p, ConfidenceMarker, 1);
    }
  }

  /** A reply opening with `VERDICT: False` and then `CONFIDENCE: 73` is read as verdict
      `False` with confidence 73. */
  lemma FalseWithSeventyThree(rest: string)
    ensures ParseVerdict("VERDICT: False\nCONFIDENCE: 73\n" + rest) == "False"
    ensures ParseConfidence("VERDICT: False\nCONFIDENCE: 73\n" + rest) == 73
  {
    FalseFirst(rest);
    SeventyThreeSecond(rest);
  }

  lemma FalseFirst(rest: string)
    ensures ParseVerdict("VERDICT: False\nCONFIDENCE: 73\n" + rest) == "False"
  {
    FalseSpelling();
    var tail := "\nCONFIDENCE: 73\n" + rest;
    assert "VERDICT: False\nCONFIDENCE: 73\n" + rest == [] + VerdictMarker + " " + "False" + tail;
    VerdictOfFirstMarkerLine([], VerdictMarker, " ", "False", False, tail);
  }

  lemma SeventyThreeSecond(rest: string)
    ensures ParseConfidence("VERDICT: False\nCONFIDENCE: 73\n" + rest) == 73
  {
    var text := "VERDICT: False\nCONFIDENCE: 73\n" + rest;
    NoConfidenceMarkerInVerdictLine();
    SeventyThree();
    FalseSpelling();
    var head := "VERDICT: False\n" + ConfidenceMarker + " " + DecimalString(73);
    assert "VERDICT: False\nCONFIDENCE: 73\n" == head + "\n";
    assert text == head + ("\n" + rest);
    ConfidenceOfFirstMarkerLine("VERDICT: False\n", ConfidenceMarker, " ", 73, "\n" + rest);
  }

  lemma SeventyThree()
    ensures DecimalString(73) == "73"
  {
  }

  lemma FalseSpelling()
    ensures EqualsIgnoreCase("False", VerdictName(False))
    ensures EqualsIgnoreCase("false", VerdictName(False))
    ensures AllWhitespace(" ")
  {
    assert ToLower("False") == "false";
    assert ToLower("false") == "false";
  }

  lemma LowerVerdictMarker()
    ensures EqualsIgnoreCase("verdict:", VerdictMarker)
  {
    assert ToLower("verdict:") == "verdict:";
    assert ToLower(VerdictMarker) == "verdict:";
  }

  /** There is no word boundary after the keyword: `VERDICT: Falsehood` reads as `False`. */
  lemma NoWordBoundary()
    ensures ParseVerdict("VERDICT: Falsehood") == "False"
  {
    FalseSpelling();
    assert "VERDICT: Falsehood" == [] + VerdictMarker + " " + "False" + "hood";
    VerdictOfFirstMarkerLine([], VerdictMarker, " ", "False", False, "hood");
  }

  /** The verdict keeps the reply's letter case: `verdict: false` gives `false`, which is not
      the spelling of any verdict in the result type. */
  lemma VerdictCaseKept()
    ensures ParseVerdict("verdict: false") == "false"
    ensures forall v: Verdict :: VerdictName(v) != "false"
  {
    NoVerdictNamedLowerFalse();
    FalseSpelling();
    LowerVerdictMarker();
    assert "verdict: false" == [] + "verdict:" + " " + "false" + [];
    VerdictOfFirstMarkerLine([], "verdict:", " ", "false", False, []);
  }

  lemma NoVerdictNamedLowerFalse()
    ensures forall v: Verdict :: VerdictName(v) != "false"
  {
    assert "False"[0] != "false"[0];
  }

  /** Confidence is not clamped to the documented 0-100: `CONFIDENCE: 250` gives 250. */
  lemma ConfidenceNotClamped()
    ensures ParseConfidence("CONFIDENCE: 250") == 250
  {
    assert DecimalString(250) == "250";
    assert AllWhitespace(" ");
    assert "CONFIDENCE: 250" == [] + ConfidenceMarker + " " + DecimalString(250) + [];
    ConfidenceOfFirstMarkerLine([], ConfidenceMarker, " ", 250, []);
  }

  /** The documented 0-100 range holds whenever the number the reply writes after the
      leftmost marker has at most two digits. */
  lemma ConfidenceWithinPercent(text: string, p: nat)
    requires p < |text| && ConfidenceDigitsAt(text, p).Some?
    requires forall q | 0 <= q < p :: ConfidenceCaptureAt(text, q).None?
    requires |ConfidenceDigitsAt(text, p).value| <= 2
    ensures ParseConfidence(text) < 100
  {
    var ds := ConfidenceDigitsAt(text, p).value;
    assert ConfidenceCaptureAt(text, p) == Some(DecimalValue(ds));
    assert ParseConfidence(text) == DecimalValue(ds);
    DecimalValueBound(ds);
    assert Pow10(2) == 100;
    if |ds| == 1 { assert Pow10(1) == 10; }
  }

  /** Without grounding metadata there are no sources. */
  lemma NoMetadataNoSources(response: Response)
    requires || response.candidates.None?
             || response.candidates == Some([])
             || response.candidates.value[0].groundingMetadata.None?
             || response.candidates.value[0].groundingMetadata.value.groundingChunks.None?
    ensures ExtractSources(ChunksOf(response)) == []
  {
  }

  /** Sources follow citation order: they are a subsequence of the mapped chunks. */
  lemma SourcesInCitationOrder(chunks: seq<GroundingChunk>)
    ensures IsSubsequence(ExtractSources(chunks), Map(chunks, ToSource))
  {
    FilterIsSubsequence(Map(chunks, ToSource), HasUri);
  }

  /** A chunk without a usable uri disappears and the sources on either side of it keep
      their order. */
  lemma UnusableChunkDropped(before: seq<GroundingChunk>, c: GroundingChunk, after: seq<GroundingChunk>)
    requires !HasUri(ToSource(c))
    ensures ExtractSources(before + [c] + after) == ExtractSources(before) + ExtractSources(after)
  {
    var all := Map(before + [c] + after, ToSource);
    assert all == Map(before, ToSource) + [ToSource(c)] + Map(after, ToSource);
    FilterAppend(Map(before, ToSource) + [ToSource(c)], Map(after, ToSource), HasUri);
    FilterAppend(Map(before, ToSource), [ToSource(c)], HasUri);
  }

  /** Sources are not deduplicated: when every chunk has a uri, each yields its own source,
      repeated citations included. */
  lemma EveryCitedChunkKept(chunks: seq<GroundingChunk>)
    requires forall i :: 0 <= i < |chunks| ==> HasUri(ToSource(chunks[i]))
    ensures ExtractSources(chunks) == Map(chunks, ToSource)
  {
    FilterAllKept(Map(chunks, ToSource), HasUri);
  }

  // ---------------------------------------------------------------------------------------
  // getTrendingSignals

  /** The marker class `[-*â€¢]` of the bullet-stripping pattern as the source spells it:
      hyphen, asterisk, and the three characters U+00E2, U+20AC and U+00A2 that the UTF-8
      bytes of a bullet read as in Windows-1252. */
  const WrittenMarkers: set<char> := {'-', '*', '\U{00E2}', '\U{20AC}', '\U{00A2}'}

  /** The class the pattern was evidently meant to have: hyphen, asterisk and U+2022. */
  const IntendedMarkers: set<char> := {'-', '*', '\U{2022}'}

  const MaxTrends: nat := 5

  /** The topics shown when the request fails or its reply has no text. */
  const TrendFallback: seq<string> := [
    "AI Regulation updates", "Semiconductor market shifts", "Space exploration milestones",
    "Global climate policy", "Cybersecurity breakthroughs"]

  /** Removing the pattern `^[markers]\s*` from a line: one leading marker and the whitespace
      after it. */
  function StripMarker(markers: set<char>, line: string): (r: string)
    ensures |r| <= |line| && r == line[|line| - |r|..]
    ensures (line == [] || line[0] !in markers) ==> r == line
    ensures line != [] && line[0] in markers ==>
      && |r| < |line|
      && AllWhitespace(line[1..|line| - |r|])
      && (r != [] ==> !IsWhitespace(r[0]))
  {
    if line != [] && line[0] in markers then
      var j := SpanWhile(line, 1, IsWhitespace);
      assert AllWhitespace(line[1..j]);
      line[j..]
    else line
  }

  /** One line of the reply as a candidate topic. */
  function CleanTrendLine(markers: set<char>, line: string): string {
    Trim(StripMarker(markers, line))
  }

  /** The length filter: strictly between 5 and 100 characters (JavaScript counts UTF-16 code
      units, which is the same inside the Basic Multilingual Plane). */
  predicate KeepTrend(line: string) {
    5 < |line| < 100
  }

  /** A phrase as the trend list delivers it: one line of an accepted length with no
      whitespace at either end, which is to say its own trim (`PhraseIsTrimmed`). */
  predicate IsTrendPhrase(t: string) {
    KeepTrend(t) && '\n' !in t && !IsWhitespace(t[0]) && !IsWhitespace(t[|t| - 1])
  }

  lemma PhraseIsTrimmed(t: string)
    requires IsTrendPhrase(t)
    ensures Trim(t) == t
  {
    TrimOfTrimmed(t);
  }

  /** `CleanTrendLine` for one marker class, as a value to map with. */
  function Cleaner(markers: set<char>): string -> string {
    line => CleanTrendLine(markers, line)
  }

  /** Each line cleaned in turn. */
  function CleanAll(markers: set<char>, lines: seq<string>): (r: seq<string>)
    ensures |r| == |lines|
    ensures forall k :: 0 <= k < |lines| ==> r[k] == CleanTrendLine(markers, lines[k])
  {
    Map(lines, Cleaner(markers))
  }

  /** The candidate topics of a reply, one per line. */
  function CleanedLines(markers: set<char>, text: string): seq<string> {
    CleanAll(markers, Split(text, '\n'))
  }

  /** Slicing never introduces a character. */
  lemma SliceKeepsAbsence(s: string, i: nat, j: nat, c: char)
    requires i <= j <= |s| && c !in s
    ensures c !in s[i..j]
  {
  }

  /** Every cleaned line is trimmed and holds no line break. */
  lemma CleanedLinesAreLines(markers: set<char>, text: string)
    ensures forall t :: t in CleanedLines(markers, text) ==> '\n' !in t && Trim(t) == t
  {
    var parts := Split(text, '\n');
    forall k | 0 <= k < |parts|
      ensures '\n' !in CleanTrendLine(markers, parts[k]) && Trim(CleanTrendLine(markers, parts[k])) == CleanTrendLine(markers, parts[k])
    {
      var line := parts[k];
      var stripped := StripMarker(markers, line);
      SliceKeepsAbsence(line, |line| - |stripped|, |line|, '\n');
      var t := Trim(stripped);
      var i, j :| 0 <= i <= j <= |stripped| && t == stripped[i..j];
      SliceKeepsAbsence(stripped, i, j, '\n');
      TrimIdempotent(stripped);
    }
  }

  /** Lines that are trimmed and unbroken become phrases once the length filter passes them. */
  lemma KeptLinesArePhrases(cleaned: seq<string>)
    requires forall t :: t in cleaned ==> '\n' !in t && Trim(t) == t
    ensures forall k :: 0 <= k < |Take(Filter(cleaned, KeepTrend), MaxTrends)| ==>
      IsTrendPhrase(Take(Filter(cleaned, KeepTrend), MaxTrends)[k])
  {
    var kept := Filter(cleaned, KeepTrend);
    assert forall k :: 0 <= k < |Take(kept, MaxTrends)| ==> Take(kept, MaxTrends)[k] == kept[k] && kept[k] in kept;
  }

  /** The topics of a reply text: the cleaned lines that pass the length filter, first five. */
  function TrendsFromText(markers: set<char>, text: string): (r: seq<string>)
    ensures |r| <= MaxTrends
    ensures forall k :: 0 <= k < |r| ==> IsTrendPhrase(r[k])
    ensures |r| == Min(MaxTrends, |Filter(CleanedLines(markers, text), KeepTrend)|)
    ensures r <= Filter(CleanedLines(markers, text), KeepTrend)
  {
    var cleaned := CleanedLines(markers, text);
    CleanedLinesAreLines(markers, text);
    KeptLinesArePhrases(cleaned);
    Take(Filter(cleaned, KeepTrend), MaxTrends)
  }

  /** The fallback topics are themselves well-formed trend phrases. */
  lemma FallbackIsWellFormed()
    ensures |TrendFallback| == MaxTrends
    ensures forall k :: 0 <= k < |TrendFallback| ==> IsTrendPhrase(TrendFallback[k])
  {
    forall k | 0 <= k < |TrendFallback| ensures IsTrendPhrase(TrendFallback[k]) {
      if k < 2 {
        FallbackHead(k);
      } else if k < 4 {
        FallbackMiddle(k);
      } else {
        FallbackLast();
      }
    }
  }

  // The fallback list is checked a few entries at a time.

  lemma FallbackHead(k: nat)
    requires k < 2
    ensures IsTrendPhrase(TrendFallback[k])
  {
  }

  lemma FallbackMiddle(k: nat)
    requires 2 <= k < 4
    ensures IsTrendPhrase(TrendFallback[k])
  {
  }

  lemma FallbackLast()
    ensures IsTrendPhrase(TrendFallback[4])
  {
  }

  /** `getTrendingSignals()` given the outcome of its request, as written. It never throws:
      a failed exchange, or a reply whose text is missing (so that `split` throws), yields
      the fixed fallback. */
  function GetTrendingSignals(exchange: Exchange): (r: seq<string>)
    ensures |r| <= MaxTrends
    ensures forall k :: 0 <= k < |r| ==> IsTrendPhrase(r[k])
    ensures exchange.TransportFailed? || exchange.response.text.None? ==> r == TrendFallback
    ensures exchange.Delivered? && exchange.response.text.Some? ==>
      r == TrendsFromText(WrittenMarkers, exchange.response.text.value)
  {
    FallbackIsWellFormed();
    match exchange
    case TransportFailed => TrendFallback
    case Delivered(response) =>
      match response.text
      case None => TrendFallback
      case Some(text) => TrendsFromText(WrittenMarkers, text)
  }

  /** The same call with the bullet class it was evidently meant to have. */
  function IntendedTrendingSignals(exchange: Exchange): (r: seq<string>)
    ensures |r| <= MaxTrends
    ensures forall k :: 0 <= k < |r| ==> IsTrendPhrase(r[k])
    ensures exchange.TransportFailed? || exchange.response.text.None? ==> r == TrendFallback
    ensures exchange.Delivered? && exchange.response.text.Some? ==>
      r == TrendsFromText(IntendedMarkers, exchange.response.text.value)
  {
    FallbackIsWellFormed();
    match exchange
    case TransportFailed => TrendFallback
    case Delivered(response) =>
      match response.text
      case None => TrendFallback
      case Some(text) => TrendsFromText(IntendedMarkers, text)
  }

  /** An empty reply text is not a failure: it splits into one empty line, which the length
      filter drops, so the list is empty rather than the fallback. */
  lemma EmptyTextNoTrends(markers: set<char>)
    ensures TrendsFromText(markers, "") == []
  {
    assert Split("", '\n') == [""];
    assert CleanedLines(markers, "") == [CleanTrendLine(markers, "")];
  }

  /** Each topic behind `marker` and a space. */
  function BulletLines(marker: char, topics: seq<string>): (r: seq<string>)
    ensures |r| == |topics|
    ensures forall k :: 0 <= k < |r| ==> r[k] == [marker, ' '] + topics[k]
  {
    seq(|topics|, k requires 0 <= k < |topics| => [marker, ' '] + topics[k])
  }

  /** A bulleted list: each topic on its own line, behind `marker` and a space. */
  function BulletList(marker: char, topics: seq<string>): string {
    Join(BulletLines(marker, topics), '\n')
  }

  /** A topic behind a recognised marker and a space cleans back to the topic. */
  lemma BulletLineCleans(markers: set<char>, marker: char, t: string)
    requires marker in markers
    requires IsTrendPhrase(t)
    ensures CleanTrendLine(markers, [marker, ' '] + t) == t
  {
    var line := [marker, ' '] + t;
    assert line[2] == t[0];
    SpanWhileIs(line, 1, IsWhitespace, 2);
    assert line[2..] == t;
    PhraseIsTrimmed(t);
  }

  /** Cleaning the lines of a joined text cleans each line in turn. */
  lemma CleanedJoin(markers: set<char>, lines: seq<string>)
    requires |lines| > 0
    requires forall k :: 0 <= k < |lines| ==> '\n' !in lines[k]
    ensures CleanedLines(markers, Join(lines, '\n')) == CleanAll(markers, lines)
  {
    SplitJoin(lines, '\n');
  }

  /** The lines of a bulleted list hold no line break. */
  lemma BulletLinesUnbroken(marker: char, topics: seq<string>)
    requires marker != '\n'
    requires forall k :: 0 <= k < |topics| ==> IsTrendPhrase(topics[k])
    ensures forall k :: 0 <= k < |topics| ==> '\n' !in BulletLines(marker, topics)[k]
  {
    var lines := BulletLines(marker, topics);
    forall k | 0 <= k < |topics| ensures '\n' !in lines[k] {
      assert lines[k] == [marker, ' '] + topics[k];
    }
  }

  /** Each line of a bulleted list cleans back to its topic. */
  lemma CleanedBulletList(markers: set<char>, marker: char, topics: seq<string>)
    requires marker in markers && marker != '\n'
    requires |topics| > 0
    requires forall k :: 0 <= k < |topics| ==> IsTrendPhrase(topics[k])
    ensures CleanedLines(markers, BulletList(marker, topics)) == topics
  {
    var lines := BulletLines(marker, topics);
    BulletLinesUnbroken(marker, topics);
    CleanedJoin(markers, lines);
    var cleaned := CleanedLines(markers, BulletList(marker, topics));
    forall k | 0 <= k < |topics| ensures cleaned[k] == topics[k] {
      assert cleaned[k] == CleanTrendLine(markers, lines[k]);
      BulletLineCleans(markers, marker, topics[k]);
    }
  }

  /** Round trip: a bulleted list of well-formed topics, with any bullet the class
      recognises, reads back as its first five topics in order. */
  lemma TrendsOfBulletList(markers: set<char>, marker: char, topics: seq<string>)
    requires marker in markers && marker != '\n'
    requires forall k :: 0 <= k < |topics| ==> IsTrendPhrase(topics[k])
    ensures TrendsFromText(markers, BulletList(marker, topics)) == Take(topics, MaxTrends)
  {
    if |topics| == 0 {
      EmptyTextNoTrends(markers);
    } else {
      CleanedBulletList(markers, marker, topics);
      FilterAllKept(topics, KeepTrend);
    }
  }

  /** A line the length filter rejects, between two bulleted lists, is dropped: the topics on
      either side come back in order, the first five of them. */
  lemma RejectedLineDropped(markers: set<char>, marker: char, before: seq<string>, line: string, after: seq<string>)
    requires marker in markers && marker != '\n'
    requires |before| > 0 && |after| > 0
    requires forall k :: 0 <= k < |before| ==> IsTrendPhrase(before[k])
    requires forall k :: 0 <= k < |after| ==> IsTrendPhrase(after[k])
    requires '\n' !in line && !KeepTrend(CleanTrendLine(markers, line))
    ensures TrendsFromText(markers, BulletList(marker, before) + "\n" + line + "\n" + BulletList(marker, after))
         == Take(before + after, MaxTrends)
  {
    CleanedAround(markers, marker, before, line, after);
    FilterDropsOne(before, CleanTrendLine(markers, line), after, KeepTrend);
  }

  /** The lines of two bulleted lists around one more line clean to the topics around the
      cleaned line. */
  lemma CleanedAround(markers: set<char>, marker: char, before: seq<string>, line: string, after: seq<string>)
    requires marker in markers && marker != '\n'
    requires |before| > 0 && |after| > 0
    requires forall k :: 0 <= k < |before| ==> IsTrendPhrase(before[k])
    requires forall k :: 0 <= k < |after| ==> IsTrendPhrase(after[k])
    requires '\n' !in line
    ensures CleanedLines(markers, BulletList(marker, before) + "\n" + line + "\n" + BulletList(marker, after))
         == before + [CleanTrendLine(markers, line)] + after
  {
    BulletLinesUnbroken(marker, before);
    BulletLinesUnbroken(marker, after);
    CleanedLinesAround(markers, BulletLines(marker, before), line, BulletLines(marker, after));
    CleanedBulletList(markers, marker, before);
    CleanedBulletList(markers, marker, after);
  }

  /** Cleaning the lines of a text made of two blocks of lines around one more line cleans
      each block and that line on their own. */
  lemma CleanedLinesAround(markers: set<char>, a: seq<string>, m: string, b: seq<string>)
    requires |a| > 0 && |b| > 0
    requires forall k :: 0 <= k < |a| ==> '\n' !in a[k]
    requires forall k :: 0 <= k < |b| ==> '\n' !in b[k]
    requires '\n' !in m
    ensures CleanedLines(markers, Join(a, '\n') + "\n" + m + "\n" + Join(b, '\n'))
         == CleanedLines(markers, Join(a, '\n')) + [CleanTrendLine(markers, m)] + CleanedLines(markers, Join(b, '\n'))
  {
    JoinAround(a, m, b, '\n');
    UnbrokenAround(a, m, b);
    CleanedJoin(markers, a + [m] + b);
    CleanedJoin(markers, a);
    CleanedJoin(markers, b);
    CleanAllAround(markers, a, m, b);
  }

  lemma UnbrokenAround(a: seq<string>, m: string, b: seq<string>)
    requires forall k :: 0 <= k < |a| ==> '\n' !in a[k]
    requires forall k :: 0 <= k < |b| ==> '\n' !in b[k]
    requires '\n' !in m
    ensures forall k :: 0 <= k < |a + [m] + b| ==> '\n' !in (a + [m] + b)[k]
  {
    var lines := a + [m] + b;
    var n := |a|;
    forall k | 0 <= k < |lines| ensures '\n' !in lines[k] {
      if k < n {
        assert lines[k] == a[k];
      } else if k > n {
        assert lines[k] == b[k - n - 1];
      }
    }
  }

  lemma CleanAllAround(markers: set<char>, a: seq<string>, m: string, b: seq<string>)
    ensures CleanAll(markers, a + [m] + b) == CleanAll(markers, a) + [CleanTrendLine(markers, m)] + CleanAll(markers, b)
  {
    MapAround(a, m, b, Cleaner(markers));
  }

  const Bullet: char := '\U{2022}'

  /** As written, a line bulleted with U+2022 keeps its bullet: the marker class holds the
      three mis-decoded characters instead, so only the surrounding whitespace goes. */
  lemma WrittenMarkersKeepBullet(t: string)
    requires IsTrendPhrase(t)
    ensures CleanTrendLine(WrittenMarkers, [Bullet, ' '] + t) == [Bullet, ' '] + t
  {
    var line := [Bullet, ' '] + t;
    assert Bullet !in WrittenMarkers;
    assert line[|line| - 1] == t[|t| - 1];
    TrimOfTrimmed(line);
  }

  /** With the intended class a U+2022 bullet is stripped like the others. */
  lemma IntendedMarkersStripBullet(t: string)
    requires IsTrendPhrase(t)
    ensures CleanTrendLine(IntendedMarkers, [Bullet, ' '] + t) == t
  {
    BulletLineCleans(IntendedMarkers, Bullet, t);
  }

  /** The line does not start with a character only one of the two classes holds. */
  predicate ReadAlike(line: string) {
    line == [] || (line[0] in WrittenMarkers <==> line[0] in IntendedMarkers)
  }

  /** The written and the corrected class read a reply alike unless one of its lines starts
      with a character only one of them holds (`•`, or one of the three mis-decoded ones). */
  lemma ClassesAgreeWithoutOddBullets(text: string)
    requires forall k :: 0 <= k < |Split(text, '\n')| ==> ReadAlike(Split(text, '\n')[k])
    ensures TrendsFromText(WrittenMarkers, text) == TrendsFromText(IntendedMarkers, text)
  {
    var parts := Split(text, '\n');
    var w := CleanedLines(WrittenMarkers, text);
    var i := CleanedLines(IntendedMarkers, text);
    forall k | 0 <= k < |parts| ensures w[k] == i[k] {
      StripAlike(parts[k]);
    }
    assert w == i;
  }

  lemma StripAlike(line: string)
    requires ReadAlike(line)
    ensures StripMarker(WrittenMarkers, line) == StripMarker(IntendedMarkers, line)
  {
  }

  /** As written, a list bulleted with U+2022 comes back with every bullet still in place. */
  lemma BulletListAsWritten(topics: seq<string>)
    requires forall k :: 0 <= k < |topics| ==> IsTrendPhrase(topics[k]) && |topics[k]| < 98
    ensures TrendsFromText(WrittenMarkers, BulletList(Bullet, topics))
         == Take(BulletLines(Bullet, topics), MaxTrends)
  {
    if |topics| == 0 {
      EmptyTextNoTrends(WrittenMarkers);
    } else {
      var lines := BulletLines(Bullet, topics);
      BulletLinesUnbroken(Bullet, topics);
      CleanedJoin(WrittenMarkers, lines);
      var cleaned := CleanedLines(WrittenMarkers, BulletList(Bullet, topics));
      forall k | 0 <= k < |topics| ensures cleaned[k] == lines[k] && KeepTrend(lines[k]) {
        assert cleaned[k] == CleanTrendLine(WrittenMarkers, lines[k]);
        WrittenMarkersKeepBullet(topics[k]);
      }
      assert cleaned == lines;
      FilterAllKept(lines, KeepTrend);
    }
  }

  /** The bulleted topic `Topic C` reads back as `• Topic C` as written, and as `Topic C`
      with the intended class. */
  lemma BulletedTopicC()
    ensures TrendsFromText(WrittenMarkers, BulletList(Bullet, ["Topic C"])) == [[Bullet, ' '] + "Topic C"]
    ensures TrendsFromText(IntendedMarkers, BulletList(Bullet, ["Topic C"])) == ["Topic C"]
  {
    assert IsTrendPhrase("Topic C");
    BulletListAsWritten(["Topic C"]);
    assert BulletLines(Bullet, ["Topic C"]) == [[Bullet, ' '] + "Topic C"];
    TrendsOfBulletList(IntendedMarkers, Bullet, ["Topic C"]);
  }
}
