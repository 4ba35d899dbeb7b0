/** The records and enumerations the dashboard passes around. Identifiers and timestamps are
    opaque strings supplied by the caller. */
module Types {
  import opened Text

  /** The five assessments a verification can carry. */
  datatype Verdict = True | Misleading | False | Unconfirmed | Developing

  /** The spelling of each verdict in the result type. */
  function VerdictName(v: Verdict): string {
    match v
    case True => "True"
    case Misleading => "Misleading"
    case False => "False"
    case Unconfirmed => "Unconfirmed"
    case Developing => "Developing"
  }

  const AllVerdicts: seq<Verdict> := [True, Misleading, False, Unconfirmed, Developing]

  /** There are exactly five verdicts, with five different spellings that stay different
      even ignoring case. */
  lemma VerdictsAreFive()
    ensures forall v: Verdict :: v in AllVerdicts
    ensures |AllVerdicts| == 5
    ensures forall i, j :: 0 <= i < j < 5 ==>
      !EqualsIgnoreCase(VerdictName(AllVerdicts[i]), VerdictName(AllVerdicts[j]))
  {
    forall v: Verdict ensures v in AllVerdicts {
      match v
      case True => assert v == AllVerdicts[0];
      case Misleading => assert v == AllVerdicts[1];
      case False => assert v == AllVerdicts[2];
      case Unconfirmed => assert v == AllVerdicts[3];
      case Developing => assert v == AllVerdicts[4];
    }
    assert ToLower("True") == "true";
    assert ToLower("Misleading") == "misleading";
    assert ToLower("False") == "false";
    assert ToLower("Unconfirmed") == "unconfirmed";
    assert ToLower("Developing") == "developing";
  }

  /** A verdict string as the parser produces it: one of the five names in any letter case. */
  predicate IsVerdictSpelling(s: string) {
    exists v: Verdict :: EqualsIgnoreCase(s, VerdictName(v))
  }

  /** A cited web page. */
  datatype GroundingSource = GroundingSource(uri: string, title: string)

  /** One verification. `verdict` keeps the letter case the service's text used, so it is a
      verdict name only up to case. */
  datatype VerificationResult = VerificationResult(
    id: string,
    query: string,
    verdict: string,
    confidence: nat,
    analysis: string,
    sources: seq<GroundingSource>,
    timestamp: string,
    category: string)

  datatype WatchStatus = Monitoring | Idle

  /** A watched topic; `status` is a display badge only. */
  datatype WatchTopic = WatchTopic(id: string, topic: string, lastUpdated: string, status: WatchStatus)

  /** The four screens of the dashboard. */
  datatype AppView = Dashboard | Verify | Watchlist | History

  /** Watch statuses and views are exactly the two and the four the interface names. */
  lemma EnumerationsAreComplete()
    ensures forall w: WatchStatus :: w in [Monitoring, Idle]
    ensures forall a: AppView :: a in [Dashboard, Verify, Watchlist, History]
  {
    forall w: WatchStatus ensures w in [Monitoring, Idle] {
      match w
      case Monitoring => assert w == [Monitoring, Idle][0];
      case Idle => assert w == [Monitoring, Idle][1];
    }
    forall a: AppView ensures a in [Dashboard, Verify, Watchlist, History] {
      var views := [Dashboard, Verify, Watchlist, History];
      match a
      case Dashboard => assert a == views[0];
      case Verify => assert a == views[1];
      case Watchlist => assert a == views[2];
      case History => assert a == views[3];
    }
  }
}
