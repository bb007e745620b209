/** The stand-in AI service: two fixed-record stubs and the lowest-price
    comparison rule. */
module AIService {
  import opened Common
  import opened Models

  /** One requested item of a drafted RFP. */
  datatype RfpItem = RfpItem(name: string, quantity: int, specs: string)

  /** A drafted RFP. */
  datatype RfpDraft = RfpDraft(
    title: string,
    rawInput: string,
    budget: int,
    items: seq<RfpItem>,
    deliveryDays: int,
    paymentTerms: string,
    warranty: string)

  /** The draft every request gets, apart from the echoed text. */
  const StubDraft := RfpDraft(
    "Auto-generated RFP", "", 50000,
    [RfpItem("Laptop", 20, "16GB RAM"), RfpItem("Monitor", 15, "27-inch")],
    30, "Net 30", "1 year")

  /** `generateRfpFromText`: the buyer's text comes back as `raw_input`; every other field is fixed. */
  function GenerateRfpFromText(text: string): (r: RfpDraft)
    ensures r.rawInput == text
    ensures r.(rawInput := "") == StubDraft
  {
    StubDraft.(rawInput := text)
  }

  /** The record every reply is parsed to. */
  const StubParsed := Parsed(Some(35000), Some(20), Some("1 year"), Some([]), Some("Stub parsed proposal"), None)

  /** `parseProposalFromEmail`: the same record for every reply text. */
  function ParseProposalFromEmail(emailBody: string): (r: Parsed)
    ensures r.summary == Some("Stub parsed proposal")
    ensures r.totalPrice == Some(35000) && r.deliveryDays == Some(20)
    ensures r.warranty == Some("1 year") && r.lineItems == Some([]) && r.raw.None?
  {
    StubParsed
  }

  // ---------------------------------------------------------------------------
  // compareProposals

  datatype Recommendation = Recommendation(vendorId: Option<Id>, reason: string)
  datatype Score = Score(vendorId: Option<Id>, score: int)
  datatype Comparison = Comparison(summary: string, recommendation: Option<Recommendation>, scores: seq<Score>)

  /** `p.parsed?.total_price < q.parsed?.total_price`: false whenever either price is missing. */
  predicate Cheaper(p: Proposal, q: Proposal) {
    Price(p).Some? && Price(q).Some? && Price(p).value < Price(q).value
  }

  /** Index `b` is the proposal the comparison loop ends on: the first proposal when it has
      no price (nothing can displace it); otherwise a priced proposal whose price is the
      lowest of all priced proposals, and the first one with that price. */
  predicate IsLowestPriceChoice(ps: seq<Proposal>, b: int) {
    ChoiceAmong(ps, |ps|, b)
  }

  /** `IsLowestPriceChoice` for the first `n` proposals. */
  predicate ChoiceAmong(ps: seq<Proposal>, n: nat, b: int)
    requires n <= |ps|
  {
    0 <= b < n
    && (Price(ps[0]).None? ==> b == 0)
    && (Price(ps[0]).Some? ==>
          Price(ps[b]).Some?
          && (forall j :: 0 <= j < n && Price(ps[j]).Some? ==> Price(ps[b]).value <= Price(ps[j]).value)
          && (forall j :: 0 <= j < b && Price(ps[j]).Some? ==> Price(ps[b]).value < Price(ps[j]).value))
  }

  /** One round of the comparison loop keeps its choice the lowest-price choice so far. */
  lemma ChoiceStep(ps: seq<Proposal>, n: nat, b: int)
    requires n < |ps| && ChoiceAmong(ps, n, b)
    ensures ChoiceAmong(ps, n + 1, if Cheaper(ps[n], ps[b]) then n else b)
  {
  }

  /** At most one index is the lowest-price choice, so the recommendation is determined. */
  lemma LowestPriceChoiceUnique(ps: seq<Proposal>, b1: int, b2: int)
    requires IsLowestPriceChoice(ps, b1) && IsLowestPriceChoice(ps, b2)
    ensures b1 == b2
  {
  }

  /** When every proposal carries a price, the recommended one is never beaten on price,
      and every proposal before it is strictly dearer. */
  lemma AllPricedChoiceIsMinimum(ps: seq<Proposal>, b: int)
    requires forall j :: 0 <= j < |ps| ==> Price(ps[j]).Some?
    requires IsLowestPriceChoice(ps, b)
    ensures forall j :: 0 <= j < |ps| ==> !Cheaper(ps[j], ps[b])
    ensures forall j :: 0 <= j < b ==> Cheaper(ps[b], ps[j])
  {
  }

  /** `compareProposals`: keeps the first proposal and replaces it only by a strictly
      cheaper one; recommends its vendor; scores every proposal 50. */
  method CompareProposals(rfp: Rfp, ps: seq<Proposal>) returns (r: Comparison)
    ensures r.summary == "Temporary comparison logic"
    ensures r.recommendation.None? <==> |ps| == 0
    ensures r.recommendation.Some? ==>
      exists b :: IsLowestPriceChoice(ps, b)
        && r.recommendation.value == Recommendation(ps[b].vendorId, "Lowest price (stub)")
    ensures |r.scores| == |ps|
    ensures forall k :: 0 <= k < |ps| ==> r.scores[k] == Score(ps[k].vendorId, 50)
  {
    var best: Option<nat> := None;
    var i := 0;
    while i < |ps|
      invariant 0 <= i <= |ps|
      invariant best.None? <==> i == 0
      invariant best.Some? ==> ChoiceAmong(ps, i, best.value)
    {
      if best.Some? {
        ChoiceStep(ps, i, best.value);
      }
      if best.None? || Cheaper(ps[i], ps[best.value]) {
        best := Some(i);
      }
      i := i + 1;
    }
    var scores := seq(|ps|, k requires 0 <= k < |ps| => Score(ps[k].vendorId, 50));
    var recommendation := if best.Some? then Some(Recommendation(ps[best.value].vendorId, "Lowest price (stub)")) else None;
    r := Comparison("Temporary comparison logic", recommendation, scores);
  }
}
