/** `simulateVendorResponse`: the HTTP handler that feeds a vendor's reply text to a
    stored proposal by hand, without going through the mailbox. */
module EmailController {
  import opened Common
  import opened Models
  import AIService

  /** The handler's replies: 400 and 404 with an error text, 200 with the updated
      proposal, 500 when something threw (here: the save was rejected). */
  datatype Response =
    | BadRequest(error: string)
    | NotFound(error: string)
    | Ok(message: string, proposal: Proposal)
    | ServerError

  /** The HTTP status each reply is sent with. */
  function StatusCode(r: Response): (code: int)
    ensures code == 200 <==> r.Ok?
    ensures code == 400 <==> r.BadRequest?
    ensures code == 404 <==> r.NotFound?
    ensures code == 500 <==> r.ServerError?
  {
    match r
    case BadRequest(_) => 400
    case NotFound(_) => 404
    case Ok(_, _) => 200
    case ServerError => 500
  }

  /** `!rfpId || !vendorId || !emailBody` fails for all three request fields. */
  predicate FieldsPresent(rfpId: Option<string>, vendorId: Option<string>, emailBody: Option<string>) {
    Truthy(rfpId) && Truthy(vendorId) && Truthy(emailBody)
  }

  /** The proposals after the request and the reply sent. `saveFails` stands for the
      database refusing `proposal.save()`, which the handler reports as 500. */
  function SimulateEffect(ps: seq<Proposal>, rfpId: Option<string>, vendorId: Option<string>,
                          emailBody: Option<string>, now: Time, saveFails: bool): (seq<Proposal>, Response)
  {
    if !FieldsPresent(rfpId, vendorId, emailBody) then
      (ps, BadRequest("rfpId, vendorId, and emailBody are required"))
    else match FindFirst(ps, ProposalFor(rfpId.value, vendorId.value))
      case None => (ps, NotFound("Proposal not found"))
      case Some(k) =>
        var q := ReceiveReply(ps[k], emailBody.value, AIService.ParseProposalFromEmail(emailBody.value), now);
        if saveFails then (ps, ServerError)
        else (ps[k := q], Ok("Proposal received and parsed", q))
  }

  /** A missing or empty field is answered with 400, and nothing is stored. */
  lemma SimulateValidates(ps: seq<Proposal>, rfpId: Option<string>, vendorId: Option<string>,
                          emailBody: Option<string>, now: Time, saveFails: bool)
    ensures var (qs, res) := SimulateEffect(ps, rfpId, vendorId, emailBody, now, saveFails);
      (StatusCode(res) == 400 <==> !Truthy(rfpId) || !Truthy(vendorId) || !Truthy(emailBody))
      && (res.BadRequest? ==> qs == ps && res.error == "rfpId, vendorId, and emailBody are required")
  {
  }

  /** With all fields present, 404 is sent exactly when no proposal has that RFP and that
      vendor, and nothing is stored. */
  lemma SimulateNotFound(ps: seq<Proposal>, rfpId: Option<string>, vendorId: Option<string>,
                         emailBody: Option<string>, now: Time, saveFails: bool)
    requires FieldsPresent(rfpId, vendorId, emailBody)
    ensures var (qs, res) := SimulateEffect(ps, rfpId, vendorId, emailBody, now, saveFails);
      (StatusCode(res) == 404 <==> forall j :: 0 <= j < |ps| ==> !(ps[j].rfpId == rfpId && ps[j].vendorId == vendorId))
      && (res.NotFound? ==> qs == ps && res.error == "Proposal not found")
  {
  }

  /** On success the first proposal with that RFP and vendor, and no other, receives the
      reply: status `received`, the body as `raw_email`, the stub parse and its summary,
      the time of receipt; the response carries the updated proposal. */
  lemma SimulateUpdatesMatch(ps: seq<Proposal>, rfpId: Option<string>, vendorId: Option<string>,
                             emailBody: Option<string>, now: Time, k: int)
    requires FieldsPresent(rfpId, vendorId, emailBody)
    requires 0 <= k < |ps| && ps[k].rfpId == rfpId && ps[k].vendorId == vendorId
    requires forall j :: 0 <= j < k ==> !(ps[j].rfpId == rfpId && ps[j].vendorId == vendorId)
    ensures var (qs, res) := SimulateEffect(ps, rfpId, vendorId, emailBody, now, false);
      res.Ok? && res.message == "Proposal received and parsed" && res.proposal == qs[k]
      && |qs| == |ps| && (forall j :: 0 <= j < |ps| && j != k ==> qs[j] == ps[j])
      && SameDocument(ps[k], qs[k]) && qs[k].status == Received
      && qs[k].rawEmail == emailBody && qs[k].aiSummary == Some("Stub parsed proposal")
      && qs[k].parsed == Some(AIService.ParseProposalFromEmail(emailBody.value))
      && qs[k].receivedAt == Some(now)
  {
    FindFirstIsFirst(ps, ProposalFor(rfpId.value, vendorId.value), k);
  }

  /** A rejected save is answered with 500 and stores nothing. */
  lemma SimulateSaveFails(ps: seq<Proposal>, rfpId: Option<string>, vendorId: Option<string>,
                          emailBody: Option<string>, now: Time)
    ensures var (qs, res) := SimulateEffect(ps, rfpId, vendorId, emailBody, now, true);
      qs == ps && (res.ServerError? <==> FieldsPresent(rfpId, vendorId, emailBody)
                                          && FindFirst(ps, ProposalFor(rfpId.value, vendorId.value)).Some?)
  {
  }

  /** There is no status check: a proposal that already received a reply is matched again,
      and a second simulated reply for the same RFP and vendor overwrites the first. */
  lemma SimulateSecondReplyWins(ps: seq<Proposal>, rfpId: Option<string>, vendorId: Option<string>,
                                body1: Option<string>, body2: Option<string>, t1: Time, t2: Time)
    requires FieldsPresent(rfpId, vendorId, body1) && FieldsPresent(rfpId, vendorId, body2)
    requires SimulateEffect(ps, rfpId, vendorId, body1, t1, false).1.Ok?
    ensures var (qs1, res1) := SimulateEffect(ps, rfpId, vendorId, body1, t1, false);
      var (qs2, res2) := SimulateEffect(qs1, rfpId, vendorId, body2, t2, false);
      res1.proposal.status == Received && res2.Ok? && res2.proposal.id == res1.proposal.id
      && res2.proposal.rawEmail == body2 && res2.proposal.receivedAt == Some(t2)
  {
    var p := ProposalFor(rfpId.value, vendorId.value);
    var qs1 := SimulateEffect(ps, rfpId, vendorId, body1, t1, false).0;
    var k := FindFirst(ps, p).value;
    assert |qs1| == |ps| && forall j :: 0 <= j < |ps| ==> p(ps[j]) == p(qs1[j]);
    FindFirstCongruent(ps, qs1, p);
  }

  /** `simulateVendorResponse`: validate the body, `findOne({ rfpId, vendorId })`, parse
      the reply, set the five fields on the fetched document and save it. */
  method SimulateVendorResponse(db: Database, rfpId: Option<string>, vendorId: Option<string>,
                                emailBody: Option<string>, now: Time, saveFails: bool)
    returns (res: Response)
    modifies db
    ensures (db.proposals, res) == SimulateEffect(old(db.proposals), rfpId, vendorId, emailBody, now, saveFails)
    ensures db.vendors == old(db.vendors) && db.rfps == old(db.rfps)
    ensures old(db.Valid()) ==> db.Valid()
  {
    if !Truthy(rfpId) || !Truthy(vendorId) || !Truthy(emailBody) {
      return BadRequest("rfpId, vendorId, and emailBody are required");
    }
    var found := FindFirst(db.proposals, ProposalFor(rfpId.value, vendorId.value));
    if found.None? {
      return NotFound("Proposal not found");
    }
    var k := found.value;
    var parsed := AIService.ParseProposalFromEmail(emailBody.value);
    var proposal := db.proposals[k];
    proposal := proposal.(status := Received);
    proposal := proposal.(rawEmail := emailBody);
    proposal := proposal.(parsed := Some(parsed));
    proposal := proposal.(aiSummary := parsed.summary);
    proposal := proposal.(receivedAt := Some(now));
    if saveFails {
      return ServerError;
    }
    db.proposals := db.proposals[k := proposal];
    res := Ok("Proposal received and parsed", proposal);
  }
}
