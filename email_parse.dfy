/** `processRawEmail`: turning one parsed vendor e-mail into a new proposal, with the
    RFP found by the In-Reply-To header or by an id in the subject, and the vendor
    found by address or created on the spot. */
module EmailParse {
  import opened Common
  import opened Models

  // ---------------------------------------------------------------------------
  // The sender

  /** `(from.value[0].address) || ''`, trimmed and lower-cased. */
  function SenderAddress(mail: ParsedMail): (r: string)
    ensures IsNormalized(r)
    ensures mail.FirstFrom().None? ==> r == ""
    ensures mail.FirstFrom().Some? ==> r == Normalize(mail.FirstFrom().value.address)
  {
    var fromAddress := if mail.FirstFrom().Some? then mail.FirstFrom().value.address else "";
    Normalize(fromAddress)
  }

  /** The name a vendor created from this message gets: the display name when it is
      non-empty, otherwise the normalised address. */
  function SenderName(mail: ParsedMail): (r: string)
    ensures mail.FirstFrom().Some? && mail.FirstFrom().value.name != "" ==> r == mail.FirstFrom().value.name
    ensures mail.FirstFrom().None? || mail.FirstFrom().value.name == "" ==> r == SenderAddress(mail)
  {
    FirstTruthy(if mail.FirstFrom().Some? then Some(mail.FirstFrom().value.name) else None, Some(SenderAddress(mail)))
  }

  // ---------------------------------------------------------------------------
  // The subject pattern /(?:RFP[-#]\s*([A-Za-z0-9-_]+)|\[(RFP[:\-]?\s*[A-Za-z0-9-_]+)\])/i

  /** `[A-Za-z0-9-_]`. */
  predicate IsIdChar(c: char) {
    'a' <= c <= 'z' || 'A' <= c <= 'Z' || '0' <= c <= '9' || c == '-' || c == '_'
  }

  /** The end of the longest run of id characters starting at `j`. */
  function IdRunEnd(s: string, j: nat): (k: nat)
    requires j <= |s|
    ensures j <= k <= |s|
    ensures forall n :: j <= n < k ==> IsIdChar(s[n])
    ensures k < |s| ==> !IsIdChar(s[k])
    decreases |s| - j
  {
    if j == |s| || !IsIdChar(s[j]) then j else IdRunEnd(s, j + 1)
  }

  /** The first alternative, `RFP[-#]\s*([A-Za-z0-9-_]+)`, at `i`: where its group starts.
      The white space is skipped greedily; giving some back cannot help, since white space
      is not an id character. */
  function HashFormAt(s: string, i: int): (w: Option<nat>)
    ensures w.Some? ==> RfpWordAt(s, i) && w.value < |s| && IsIdChar(s[w.value])
  {
    if RfpWordAt(s, i) && i + 3 < |s| && (s[i + 3] == '-' || s[i + 3] == '#') then
      var w := SpaceRunEnd(s, i + 4);
      if w < |s| && IsIdChar(s[w]) then Some(w) else None
    else None
  }

  /** `\s*[A-Za-z0-9-_]+\]` from `from`: the position of the closing bracket. Only the
      longest run of id characters can be followed by `]`, so no other split is tried. */
  function BracketTailEnd(s: string, from: nat): (e: Option<nat>)
    requires from <= |s|
    ensures e.Some? ==> from < e.value < |s| && s[e.value] == ']'
  {
    var w := SpaceRunEnd(s, from);
    if w < |s| && IsIdChar(s[w]) then
      var e := IdRunEnd(s, w);
      if e < |s| && s[e] == ']' then Some(e) else None
    else None
  }

  /** The second alternative, `\[(RFP[:\-]?\s*[A-Za-z0-9-_]+)\]`, at `i`: where the closing
      bracket is. The optional separator is taken first; when the rest fails after it, the
      match is retried without it (which succeeds on "[RFP-]", the hyphen being an id character). */
  function BracketFormAt(s: string, i: int): (e: Option<nat>)
    ensures e.Some? ==> 0 <= i && i + 4 < e.value < |s| && s[i] == '[' && RfpWordAt(s, i + 1) && s[e.value] == ']'
  {
    if 0 <= i < |s| && s[i] == '[' && RfpWordAt(s, i + 1) then
      var p := i + 4;
      var taken := if p < |s| && (s[p] == ':' || s[p] == '-') then BracketTailEnd(s, p + 1) else None;
      if taken.Some? then taken else BracketTailEnd(s, p)
    else None
  }

  /** The pattern matches at `i`, by one alternative or the other. */
  predicate MatchesAt(s: string, i: int) {
    0 <= i < |s| && (HashFormAt(s, i).Some? || BracketFormAt(s, i).Some?)
  }

  /** What `idMatch[1] || idMatch[2]` is when the pattern matches at `i`: the first
      alternative is tried first. */
  function CandidateAt(s: string, i: int): (r: string)
    requires MatchesAt(s, i)
    ensures |r| > 0
  {
    match HashFormAt(s, i)
    case Some(w) => s[w..IdRunEnd(s, w)]
    case None => s[i + 1..BracketFormAt(s, i).value]
  }

  /** The leftmost position at or after `from` where the pattern matches. */
  function FirstMatch(s: string, from: nat): (r: Option<nat>)
    requires from <= |s|
    ensures r.Some? ==> from <= r.value < |s| && MatchesAt(s, r.value)
    ensures r.Some? ==> forall i :: from <= i < r.value ==> !MatchesAt(s, i)
    ensures r.None? ==> forall i :: from <= i ==> !MatchesAt(s, i)
    decreases |s| - from
  {
    if from == |s| then None
    else if MatchesAt(s, from) then Some(from)
    else FirstMatch(s, from + 1)
  }

  /** The id candidate a subject yields: the candidate at the leftmost match. */
  function SubjectCandidate(subject: string): (r: Option<string>)
    ensures r.Some? ==> |r.value| > 0
  {
    match FirstMatch(subject, 0)
    case None => None
    case Some(i) => Some(CandidateAt(subject, i))
  }

  /** There is a candidate exactly when the pattern matches somewhere, and it is the one
      at the leftmost match. */
  lemma SubjectCandidateLeftmost(subject: string)
    ensures SubjectCandidate(subject).None? <==> forall i :: !MatchesAt(subject, i)
    ensures SubjectCandidate(subject).Some? ==>
      exists i :: MatchesAt(subject, i) && (forall j :: 0 <= j < i ==> !MatchesAt(subject, j))
                  && SubjectCandidate(subject) == Some(CandidateAt(subject, i))
  {
    if FirstMatch(subject, 0).None? {
      forall i ensures !MatchesAt(subject, i) {
        if 0 <= i {
          assert 0 <= i;
        }
      }
    }
  }

  /** From a position where only id characters remain before a given end, the run reaches it. */
  lemma {:induction false} IdRunTo(s: string, j: nat, e: nat)
    requires j <= e <= |s| && (forall n :: j <= n < e ==> IsIdChar(s[n])) && (e < |s| ==> !IsIdChar(s[e]))
    ensures IdRunEnd(s, j) == e
    decreases e - j
  {
    if j < e {
      IdRunTo(s, j + 1, e);
    }
  }

  /** A subject "RFP-<id>" yields the id itself. */
  lemma PlainSubjectCandidate(id: string)
    requires |id| > 0 && forall n :: 0 <= n < |id| ==> IsIdChar(id[n])
    ensures SubjectCandidate("RFP-" + id) == Some(id)
  {
    var s := "RFP-" + id;
    assert s[0] == 'R' && s[1] == 'F' && s[2] == 'P' && s[3] == '-' && s[4] == id[0];
    assert SpaceRunEnd(s, 4) == 4;
    IdRunTo(s, 4, |s|);
    assert s[4..|s|] == id;
    assert HashFormAt(s, 0) == Some(4);
    assert FirstMatch(s, 0) == Some(0);
  }

  /** A subject "[RFP-<id>]" matches the second alternative at its first character, so the
      candidate keeps the "RFP-" prefix and the bracket-free id inside it is never tried. */
  lemma BracketedSubjectCandidate(id: string)
    requires |id| > 0 && forall n :: 0 <= n < |id| ==> IsIdChar(id[n])
    ensures SubjectCandidate("[RFP-" + id + "]") == Some("RFP-" + id)
  {
    var s := "[RFP-" + id + "]";
    assert s[0] == '[' && s[1] == 'R' && s[2] == 'F' && s[3] == 'P' && s[4] == '-' && s[5] == id[0];
    assert s[|s| - 1] == ']';
    assert SpaceRunEnd(s, 5) == 5;
    IdRunTo(s, 5, |s| - 1);
    assert BracketTailEnd(s, 5) == Some(|s| - 1);
    assert s[1..|s| - 1] == "RFP-" + id;
    assert HashFormAt(s, 0).None? && BracketFormAt(s, 0) == Some(|s| - 1);
    assert FirstMatch(s, 0) == Some(0);
  }

  // ---------------------------------------------------------------------------
  // Finding the RFP

  /** `{ sentMessageId: { $in: [inReplyTo, messageId] } }`. */
  function SentAs(inReplyTo: string, messageId: Option<string>): Rfp -> bool {
    (r: Rfp) => r.sentMessageId == Some(inReplyTo) || (messageId.Some? && r.sentMessageId == messageId)
  }

  /** `Rfp.findById(candidate)`: an exact id match. */
  function RfpWithId(id: Id): Rfp -> bool {
    (r: Rfp) => r.id == id
  }

  /** The RFP a reply belongs to: by a non-empty In-Reply-To header first; failing that,
      by the id candidate in a non-empty subject. */
  function ResolveRfp(rfps: seq<Rfp>, mail: ParsedMail): (r: Option<nat>)
    ensures r.Some? ==> r.value < |rfps|
  {
    var byHeader := if Truthy(mail.inReplyTo) then FindFirst(rfps, SentAs(mail.inReplyTo.value, mail.messageId)) else None;
    if byHeader.Some? then byHeader
    else if Truthy(mail.subject) then
      match SubjectCandidate(mail.subject.value)
      case None => None
      case Some(candidate) => FindFirst(rfps, RfpWithId(candidate))
    else None
  }

  /** What the RFP lookup promises: a found RFP was either sent with the Message-ID the
      reply answers (and then it is the first such, and it takes precedence), or has exactly
      the id the subject names; when the header finds nothing, a subject naming a candidate
      finds the first RFP with that id; with no non-empty In-Reply-To and no non-empty
      subject, nothing is found. */
  lemma ResolveRfpSpec(rfps: seq<Rfp>, mail: ParsedMail)
    ensures var r := ResolveRfp(rfps, mail);
      && (Truthy(mail.inReplyTo) && (exists k :: 0 <= k < |rfps| && SentAs(mail.inReplyTo.value, mail.messageId)(rfps[k])) ==>
            r == FindFirst(rfps, SentAs(mail.inReplyTo.value, mail.messageId)))
      && (r.Some? ==>
            (Truthy(mail.inReplyTo) && SentAs(mail.inReplyTo.value, mail.messageId)(rfps[r.value]))
            || (Truthy(mail.subject) && SubjectCandidate(mail.subject.value) == Some(rfps[r.value].id)))
      && (!Truthy(mail.inReplyTo) && !Truthy(mail.subject) ==> r.None?)
      && ((!Truthy(mail.inReplyTo) || FindFirst(rfps, SentAs(mail.inReplyTo.value, mail.messageId)).None?)
          && Truthy(mail.subject) && SubjectCandidate(mail.subject.value).Some? ==>
            r == FindFirst(rfps, RfpWithId(SubjectCandidate(mail.subject.value).value)))
  {
  }

  /** The text form of a MongoDB ObjectId: 24 lower-case hexadecimal digits. */
  predicate IsObjectIdText(s: string) {
    |s| == 24 && forall n :: 0 <= n < |s| ==> '0' <= s[n] <= '9' || 'a' <= s[n] <= 'f'
  }

  /** With ObjectId ids, a reply whose only clue is a subject "[RFP-<id>]" finds no RFP:
      the candidate starts with "R". */
  lemma BracketedSubjectFindsNoRfp(rfps: seq<Rfp>, mail: ParsedMail, id: string)
    requires forall k :: 0 <= k < |rfps| ==> IsObjectIdText(rfps[k].id)
    requires !Truthy(mail.inReplyTo)
    requires |id| > 0 && forall n :: 0 <= n < |id| ==> IsIdChar(id[n])
    requires mail.subject == Some("[RFP-" + id + "]")
    ensures ResolveRfp(rfps, mail).None?
  {
    BracketedSubjectCandidate(id);
    var candidate := "RFP-" + id;
    assert candidate[0] == 'R';
    forall k | 0 <= k < |rfps| ensures !RfpWithId(candidate)(rfps[k]) {
      assert IsObjectIdText(rfps[k].id);
    }
  }

  // ---------------------------------------------------------------------------
  // The proposal document

  /** The document `processRawEmail` builds. */
  datatype ProposalDoc = ProposalDoc(
    vendorId: Id,
    vendorEmail: string,
    rfpId: Option<Id>,
    subject: string,
    inReplyTo: string,
    messageId: string,
    rawBody: string,
    parsed: Parsed,
    receivedAt: Time)

  /** The document for `mail`: the reply parser is out of reach here, so `parsed` is always
      the `{ raw }` fallback; a present `date` is always truthy. */
  function BuildProposalDoc(mail: ParsedMail, vendorId: Id, vendorEmail: string, rfpId: Option<Id>, now: Time): (d: ProposalDoc)
    ensures d.vendorId == vendorId && d.vendorEmail == vendorEmail && d.rfpId == rfpId
    ensures d.rawBody == mail.Body() && d.parsed == RawOnly(mail.Body())
    ensures Truthy(mail.inReplyTo) ==> d.inReplyTo == mail.inReplyTo.value
    ensures !Truthy(mail.inReplyTo) ==> d.inReplyTo == d.messageId
    ensures d.subject == FirstTruthy(mail.subject, None) && d.messageId == FirstTruthy(mail.messageId, None)
    ensures d.receivedAt == if mail.date.Some? then mail.date.value else now
  {
    ProposalDoc(
      vendorId, vendorEmail, rfpId,
      FirstTruthy(mail.subject, None),
      FirstTruthy(mail.inReplyTo, Some(FirstTruthy(mail.messageId, None))),
      FirstTruthy(mail.messageId, None),
      mail.Body(),
      RawOnly(mail.Body()),
      if mail.date.Some? then mail.date.value else now)
  }

  /** What `Proposal.create` stores of a document: the schema keeps `vendorId`, `rfpId`,
      `parsed`, `messageId` and `receivedAt`, fills in `status` and `createdAt`, and drops
      the fields it does not declare. */
  function StoredProposal(id: Id, d: ProposalDoc, now: Time): (p: Proposal)
    ensures p.id == id && p.status == Pending && p.createdAt == now
    ensures p.vendorId == Some(d.vendorId) && p.rfpId == d.rfpId && p.parsed == Some(d.parsed)
    ensures p.messageId == Some(d.messageId) && p.receivedAt == Some(d.receivedAt)
    ensures p.rawEmail.None? && p.aiSummary.None?
  {
    Proposal(id, d.rfpId, Some(d.vendorId), Pending, None, Some(d.parsed), None, Some(d.messageId), now, Some(d.receivedAt))
  }

  // ---------------------------------------------------------------------------
  // processRawEmail

  /** The result: the created proposal, or the validation error `Vendor.create` throws
      (and `processRawEmail` rethrows) when the new vendor's name or address is empty. */
  datatype RawEmailOutcome = Created(proposal: Proposal) | VendorRejected

  /** The vendor collection after the vendor step, and where the message's vendor is in it. */
  datatype VendorChoice = VendorChoice(vendors: seq<Vendor>, index: nat)

  /** `Vendor.findOne({ email })`, and `Vendor.create` when it finds nothing. */
  function FindOrCreateVendor(vendors: seq<Vendor>, email: string, name: string, newVendorId: Id, now: Time): (r: Option<VendorChoice>)
    ensures r.Some? ==> r.value.index < |r.value.vendors|
  {
    match FindFirst(vendors, VendorWithEmail(email))
    case Some(i) => Some(VendorChoice(vendors, i))
    case None =>
      match CreateVendor(newVendorId, name, email, now)
      case None => None
      case Some(v) => Some(VendorChoice(vendors + [v], |vendors|))
  }

  /** The vendor step fails exactly when no vendor has the address and the schema rejects
      the new one; an existing vendor is reused as it is; a new one is appended; the
      collection stays valid when the new id is fresh. */
  lemma FindOrCreateVendorSpec(vendors: seq<Vendor>, email: string, name: string, newVendorId: Id, now: Time)
    requires VendorsValid(vendors) && IsNormalized(email)
    requires forall i :: 0 <= i < |vendors| ==> vendors[i].id != newVendorId
    ensures var r := FindOrCreateVendor(vendors, email, name, newVendorId, now);
      var known := exists i :: 0 <= i < |vendors| && vendors[i].email == email;
      && (r.None? <==> !known && (Trim(name) == "" || email == ""))
      && (known ==> r.Some? && r.value.vendors == vendors)
      && (!known && r.Some? ==> r.value.vendors == vendors + [Vendor(newVendorId, Trim(name), email, now)])
      && (r.Some? ==> VendorsValid(r.value.vendors) && r.value.vendors[r.value.index].email == email)
  {
    NormalizedIsFixed(email);
    var r := FindOrCreateVendor(vendors, email, name, newVendorId, now);
    if r.Some? && r.value.vendors != vendors {
      AppendVendorKeepsValid(vendors, r.value.vendors[|vendors|]);
    } else if r.Some? {
      assert VendorWithEmail(email)(vendors[r.value.index]);
    }
  }

  /** Appending a well-formed vendor with a new address and a new id keeps the collection valid. */
  lemma AppendVendorKeepsValid(vendors: seq<Vendor>, v: Vendor)
    requires VendorsValid(vendors) && WellFormedVendor(v)
    requires forall i :: 0 <= i < |vendors| ==> vendors[i].email != v.email && vendors[i].id != v.id
    ensures VendorsValid(vendors + [v])
  {
    var vs := vendors + [v];
    forall i | 0 <= i < |vs| ensures WellFormedVendor(vs[i]) {
      if i < |vendors| {
        assert vs[i] == vendors[i];
      }
    }
    forall i, j | 0 <= i < j < |vs| ensures vs[i].email != vs[j].email && vs[i].id != vs[j].id {
      assert vs[i] == vendors[i];
      if j < |vendors| {
        assert vs[j] == vendors[j];
      }
    }
  }

  /** The id of the RFP the reply resolves to, or `null`. */
  function RfpIdOf(rfps: seq<Rfp>, mail: ParsedMail): Option<Id> {
    match ResolveRfp(rfps, mail)
    case None => None
    case Some(k) => Some(rfps[k].id)
  }

  /** The collections `processRawEmail` writes. */
  datatype Store = Store(vendors: seq<Vendor>, proposals: seq<Proposal>)

  /** processRawEmail on values: the new store and the outcome. */
  function RawEmailEffect(st: Store, rfps: seq<Rfp>, mail: ParsedMail, now: Time, newVendorId: Id, newProposalId: Id): (Store, RawEmailOutcome)
  {
    var email := SenderAddress(mail);
    match FindOrCreateVendor(st.vendors, email, SenderName(mail), newVendorId, now)
    case None => (st, VendorRejected)
    case Some(vc) =>
      var p := StoredProposal(newProposalId, BuildProposalDoc(mail, vc.vendors[vc.index].id, email, RfpIdOf(rfps, mail), now), now);
      (Store(vc.vendors, st.proposals + [p]), Created(p))
  }

  /** What processRawEmail promises of the vendors. It rejects the message exactly when no
      vendor has the sender's normalised address and that address or the name is empty after
      trimming, and then stores nothing. Otherwise it reuses the vendor with that address, or
      appends one; the collection stays valid. */
  lemma RawEmailEffectVendors(st: Store, rfps: seq<Rfp>, mail: ParsedMail, now: Time, newVendorId: Id, newProposalId: Id)
    requires VendorsValid(st.vendors)
    requires forall i :: 0 <= i < |st.vendors| ==> st.vendors[i].id != newVendorId
    ensures var (st', out) := RawEmailEffect(st, rfps, mail, now, newVendorId, newProposalId);
      var email := SenderAddress(mail);
      var known := exists i :: 0 <= i < |st.vendors| && st.vendors[i].email == email;
      && VendorsValid(st'.vendors)
      && (out == VendorRejected <==> !known && (Trim(SenderName(mail)) == "" || email == ""))
      && (out == VendorRejected ==> st' == st)
      && (known ==> st'.vendors == st.vendors)
      && (!known && out.Created? ==> st'.vendors == st.vendors + [Vendor(newVendorId, Trim(SenderName(mail)), email, now)])
  {
    FindOrCreateVendorSpec(st.vendors, SenderAddress(mail), SenderName(mail), newVendorId, now);
  }

  /** What processRawEmail promises of the proposal it creates: it is appended, pending,
      belongs to a vendor with the sender's normalised address and to the RFP the reply
      resolves to, and holds the reply text as its `{ raw }` parse and the message's id. */
  lemma RawEmailEffectProposal(st: Store, rfps: seq<Rfp>, mail: ParsedMail, now: Time, newVendorId: Id, newProposalId: Id)
    requires VendorsValid(st.vendors)
    requires forall i :: 0 <= i < |st.vendors| ==> st.vendors[i].id != newVendorId
    ensures var (st', out) := RawEmailEffect(st, rfps, mail, now, newVendorId, newProposalId);
      out.Created? ==>
        && st'.proposals == st.proposals + [out.proposal]
        && out.proposal.id == newProposalId && out.proposal.status == Pending && out.proposal.createdAt == now
        && out.proposal.parsed == Some(RawOnly(mail.Body()))
        && out.proposal.messageId == Some(FirstTruthy(mail.messageId, None))
        && out.proposal.rfpId == RfpIdOf(rfps, mail)
        && exists i :: 0 <= i < |st'.vendors| && st'.vendors[i].email == SenderAddress(mail)
                       && out.proposal.vendorId == Some(st'.vendors[i].id)
  {
    FindOrCreateVendorSpec(st.vendors, SenderAddress(mail), SenderName(mail), newVendorId, now);
  }

  /** `Vendor.findOne({ email })`, then `Vendor.create` when nothing was found: where the
      message's vendor is, or None when the schema rejects the new vendor. */
  method EnsureVendor(db: Database, email: string, name: string, newVendorId: Id, now: Time) returns (index: Option<nat>)
    modifies db
    ensures db.proposals == old(db.proposals) && db.rfps == old(db.rfps)
    ensures var r := FindOrCreateVendor(old(db.vendors), email, name, newVendorId, now);
      && (r.None? ==> index.None? && db.vendors == old(db.vendors))
      && (r.Some? ==> index == Some(r.value.index) && db.vendors == r.value.vendors)
  {
    ghost var r := FindOrCreateVendor(db.vendors, email, name, newVendorId, now);
    index := FindFirst(db.vendors, VendorWithEmail(email));
    if index.None? {
      var created := CreateVendor(newVendorId, name, email, now);
      assert r == if created.None? then None else Some(VendorChoice(db.vendors + [created.value], |db.vendors|));
      if created.Some? {
        db.vendors := db.vendors + [created.value];
        index := Some(|db.vendors| - 1);
      }
    }
  }

  /** `processRawEmail`: normalise the sender, find the RFP, find or create the vendor,
      build the document and create the proposal. A validation error on the new vendor is
      rethrown, and nothing has been stored by then. That the vendor collection stays valid
      is stated of the effect, in `RawEmailEffectVendors`. */
  method ProcessRawEmail(db: Database, mail: ParsedMail, now: Time, newVendorId: Id, newProposalId: Id) returns (r: RawEmailOutcome)
    modifies db
    ensures db.rfps == old(db.rfps)
    ensures (Store(db.vendors, db.proposals), r)
      == RawEmailEffect(Store(old(db.vendors), old(db.proposals)), db.rfps, mail, now, newVendorId, newProposalId)
  {
    var normalizedFrom := SenderAddress(mail);
    var rfp := ResolveRfp(db.rfps, mail);
    var vendor := EnsureVendor(db, normalizedFrom, SenderName(mail), newVendorId, now);
    if vendor.None? {
      return VendorRejected;
    }
    var rfpId := if rfp.Some? then Some(db.rfps[rfp.value].id) else None;
    var proposalDoc := BuildProposalDoc(mail, db.vendors[vendor.value].id, normalizedFrom, rfpId, now);
    var created := StoredProposal(newProposalId, proposalDoc, now);
    db.proposals := db.proposals + [created];
    r := Created(created);
  }
}
