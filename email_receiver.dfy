/** The inbox side of the back end: correlating unread vendor replies to
    proposals by the RFP id in the subject and the sender's address
    (`checkInbox`), matching pending proposals to messages by Message-ID
    (`processPendingProposals`), and the header listing (`listInboxEmails`). */
module EmailReceiver {
  import opened Common
  import opened Models
  import AIService

  // ---------------------------------------------------------------------------
  // The subject pattern /RFP-([a-f0-9]+)/i

  /** `[a-f0-9]` under the `i` flag. */
  predicate IsHexDigit(c: char) {
    '0' <= c <= '9' || 'a' <= c <= 'f' || 'A' <= c <= 'F'
  }

  /** The pattern can start at `i`: "RFP-" in any case, then at least one hex digit. */
  predicate RfpIdPatternAt(s: string, i: int) {
    RfpWordAt(s, i) && i + 4 < |s| && s[i + 3] == '-' && IsHexDigit(s[i + 4])
  }

  /** The end of the longest run of hex digits starting at `j` (the greedy `+`). */
  function HexRunEnd(s: string, j: nat): (k: nat)
    requires j <= |s|
    ensures j <= k <= |s|
    ensures forall n :: j <= n < k ==> IsHexDigit(s[n])
    ensures k < |s| ==> !IsHexDigit(s[k])
    decreases |s| - j
  {
    if j == |s| || !IsHexDigit(s[j]) then j else HexRunEnd(s, j + 1)
  }

  /** The leftmost position at or after `from` where the pattern matches. */
  function FirstRfpIdPattern(s: string, from: nat): (r: Option<nat>)
    requires from <= |s|
    ensures r.Some? ==> from <= r.value && RfpIdPatternAt(s, r.value)
    ensures r.Some? ==> forall i :: from <= i < r.value ==> !RfpIdPatternAt(s, i)
    ensures r.None? ==> forall i :: from <= i ==> !RfpIdPatternAt(s, i)
    decreases |s| - from
  {
    if from == |s| then None
    else if RfpIdPatternAt(s, from) then Some(from)
    else FirstRfpIdPattern(s, from + 1)
  }

  /** `subject.match(/RFP-([a-f0-9]+)/i)[1]`, or None when the pattern does not match. */
  function ExtractRfpId(subject: string): (r: Option<string>)
  {
    match FirstRfpIdPattern(subject, 0)
    case None => None
    case Some(i) => Some(subject[i + 4..HexRunEnd(subject, i + 4)])
  }

  /** The extracted id is taken at the leftmost match, is non-empty and all hex digits,
      and is the longest such run there; there is none exactly when the pattern occurs nowhere. */
  lemma ExtractRfpIdSpec(subject: string)
    ensures ExtractRfpId(subject).None? <==> forall i :: !RfpIdPatternAt(subject, i)
    ensures ExtractRfpId(subject).Some? ==>
      exists i :: RfpIdPatternAt(subject, i)
        && (forall j :: 0 <= j < i ==> !RfpIdPatternAt(subject, j))
        && ExtractRfpId(subject).value == subject[i + 4..HexRunEnd(subject, i + 4)]
    ensures ExtractRfpId(subject).Some? ==>
      var id := ExtractRfpId(subject).value;
      |id| > 0 && forall n :: 0 <= n < |id| ==> IsHexDigit(id[n])
  {
    var first := FirstRfpIdPattern(subject, 0);
    if first.None? {
      forall i ensures !RfpIdPatternAt(subject, i) {
        if 0 <= i {
          assert 0 <= i;
        }
      }
    }
  }

  /** A subject that is just "RFP-" and a hex id yields that id. */
  lemma {:induction false} ExtractRfpIdOfPlainSubject(id: string)
    requires |id| > 0 && forall n :: 0 <= n < |id| ==> IsHexDigit(id[n])
    ensures ExtractRfpId("RFP-" + id) == Some(id)
  {
    var s := "RFP-" + id;
    assert s[0] == 'R' && s[1] == 'F' && s[2] == 'P' && s[3] == '-' && s[4] == id[0];
    assert RfpIdPatternAt(s, 0);
    assert FirstRfpIdPattern(s, 0) == Some(0);
    HexRunToEnd(s, 4);
    assert s[4..|s|] == id;
    assert ExtractRfpId(s) == Some(s[4..HexRunEnd(s, 4)]);
  }

  /** From a position where only hex digits remain, the run reaches the end. */
  lemma {:induction false} HexRunToEnd(s: string, j: nat)
    requires j <= |s| && forall n :: j <= n < |s| ==> IsHexDigit(s[n])
    ensures HexRunEnd(s, j) == |s|
    decreases |s| - j
  {
    if j < |s| {
      HexRunToEnd(s, j + 1);
    }
  }

  // ---------------------------------------------------------------------------
  // checkInbox: one unread message

  /** The subject test: present, non-empty and containing "RFP-" (case-sensitive). */
  predicate LooksLikeRfpReply(mail: ParsedMail) {
    Truthy(mail.subject) && Contains(mail.subject.value, "RFP-")
  }

  /** The first `From:` address as the parser gives it. checkInbox looks the vendor up by
      it; the vendor schema's `trim` and `lowercase` setters apply to the query value too,
      so the lookup compares the normalised address. */
  function SenderOf(mail: ParsedMail): Option<string> {
    if mail.from.Some? && |mail.from.value| > 0 then Some(mail.from.value[0].address) else None
  }

  /** What becomes of one unread message. `Errored`: reading the message threw (no full
      source, no `From:` header, or an empty address list) and the loop went on with the
      next one. `Skipped`: not a reply to an RFP, or nothing in the database matched. */
  datatype Correlation = Errored | Skipped | Matched(index: nat)

  /** checkInbox's lookup chain for one message: the subject test, the RFP id, the vendor
      with the sender's normalised address, then the first proposal for that RFP and vendor. */
  function CorrelateReply(ps: seq<Proposal>, vendors: seq<Vendor>, m: InboxMessage): (r: Correlation)
    ensures r.Matched? ==> r.index < |ps|
  {
    if m.full.None? || m.full.value.from.None? then Errored
    else
      var mail := m.full.value;
      if !LooksLikeRfpReply(mail) then Skipped
      else match ExtractRfpId(mail.subject.value)
        case None => Skipped
        case Some(rfpId) =>
          if SenderOf(mail).None? then Errored
          else match FindFirst(vendors, VendorWithEmail(Normalize(SenderOf(mail).value)))
            case None => Skipped
            case Some(vi) =>
              match FindFirst(ps, ProposalFor(rfpId, vendors[vi].id))
              case None => Skipped
              case Some(k) => Matched(k)
  }

  /** A message is matched only when it is a reply to an RFP whose id its subject carries,
      sent from an address that normalises to a vendor's, and the proposal is the first one of that vendor for
      that RFP; it errors exactly when its source, its `From:` header or (for a reply to an
      RFP) its address list is missing. */
  lemma CorrelateReplySound(ps: seq<Proposal>, vendors: seq<Vendor>, m: InboxMessage)
    ensures CorrelateReply(ps, vendors, m).Matched? ==>
      && m.full.Some? && LooksLikeRfpReply(m.full.value)
      && ExtractRfpId(m.full.value.subject.value).Some? && SenderOf(m.full.value).Some?
      && exists vi :: 0 <= vi < |vendors| && vendors[vi].email == Normalize(SenderOf(m.full.value).value)
           && FindFirst(ps, ProposalFor(ExtractRfpId(m.full.value.subject.value).value, vendors[vi].id))
              == Some(CorrelateReply(ps, vendors, m).index)
    ensures CorrelateReply(ps, vendors, m).Errored? <==>
      (|| m.full.None? || m.full.value.from.None?
       || (LooksLikeRfpReply(m.full.value) && ExtractRfpId(m.full.value.subject.value).Some?
           && SenderOf(m.full.value).None?))
  {
  }

  /** Under the unique index on vendor addresses, a reply to an RFP whose normalised sender address is
      that of a vendor with a proposal for that RFP is matched, to the first such proposal. */
  lemma CorrelateReplyComplete(ps: seq<Proposal>, vendors: seq<Vendor>, m: InboxMessage, vi: int, k: int)
    requires EmailsUnique(vendors)
    requires m.full.Some? && LooksLikeRfpReply(m.full.value)
    requires ExtractRfpId(m.full.value.subject.value).Some? && SenderOf(m.full.value).Some?
    requires 0 <= vi < |vendors| && vendors[vi].email == Normalize(SenderOf(m.full.value).value)
    requires 0 <= k < |ps| && ProposalFor(ExtractRfpId(m.full.value.subject.value).value, vendors[vi].id)(ps[k])
    requires forall j :: 0 <= j < k ==> !ProposalFor(ExtractRfpId(m.full.value.subject.value).value, vendors[vi].id)(ps[j])
    ensures CorrelateReply(ps, vendors, m) == Matched(k)
  {
    var mail := m.full.value;
    var rfpId := ExtractRfpId(mail.subject.value).value;
    var email := Normalize(SenderOf(mail).value);
    VendorByEmailIsUnique(vendors, email, vi);
    assert FindFirst(vendors, VendorWithEmail(email)) == Some(vi);
    FindFirstIsFirst(ps, ProposalFor(rfpId, vendors[vi].id), k);
    assert FindFirst(ps, ProposalFor(rfpId, vendors[vi].id)) == Some(k);
  }

  /** Correlation reads only which document each proposal is, so updating matched
      proposals never changes how later messages correlate. */
  lemma {:induction false} CorrelateStable(ps: seq<Proposal>, qs: seq<Proposal>, vendors: seq<Vendor>, m: InboxMessage)
    requires |ps| == |qs| && forall k :: 0 <= k < |ps| ==> SameDocument(ps[k], qs[k])
    ensures CorrelateReply(ps, vendors, m) == CorrelateReply(qs, vendors, m)
  {
    if m.full.Some? && m.full.value.from.Some? && LooksLikeRfpReply(m.full.value) {
      var mail := m.full.value;
      var rfpId := ExtractRfpId(mail.subject.value);
      if rfpId.Some? && SenderOf(mail).Some? {
        var vendor := FindFirst(vendors, VendorWithEmail(Normalize(SenderOf(mail).value)));
        if vendor.Some? {
          var p := ProposalFor(rfpId.value, vendors[vendor.value].id);
          assert forall k :: 0 <= k < |ps| ==> p(ps[k]) == p(qs[k]);
          FindFirstCongruent(ps, qs, p);
        }
      }
    }
  }

  /** The state after one message, and the UIDs flagged `\Seen` for it. */
  datatype InboxPass = InboxPass(proposals: seq<Proposal>, flagged: seq<nat>)

  /** One round of checkInbox's loop. A matched proposal gets the reply and the stub parse;
      if the database rejects the save (the message's UID is in `rejected`), the error is
      caught, nothing is stored and the message is not flagged. */
  function InboxStep(ps: seq<Proposal>, vendors: seq<Vendor>, m: InboxMessage, now: Time, rejected: set<nat>): (r: InboxPass)
    ensures |r.proposals| == |ps|
  {
    match CorrelateReply(ps, vendors, m)
    case Matched(k) =>
      if m.uid in rejected then InboxPass(ps, [])
      else
        var body := m.full.value.Body();
        InboxPass(ps[k := ReceiveReply(ps[k], body, AIService.ParseProposalFromEmail(body), now)], [m.uid])
    case _ => InboxPass(ps, [])
  }

  /** checkInbox over the unread messages, in inbox order. */
  function CheckInboxSpec(ps: seq<Proposal>, vendors: seq<Vendor>, msgs: seq<InboxMessage>, now: Time, rejected: set<nat>): (r: InboxPass)
    ensures |r.proposals| == |ps|
  {
    if msgs == [] then InboxPass(ps, [])
    else
      var before := CheckInboxSpec(ps, vendors, msgs[..|msgs| - 1], now, rejected);
      var step := InboxStep(before.proposals, vendors, msgs[|msgs| - 1], now, rejected);
      InboxPass(step.proposals, before.flagged + step.flagged)
  }

  /** The messages whose proposal checkInbox updates: matched and saved. */
  predicate IsAccepted(ps: seq<Proposal>, vendors: seq<Vendor>, rejected: set<nat>, m: InboxMessage) {
    CorrelateReply(ps, vendors, m).Matched? && m.uid !in rejected
  }

  /** The UIDs of the accepted messages, in inbox order, each judged against the
      proposals as they stood before the pass. */
  function AcceptedUids(ps: seq<Proposal>, vendors: seq<Vendor>, msgs: seq<InboxMessage>, rejected: set<nat>): (r: seq<nat>)
    ensures |r| <= |msgs|
    ensures forall n :: 0 <= n < |r| ==> exists j :: 0 <= j < |msgs| && msgs[j].uid == r[n] && IsAccepted(ps, vendors, rejected, msgs[j])
  {
    if msgs == [] then []
    else
      var init := AcceptedUids(ps, vendors, msgs[..|msgs| - 1], rejected);
      assert forall j :: 0 <= j < |msgs| - 1 ==> msgs[..|msgs| - 1][j] == msgs[j];
      var last := msgs[|msgs| - 1];
      if IsAccepted(ps, vendors, rejected, last) then init + [last.uid] else init
  }

  /** Every proposal either keeps its old value or is the same document marked received. */
  lemma {:induction false} CheckInboxKeepsDocuments(ps: seq<Proposal>, vendors: seq<Vendor>, msgs: seq<InboxMessage>, now: Time, rejected: set<nat>)
    ensures var r := CheckInboxSpec(ps, vendors, msgs, now, rejected).proposals;
      forall k :: 0 <= k < |ps| ==> SameDocument(ps[k], r[k]) && (r[k] == ps[k] || r[k].status == Received)
  {
    if msgs != [] {
      CheckInboxKeepsDocuments(ps, vendors, msgs[..|msgs| - 1], now, rejected);
    }
  }

  /** One round flags the message exactly when it is accepted, judged against the
      collection as it stood before the pass (the same documents). */
  lemma InboxStepFlagged(ps: seq<Proposal>, qs: seq<Proposal>, vendors: seq<Vendor>, m: InboxMessage, now: Time, rejected: set<nat>)
    requires |ps| == |qs| && forall k :: 0 <= k < |ps| ==> SameDocument(ps[k], qs[k])
    ensures InboxStep(qs, vendors, m, now, rejected).flagged == if IsAccepted(ps, vendors, rejected, m) then [m.uid] else []
  {
    CorrelateStable(ps, qs, vendors, m);
  }

  /** The messages flagged `\Seen` are exactly the matched messages whose save went through,
      in inbox order: updating one proposal never changes which later messages match. */
  lemma {:induction false} CheckInboxFlagged(ps: seq<Proposal>, vendors: seq<Vendor>, msgs: seq<InboxMessage>, now: Time, rejected: set<nat>)
    ensures CheckInboxSpec(ps, vendors, msgs, now, rejected).flagged == AcceptedUids(ps, vendors, msgs, rejected)
  {
    if msgs != [] {
      var init, last := msgs[..|msgs| - 1], msgs[|msgs| - 1];
      CheckInboxFlagged(ps, vendors, init, now, rejected);
      var before := CheckInboxSpec(ps, vendors, init, now, rejected);
      CheckInboxKeepsDocuments(ps, vendors, init, now, rejected);
      InboxStepFlagged(ps, before.proposals, vendors, last, now, rejected);
    }
  }

  /** Message `m` is accepted and matched to proposal `k`. */
  predicate RepliesTo(ps: seq<Proposal>, vendors: seq<Vendor>, rejected: set<nat>, m: InboxMessage, k: nat) {
    CorrelateReply(ps, vendors, m) == Matched(k) && m.uid !in rejected
  }

  function ReplyTo(ps: seq<Proposal>, vendors: seq<Vendor>, rejected: set<nat>, k: nat): InboxMessage -> bool {
    (m: InboxMessage) => RepliesTo(ps, vendors, rejected, m, k)
  }

  /** The last reply wins: each proposal ends up carrying the body of the last accepted
      message matched to it, and proposals no accepted message matched are unchanged. */
  lemma {:induction false} CheckInboxLastReplyWins(ps: seq<Proposal>, vendors: seq<Vendor>, msgs: seq<InboxMessage>, now: Time, rejected: set<nat>, k: nat)
    requires k < |ps|
    ensures var r := CheckInboxSpec(ps, vendors, msgs, now, rejected).proposals;
      match FindLast(msgs, ReplyTo(ps, vendors, rejected, k))
      case None => r[k] == ps[k]
      case Some(j) =>
        var body := msgs[j].full.value.Body();
        r[k] == ReceiveReply(ps[k], body, AIService.ParseProposalFromEmail(body), now)
  {
    if msgs != [] {
      var init, last := msgs[..|msgs| - 1], msgs[|msgs| - 1];
      CheckInboxLastReplyWins(ps, vendors, init, now, rejected, k);
      var before := CheckInboxSpec(ps, vendors, init, now, rejected);
      CheckInboxKeepsDocuments(ps, vendors, init, now, rejected);
      CorrelateStable(ps, before.proposals, vendors, last);
      if FindLast(msgs, ReplyTo(ps, vendors, rejected, k)) != Some(|msgs| - 1) {
        assert FindLast(msgs, ReplyTo(ps, vendors, rejected, k)) == FindLast(init, ReplyTo(ps, vendors, rejected, k));
        forall j | 0 <= j < |init| ensures init[j] == msgs[j] { }
      }
    }
  }

  /** A batch without any reply to an RFP changes nothing and flags nothing. */
  lemma {:induction false} CheckInboxIgnoresNonReplies(ps: seq<Proposal>, vendors: seq<Vendor>, msgs: seq<InboxMessage>, now: Time, rejected: set<nat>)
    requires forall j :: 0 <= j < |msgs| ==> msgs[j].full.None? || !LooksLikeRfpReply(msgs[j].full.value)
    ensures CheckInboxSpec(ps, vendors, msgs, now, rejected) == InboxPass(ps, [])
  {
    if msgs != [] {
      CheckInboxIgnoresNonReplies(ps, vendors, msgs[..|msgs| - 1], now, rejected);
    }
  }

  /** The body of checkInbox's loop up to the update: read the message, test the subject,
      extract the RFP id, find the vendor by the sender's address and then the proposal. */
  method CorrelateMessage(db: Database, msg: InboxMessage) returns (c: Correlation)
    ensures c == CorrelateReply(db.proposals, db.vendors, msg)
  {
    if msg.full.None? || msg.full.value.from.None? {
      return Errored;
    }
    var mail := msg.full.value;
    if !(Truthy(mail.subject) && Contains(mail.subject.value, "RFP-")) {
      return Skipped;
    }
    var rfpIdMatch := ExtractRfpId(mail.subject.value);
    if rfpIdMatch.None? {
      return Skipped;
    }
    var rfpId := rfpIdMatch.value;
    if |mail.from.value| == 0 {
      return Errored;
    }
    var vendorEmail := mail.from.value[0].address;
    var vendor := FindFirst(db.vendors, VendorWithEmail(Normalize(vendorEmail)));
    if vendor.None? {
      return Skipped;
    }
    var proposal := FindFirst(db.proposals, ProposalFor(rfpId, db.vendors[vendor.value].id));
    if proposal.None? {
      return Skipped;
    }
    return Matched(proposal.value);
  }

  /** checkInbox over one more message: the pass so far, then one round. */
  lemma CheckInboxSnoc(ps: seq<Proposal>, vendors: seq<Vendor>, msgs: seq<InboxMessage>, i: nat, now: Time, rejected: set<nat>)
    requires i < |msgs|
    ensures var before := CheckInboxSpec(ps, vendors, msgs[..i], now, rejected);
      var step := InboxStep(before.proposals, vendors, msgs[i], now, rejected);
      CheckInboxSpec(ps, vendors, msgs[..i + 1], now, rejected) == InboxPass(step.proposals, before.flagged + step.flagged)
  {
    assert msgs[..i + 1][..i] == msgs[..i];
  }

  /** One round of checkInbox's loop: correlate the message and, on a match whose save
      goes through, store the reply and report the UID to flag `\Seen`. */
  method HandleMessage(db: Database, msg: InboxMessage, now: Time, rejected: set<nat>) returns (flag: seq<nat>)
    modifies db
    ensures db.vendors == old(db.vendors) && db.rfps == old(db.rfps)
    ensures InboxPass(db.proposals, flag) == InboxStep(old(db.proposals), db.vendors, msg, now, rejected)
  {
    flag := [];
    var outcome := CorrelateMessage(db, msg);
    if outcome.Matched? && msg.uid !in rejected {
      var k := outcome.index;
      var emailBody := msg.full.value.Body();
      var parsedData := AIService.ParseProposalFromEmail(emailBody);
      db.proposals := db.proposals[k := ReceiveReply(db.proposals[k], emailBody, parsedData, now)];
      flag := [msg.uid];
    }
  }

  /** `checkInbox`: for each unread message in turn, correlate it, update and save the
      matched proposal in place, then flag the message `\Seen`; an error on one message
      is caught and the loop goes on with the next. */
  method CheckInbox(db: Database, messages: seq<InboxMessage>, now: Time, rejected: set<nat>) returns (flagged: seq<nat>)
    modifies db
    ensures db.vendors == old(db.vendors) && db.rfps == old(db.rfps)
    ensures InboxPass(db.proposals, flagged) == CheckInboxSpec(old(db.proposals), db.vendors, messages, now, rejected)
    ensures old(db.Valid()) ==> db.Valid()
  {
    flagged := [];
    var i := 0;
    while i < |messages|
      invariant 0 <= i <= |messages|
      invariant db.vendors == old(db.vendors) && db.rfps == old(db.rfps)
      invariant InboxPass(db.proposals, flagged) == CheckInboxSpec(old(db.proposals), db.vendors, messages[..i], now, rejected)
    {
      CheckInboxSnoc(old(db.proposals), db.vendors, messages, i, now, rejected);
      var flag := HandleMessage(db, messages[i], now, rejected);
      flagged := flagged + flag;
      i := i + 1;
    }
    assert messages[..|messages|] == messages;
  }

  // ---------------------------------------------------------------------------
  // processPendingProposals

  /** The message filter: a HEADER part whose first Message-ID equals the proposal's
      (`===`, so a proposal without a Message-ID matches nothing). */
  function HasMessageId(messageId: Option<string>): InboxMessage -> bool {
    (m: InboxMessage) => m.header.Some? && m.header.value.messageId.Some? && m.header.value.messageId == messageId
  }

  /** `Proposal.find({ status: 'pending' })`: the positions of the pending proposals, in order. */
  function PendingIndices(ps: seq<Proposal>): (r: seq<nat>)
    ensures forall a, b :: 0 <= a < b < |r| ==> r[a] < r[b]
    ensures forall a :: 0 <= a < |r| ==> r[a] < |ps|
    ensures forall k :: 0 <= k < |ps| ==> (k in r <==> ps[k].status == Pending)
  {
    if ps == [] then []
    else
      var init := PendingIndices(ps[..|ps| - 1]);
      assert forall k :: 0 <= k < |ps| - 1 ==> ps[..|ps| - 1][k] == ps[k];
      if ps[|ps| - 1].status == Pending then init + [|ps| - 1] else init
  }

  /** The fate of one pending proposal. Its populated vendor must exist (the log line reads
      its name, so a missing vendor throws and the proposal is skipped); then the first
      message with its Message-ID is taken, its full source parsed, and the proposal updated
      and saved unless the save is rejected (its id is in `rejected`). */
  function PendingOutcome(p: Proposal, vendors: seq<Vendor>, msgs: seq<InboxMessage>, now: Time, rejected: set<Id>): (q: Proposal)
  {
    if p.vendorId.None? || FindFirst(vendors, VendorWithId(p.vendorId.value)).None? then p
    else match FindFirst(msgs, HasMessageId(p.messageId))
      case None => p
      case Some(j) =>
        if msgs[j].full.None? || p.id in rejected then p
        else
          var body := msgs[j].full.value.Body();
          ReceiveReply(p, body, AIService.ParseProposalFromEmail(body), now)
  }

  /** processPendingProposals on a whole collection: each pending proposal independently
      meets its fate; every other proposal is untouched. */
  function ProcessPendingSpec(ps: seq<Proposal>, vendors: seq<Vendor>, msgs: seq<InboxMessage>, now: Time, rejected: set<Id>): (r: seq<Proposal>)
    ensures |r| == |ps|
  {
    seq(|ps|, k requires 0 <= k < |ps| => if ps[k].status == Pending then PendingOutcome(ps[k], vendors, msgs, now, rejected) else ps[k])
  }

  /** What processPendingProposals promises of each proposal: one that was not pending is
      unchanged; a pending one with no message carrying its Message-ID is unchanged; a
      changed one is the same document, now received, holding the body of the first
      message with its Message-ID. */
  lemma ProcessPendingEffect(ps: seq<Proposal>, vendors: seq<Vendor>, msgs: seq<InboxMessage>, now: Time, rejected: set<Id>, k: int)
    requires 0 <= k < |ps|
    ensures var r := ProcessPendingSpec(ps, vendors, msgs, now, rejected);
      && (ps[k].status != Pending ==> r[k] == ps[k])
      && (FindFirst(msgs, HasMessageId(ps[k].messageId)).None? ==> r[k] == ps[k])
      && (r[k] != ps[k] ==>
            var j := FindFirst(msgs, HasMessageId(ps[k].messageId)).value;
            && ps[k].status == Pending && SameDocument(ps[k], r[k]) && r[k].status == Received
            && msgs[j].full.Some? && r[k].rawEmail == Some(msgs[j].full.value.Body())
            && ps[k].id !in rejected)
  {
  }

  /** And what it must change: a pending proposal whose vendor exists, for which the mailbox
      holds a message with its Message-ID whose full source is there, and whose save goes
      through, receives the body of the first such message with the stub parse. */
  lemma ProcessPendingReceives(ps: seq<Proposal>, vendors: seq<Vendor>, msgs: seq<InboxMessage>, now: Time, rejected: set<Id>, k: int, j: int)
    requires 0 <= k < |ps| && ps[k].status == Pending && ps[k].id !in rejected
    requires ps[k].vendorId.Some? && exists v :: 0 <= v < |vendors| && vendors[v].id == ps[k].vendorId.value
    requires FindFirst(msgs, HasMessageId(ps[k].messageId)) == Some(j) && msgs[j].full.Some?
    ensures var body := msgs[j].full.value.Body();
      ProcessPendingSpec(ps, vendors, msgs, now, rejected)[k]
        == ReceiveReply(ps[k], body, AIService.ParseProposalFromEmail(body), now)
  {
    var v :| 0 <= v < |vendors| && vendors[v].id == ps[k].vendorId.value;
    assert VendorWithId(ps[k].vendorId.value)(vendors[v]);
  }

  /** Running the pass again over the same mailbox changes nothing more: the proposals it
      updated are no longer pending, and the ones it left pending meet the same fate. */
  lemma ProcessPendingIdempotent(ps: seq<Proposal>, vendors: seq<Vendor>, msgs: seq<InboxMessage>, now: Time, rejected: set<Id>)
    ensures var once := ProcessPendingSpec(ps, vendors, msgs, now, rejected);
      ProcessPendingSpec(once, vendors, msgs, now, rejected) == once
  {
    var once := ProcessPendingSpec(ps, vendors, msgs, now, rejected);
    var twice := ProcessPendingSpec(once, vendors, msgs, now, rejected);
    forall k | 0 <= k < |ps| ensures twice[k] == once[k] {
      if once[k].status == Pending {
        assert once[k] == ps[k];
      }
    }
  }

  /** One round of processPendingProposals' loop: populate the vendor, find the message
      with the proposal's Message-ID, parse its full source, update the proposal and save it. */
  method SettlePending(db: Database, k: nat, messages: seq<InboxMessage>, now: Time, rejected: set<Id>)
    requires k < |db.proposals|
    modifies db
    ensures db.vendors == old(db.vendors) && db.rfps == old(db.rfps)
    ensures db.proposals == old(db.proposals)[k := PendingOutcome(old(db.proposals)[k], db.vendors, messages, now, rejected)]
  {
    var proposal := db.proposals[k];
    if proposal.vendorId.None? || FindFirst(db.vendors, VendorWithId(proposal.vendorId.value)).None? {
      return;
    }
    var matchingMsg := FindFirst(messages, HasMessageId(proposal.messageId));
    if matchingMsg.None? {
      return;
    }
    var msg := messages[matchingMsg.value];
    if msg.full.None? || proposal.id in rejected {
      return;
    }
    var emailBody := msg.full.value.Body();
    var parsedData := AIService.ParseProposalFromEmail(emailBody);
    db.proposals := db.proposals[k := ReceiveReply(proposal, emailBody, parsedData, now)];
  }

  /** `processPendingProposals`: find the pending proposals (return at once when there are
      none), then settle each one in turn; an error on one proposal is caught and the loop
      goes on with the next. */
  method ProcessPendingProposals(db: Database, messages: seq<InboxMessage>, now: Time, rejected: set<Id>)
    modifies db
    ensures db.vendors == old(db.vendors) && db.rfps == old(db.rfps)
    ensures db.proposals == ProcessPendingSpec(old(db.proposals), db.vendors, messages, now, rejected)
    ensures old(db.Valid()) ==> db.Valid()
  {
    var pending := PendingIndices(db.proposals);
    if |pending| == 0 {
      assert db.proposals == ProcessPendingSpec(db.proposals, db.vendors, messages, now, rejected);
      return;
    }
    ghost var before := db.proposals;
    ghost var goal := ProcessPendingSpec(before, db.vendors, messages, now, rejected);
    var j := 0;
    while j < |pending|
      invariant 0 <= j <= |pending|
      invariant db.vendors == old(db.vendors) && db.rfps == old(db.rfps)
      invariant |db.proposals| == |before|
      invariant forall k :: 0 <= k < |before| ==> db.proposals[k] == if k in pending[..j] then goal[k] else before[k]
    {
      var k := pending[j];
      assert k !in pending[..j];
      assert db.proposals[k] == before[k] && goal[k] == PendingOutcome(before[k], db.vendors, messages, now, rejected);
      SettlePending(db, k, messages, now, rejected);
      assert pending[..j + 1] == pending[..j] + [k];
      j := j + 1;
    }
    assert pending[..j] == pending;
  }

  // ---------------------------------------------------------------------------
  // listInboxEmails

  /** One line of the inbox listing. */
  datatype EmailSummary = EmailSummary(messageId: string, from: string, subject: string, date: string)

  /** A header's first value, or 'N/A' when the header is missing. */
  function OrNA(v: Option<string>): string {
    if v.Some? then v.value else "N/A"
  }

  function Summarize(h: Headers): EmailSummary {
    EmailSummary(OrNA(h.messageId), OrNA(h.from), OrNA(h.subject), OrNA(h.date))
  }

  /** The messages that have a HEADER part. */
  function HasHeaderPart(): InboxMessage -> bool {
    (m: InboxMessage) => m.header.Some?
  }

  /** The HEADER parts of the messages that have one, in inbox order. */
  function HeaderParts(msgs: seq<InboxMessage>): (r: seq<Headers>)
    ensures |r| <= |msgs|
    ensures forall n :: 0 <= n < |r| ==> exists j :: 0 <= j < |msgs| && msgs[j].header == Some(r[n])
  {
    if msgs == [] then []
    else
      var init := HeaderParts(msgs[..|msgs| - 1]);
      assert forall n :: 0 <= n < |init| ==> exists j :: 0 <= j < |msgs| - 1 && msgs[j].header == Some(init[n]);
      var last := msgs[|msgs| - 1];
      if last.header.Some? then init + [last.header.value] else init
  }

  /** The listing is complete: one header per message that has a HEADER part, the n-th
      being that of the n-th such message. */
  lemma {:induction false} HeaderPartsComplete(msgs: seq<InboxMessage>)
    ensures |HeaderParts(msgs)| == |Filter(msgs, HasHeaderPart())|
    ensures forall n :: 0 <= n < |HeaderParts(msgs)| ==> Filter(msgs, HasHeaderPart())[n].header == Some(HeaderParts(msgs)[n])
  {
    if msgs != [] {
      var init, last := msgs[..|msgs| - 1], msgs[|msgs| - 1];
      HeaderPartsComplete(init);
      assert msgs == init + [last];
      FilterAppend(init, [last], HasHeaderPart());
    }
  }

  /** The listing is built message by message: the lines for two batches are the lines
      for the first followed by the lines for the second. */
  lemma {:induction false} HeaderPartsAppend(a: seq<InboxMessage>, b: seq<InboxMessage>)
    ensures HeaderParts(a + b) == HeaderParts(a) + HeaderParts(b)
    decreases |b|
  {
    if b != [] {
      var b' := b[..|b| - 1];
      assert (a + b)[..|a + b| - 1] == a + b';
      HeaderPartsAppend(a, b');
    } else {
      assert a + b == a;
    }
  }

  /** The listing over one more message: the listing so far, then that message's HEADER
      part if it has one. */
  lemma HeaderPartsSnoc(msgs: seq<InboxMessage>, i: nat)
    requires i < |msgs|
    ensures HeaderParts(msgs[..i + 1])
      == HeaderParts(msgs[..i]) + if msgs[i].header.Some? then [msgs[i].header.value] else []
  {
    assert msgs[..i + 1][..i] == msgs[..i];
  }

  /** A listing built from `HeaderParts` summarises, in order, exactly the messages that
      have a HEADER part. */
  lemma SummariesOfHeaderMessages(messages: seq<InboxMessage>, emailList: seq<EmailSummary>)
    requires |emailList| == |HeaderParts(messages)|
    requires forall n :: 0 <= n < |emailList| ==> emailList[n] == Summarize(HeaderParts(messages)[n])
    ensures |emailList| == |Filter(messages, HasHeaderPart())|
    ensures forall n :: 0 <= n < |emailList| ==>
      emailList[n] == Summarize(Filter(messages, HasHeaderPart())[n].header.value)
  {
    HeaderPartsComplete(messages);
  }

  /** `listInboxEmails`: one line per message that has a HEADER part, in inbox order, with
      'N/A' for each missing Message-ID, From, Subject or Date. */
  method ListInboxEmails(messages: seq<InboxMessage>) returns (emailList: seq<EmailSummary>)
    ensures |emailList| == |HeaderParts(messages)|
    ensures forall n :: 0 <= n < |emailList| ==> emailList[n] == Summarize(HeaderParts(messages)[n])
    ensures |emailList| == |Filter(messages, HasHeaderPart())|
    ensures forall n :: 0 <= n < |emailList| ==>
      emailList[n] == Summarize(Filter(messages, HasHeaderPart())[n].header.value)
  {
    emailList := [];
    var i := 0;
    while i < |messages|
      invariant 0 <= i <= |messages|
      invariant |emailList| == |HeaderParts(messages[..i])|
      invariant forall n :: 0 <= n < |emailList| ==> emailList[n] == Summarize(HeaderParts(messages[..i])[n])
    {
      var msg := messages[i];
      HeaderPartsSnoc(messages, i);
      if msg.header.Some? {
        var headers := msg.header.value;
        emailList := emailList + [Summarize(headers)];
      }
      i := i + 1;
    }
    assert messages[..|messages|] == messages;
    SummariesOfHeaderMessages(messages, emailList);
  }
}
