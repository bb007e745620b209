/** The stored records (the Mongoose schemas for proposals, vendors and RFPs),
    the already-parsed form of a mailbox message, and the database as an
    object whose collections the back-end operations update in place. */
module Models {
  import opened Common

  /** `status` of a proposal: one of three values, `pending` when not given. */
  datatype ProposalStatus = Pending | Received | Failed

  /** One priced line of a vendor's proposal. */
  datatype LineItem = LineItem(item: string, price: int, quantity: int)

  /** The free-form `parsed` value of a proposal: the fields the AI parser reports,
      each possibly absent, or just the raw text when parsing fell back. */
  datatype Parsed = Parsed(
    totalPrice: Option<int>,
    deliveryDays: Option<int>,
    warranty: Option<string>,
    lineItems: Option<seq<LineItem>>,
    summary: Option<string>,
    raw: Option<string>)

  /** The fallback record `{ raw: text }`. */
  function RawOnly(text: string): (r: Parsed)
    ensures r.raw == Some(text) && r.summary.None? && r.totalPrice.None?
  {
    Parsed(None, None, None, None, None, Some(text))
  }

  /** A stored proposal; `id` is its `_id`. */
  datatype Proposal = Proposal(
    id: Id,
    rfpId: Option<Id>,
    vendorId: Option<Id>,
    status: ProposalStatus,
    rawEmail: Option<string>,
    parsed: Option<Parsed>,
    aiSummary: Option<string>,
    messageId: Option<string>,
    createdAt: Time,
    receivedAt: Option<Time>)

  /** `p.parsed?.total_price`. */
  function Price(p: Proposal): Option<int> {
    if p.parsed.Some? then p.parsed.value.totalPrice else None
  }

  /** Two versions of one stored proposal: the fields that say which document it is agree. */
  predicate SameDocument(p: Proposal, q: Proposal) {
    p.id == q.id && p.rfpId == q.rfpId && p.vendorId == q.vendorId
    && p.messageId == q.messageId && p.createdAt == q.createdAt
  }

  /** The in-place update every reply path applies before saving: status `received`,
      the reply text, the parse result, its summary and the time of receipt. */
  function ReceiveReply(p: Proposal, body: string, parsed: Parsed, now: Time): (q: Proposal)
    ensures SameDocument(p, q)
    ensures q.status == Received && q.rawEmail == Some(body) && q.parsed == Some(parsed)
    ensures q.aiSummary == parsed.summary && q.receivedAt == Some(now)
  {
    p.(status := Received, rawEmail := Some(body), parsed := Some(parsed),
       aiSummary := parsed.summary, receivedAt := Some(now))
  }

  /** A stored vendor; `id` is its `_id`. */
  datatype Vendor = Vendor(id: Id, name: string, email: string, createdAt: Time)

  /** What the vendor schema guarantees of every stored vendor: a required trimmed name
      and a required trimmed, lower-cased e-mail address. */
  predicate WellFormedVendor(v: Vendor) {
    v.name != "" && IsTrimmed(v.name) && v.email != "" && IsNormalized(v.email)
  }

  /** A well-formed vendor is a fixed point of the schema's setters. */
  lemma WellFormedVendorIsFixed(v: Vendor)
    requires WellFormedVendor(v)
    ensures Trim(v.name) == v.name && Normalize(v.email) == v.email
  {
    TrimOfTrimmed(v.name);
    NormalizedIsFixed(v.email);
  }

  /** The vendor collection: every vendor well formed, e-mail addresses unique
      (the schema's unique index) and `_id`s unique. */
  predicate VendorsValid(vs: seq<Vendor>) {
    (forall i :: 0 <= i < |vs| ==> WellFormedVendor(vs[i]))
    && EmailsUnique(vs)
    && (forall i, j :: 0 <= i < j < |vs| ==> vs[i].id != vs[j].id)
  }

  /** The unique index on `email`. */
  predicate EmailsUnique(vs: seq<Vendor>) {
    forall i, j :: 0 <= i < j < |vs| ==> vs[i].email != vs[j].email
  }

  /** `Vendor.create`: the schema setters trim the name and trim and lower-case the
      address, then validation rejects a missing (empty) name or address. */
  function CreateVendor(id: Id, name: string, email: string, now: Time): (r: Option<Vendor>)
    ensures r.Some? ==> WellFormedVendor(r.value)
    ensures r.Some? ==> r.value.id == id && r.value.email == Normalize(email) && r.value.name == Trim(name)
    ensures r.None? <==> Trim(name) == "" || Normalize(email) == ""
  {
    var v := Vendor(id, Trim(name), Normalize(email), now);
    if v.name == "" || v.email == "" then None else Some(v)
  }

  /** Trimming twice is trimming once. */
  lemma TrimIdempotent(s: string)
    ensures Trim(Trim(s)) == Trim(s)
  {
    TrimOfTrimmed(Trim(s));
  }

  /** A stored RFP. The RFP schema declares no `sentMessageId`; the field stands for
      the Message-ID of the sent RFP that reply correlation looks for. */
  datatype Rfp = Rfp(id: Id, title: Option<string>, sentMessageId: Option<string>)

  // ---------------------------------------------------------------------------
  // Mailbox messages, already parsed

  /** One entry of a parsed `From:` header: the address and the display name. */
  datatype MailAddress = MailAddress(address: string, name: string)

  /** The result of parsing a message's full source. */
  datatype ParsedMail = ParsedMail(
    subject: Option<string>,
    from: Option<seq<MailAddress>>,
    text: Option<string>,
    html: Option<string>,
    messageId: Option<string>,
    inReplyTo: Option<string>,
    date: Option<Time>)
  {
    /** `parsed.text || parsed.html || ''`: the reply text handed to the proposal parser. */
    function Body(): string {
      FirstTruthy(text, html)
    }

    /** `from.value[0]`: the first entry of the `From:` header, when there is one. */
    function FirstFrom(): (r: Option<MailAddress>)
      ensures r.Some? <==> from.Some? && |from.value| > 0
      ensures r.Some? ==> r.value == from.value[0]
    {
      if from.Some? && |from.value| > 0 then Some(from.value[0]) else None
    }
  }

  /** The first value of each header the back end reads from a message's HEADER part. */
  datatype Headers = Headers(
    messageId: Option<string>,
    from: Option<string>,
    subject: Option<string>,
    date: Option<string>)

  /** One message as returned by the mailbox search: its UID, its HEADER part (absent when
      the part or its body is missing) and its full source, already parsed (absent when
      the part is missing). */
  datatype InboxMessage = InboxMessage(uid: nat, header: Option<Headers>, full: Option<ParsedMail>)

  // ---------------------------------------------------------------------------
  // Query filters (`findOne` takes the first document that matches)

  /** `{ email }` on vendors. */
  function VendorWithEmail(email: string): Vendor -> bool {
    (v: Vendor) => v.email == email
  }

  /** `{ _id }` on vendors (what `populate('vendorId')` looks up). */
  function VendorWithId(id: Id): Vendor -> bool {
    (v: Vendor) => v.id == id
  }

  /** `{ rfpId, vendorId }` on proposals. */
  function ProposalFor(rfpId: Id, vendorId: Id): Proposal -> bool {
    (p: Proposal) => p.rfpId == Some(rfpId) && p.vendorId == Some(vendorId)
  }

  /** Under the unique index, the vendor `findOne({ email })` returns is the only one
      with that address. */
  lemma VendorByEmailIsUnique(vs: seq<Vendor>, email: string, i: int)
    requires EmailsUnique(vs) && 0 <= i < |vs| && vs[i].email == email
    ensures FindFirst(vs, VendorWithEmail(email)) == Some(i)
  {
  }

  // ---------------------------------------------------------------------------
  // The database

  /** The three collections, updated in place by the back-end operations. */
  class Database {
    var vendors: seq<Vendor>
    var proposals: seq<Proposal>
    var rfps: seq<Rfp>

    ghost predicate Valid()
      reads this
    {
      VendorsValid(vendors)
    }

    constructor (vendors: seq<Vendor>, proposals: seq<Proposal>, rfps: seq<Rfp>)
      requires VendorsValid(vendors)
      ensures Valid()
      ensures this.vendors == vendors && this.proposals == proposals && this.rfps == rfps
    {
      this.vendors := vendors;
      this.proposals := proposals;
      this.rfps := rfps;
    }
  }
}
