# AerChain procurement core, modelled in Dafny

AerChain is a small procurement app. A buyer drafts an RFP (request for proposal), sends it to vendors by e-mail, and collects their replies as proposals. An AI service parses the replies and recommends the cheapest vendor. This project models the parts of it that decide things:

- **Reply correlation (`checkInbox`).** An unread reply is matched to a stored proposal by the RFP id in its subject and by the sender's address. The matched proposal, whatever its status, becomes `received`.
- **Pending proposals (`processPendingProposals`).** Each pending proposal is matched to the first mailbox message carrying its Message-ID.
- **Inbox listing (`listInboxEmails`).** One line per message with a HEADER part.
- **Raw e-mail intake (`processRawEmail`).** This normalises the sender and resolves the RFP, first by In-Reply-To and then by the subject pattern. It then finds or creates the vendor and creates a pending proposal.
- **Simulated reply (`simulateVendorResponse`).** An HTTP handler that validates its input, finds the proposal and overwrites it with the reply.
- **The AI stubs.** Two fixed records, and the lowest-price rule of `compareProposals`.
- **The front end's selection logic.** The searchable multi-select list: search, toggle, remove, Select All, Clear and the item label. The Send RFP page: vendor toggle, the guards and log lines of Send, Reset, and the newest-first log view.

### Modelling choices

- **Database.** Modelled as a class `Models.Database` with one `seq` field per collection. Each back-end operation is a method that `modifies` it. Each method is proved equal to a pure function of the old state (`CheckInboxSpec`, `ProcessPendingSpec`, `RawEmailEffect`, `SimulateEffect`), and the promised properties are lemmas about those functions.
- **Mongoose `findOne`.** Modelled as "the first document that matches".
- **Mailbox messages.** Modelled as records the mail parser has already produced.
- **Failures the source catches or rethrows.** A rejected save is an input: a set of UIDs, a set of proposal ids, or a flag. A message whose parsing would throw is an explicit outcome.
- **Front-end handlers.** Pure functions on the selection, because each one builds a new array and hands it to `onChange` or a state setter.

### Where the model deliberately follows the code

- **`processRawEmail` never stores an AI parse.** `parseProposalFromEmail` is called at backend/src/utils/EmailParse.js:42 but is neither defined nor imported in that file. The call throws, and the `{ raw }` fallback at line 44 is always taken, so the model stores `RawOnly(body)`.
- **Bracketed subjects keep the "RFP" prefix.** The subject pattern of backend/src/utils/EmailParse.js:24 captures "RFP-x" from a subject "[RFP-x]". The `EmailParse.BracketedSubjectCandidate` lemma proves this. `EmailParse.BracketedSubjectFindsNoRfp` proves that, with ObjectId ids, such a subject never finds an RFP.
- **`sentMessageId` is not in the RFP schema.** The RFP schema (backend/src/models/Rfp.model.js:10-19) does not declare it, yet the In-Reply-To lookup queries it. `Models.Rfp` carries it as an optional field, so the lookup can be modelled.
- **Fields outside the proposal schema are dropped.** `processRawEmail` builds a document with `vendorEmail`, `subject`, `inReplyTo` and `rawBody`, none of which the proposal schema declares. A strict schema drops them on create. `EmailParse.ProposalDoc` is the built document and `EmailParse.StoredProposal` is what is stored.
- **Toggling twice does not always restore the selection.** For a selected id that is not last, toggling twice moves the id to the end (`Selections.ToggleTwiceMovesToEnd`). For a repeat-free selection, the original comes back exactly when the id was absent or last (`Selections.ToggleTwiceRestores`).

## Model

| member | source | states |
|---|---|---|
| Common.Normalize | backend/src/utils/EmailParse.js:11 | `trim().toLowerCase()` yields a string with no white space at either end and no upper-case letter |
| Common.NormalizeIdempotent | backend/src/utils/EmailParse.js:11 | normalising an address twice gives the same result as normalising it once |
| Common.Trim | backend/src/models/Vendor.model.js:4-8 | the result is the input with white space removed from both ends, and only there |
| Common.FirstTruthy | backend/src/service/EmailReceiver.service.js:87 | `a \|\| b \|\| ''`: the first non-empty present string, else the empty string |
| Common.Contains | backend/src/service/EmailReceiver.service.js:55 | `includes` holds exactly when the needle occurs at some position |
| Common.ToLower | frontend/src/components/MultiSelect.jsx:31 | lower-casing keeps the length and lowers each character |
| Common.FindFirst | backend/src/controllers/Email.controller.js:15 | `findOne` gives the first matching position; there is none exactly when nothing matches |
| Common.NatToString | frontend/src/pages/SendRFP.jsx:43 | `String(n)` of a count: decimal digits without a leading zero that denote `n` |
| Common.IntToString | frontend/src/components/MultiSelect.jsx:61 | `String(n)` of an integer: a minus sign exactly when negative, then digits, denoting `n` |
| Models.RawOnly | backend/src/utils/EmailParse.js:44 | the fallback parse holds the raw text and no summary or price |
| Models.ReceiveReply | backend/src/service/EmailReceiver.service.js:92-97 | the update keeps the document's identity, sets status `received`, the reply body, the parse, its summary and the receipt time |
| Models.CreateVendor | backend/src/models/Vendor.model.js:3-17 | name trimmed, e-mail trimmed and lower-cased; rejected exactly when either is empty afterwards; a created vendor is well formed |
| Models.WellFormedVendorIsFixed | backend/src/models/Vendor.model.js:3-17 | a stored vendor is unchanged by the schema's setters |
| Models.TrimIdempotent | backend/src/models/Vendor.model.js:4-8 | trimming a trimmed name changes nothing |
| Models.VendorByEmailIsUnique | backend/src/models/Vendor.model.js:19 | under the unique index the vendor found by address is the only one with it |
| AIService.GenerateRfpFromText | backend/src/service/AI.service.js:8-20 | the text is echoed as `raw_input`; every other field is the fixed draft |
| AIService.ParseProposalFromEmail | backend/src/service/AI.service.js:24-32 | every reply parses to the same record: price 35000, 20 days, "1 year", no line items, summary "Stub parsed proposal" |
| AIService.ChoiceStep | backend/src/service/AI.service.js:38-42 | one round of the fold keeps the choice the lowest-price, earliest-on-ties choice so far |
| AIService.LowestPriceChoiceUnique | backend/src/service/AI.service.js:38-42 | the lowest-price choice is unique, so the recommendation is determined |
| AIService.AllPricedChoiceIsMinimum | backend/src/service/AI.service.js:38-42 | with every price present, no proposal is cheaper than the choice and every earlier one is strictly dearer |
| AIService.CompareProposals | backend/src/service/AI.service.js:35-54 | no recommendation exactly for an empty list; otherwise the vendor of the lowest-price choice; one score of 50 per proposal, in order |
| EmailReceiver.ExtractRfpIdSpec | backend/src/service/EmailReceiver.service.js:57-63 | the id comes from the leftmost case-insensitive "RFP-" followed by a hex digit, is the maximal non-empty hex run there, and is missing exactly when no such place exists |
| EmailReceiver.ExtractRfpIdOfPlainSubject | backend/src/service/EmailReceiver.service.js:57-63 | the subject "RFP-" followed by a hex id yields that id |
| EmailReceiver.CorrelateReply | backend/src/service/EmailReceiver.service.js:45-84 | a match names an existing proposal |
| EmailReceiver.CorrelateReplySound | backend/src/service/EmailReceiver.service.js:45-84 | a match needs a subject containing "RFP-", an extracted id, a vendor whose address is the sender's after the schema's trim and lower-case setters, and is the first proposal for that RFP and vendor; errors exactly when the source, the From header or its address list is missing |
| EmailReceiver.CorrelateReplyComplete | backend/src/service/EmailReceiver.service.js:66-84 | with unique addresses, a reply whose sender address, trimmed and lower-cased, is that of a vendor with a proposal for the subject's RFP is matched to the first such proposal |
| EmailReceiver.CorrelateStable | backend/src/service/EmailReceiver.service.js:76-79 | updating proposals in place never changes how a message correlates |
| EmailReceiver.AcceptedUids | backend/src/service/EmailReceiver.service.js:97-102 | every listed UID is that of a message that matched and was saved |
| EmailReceiver.InboxStepFlagged | backend/src/service/EmailReceiver.service.js:86-102 | one round flags the message exactly when it matched and its save went through |
| EmailReceiver.CheckInboxKeepsDocuments | backend/src/service/EmailReceiver.service.js:91-97 | after the pass each proposal is the same document, either unchanged or received |
| EmailReceiver.CheckInboxFlagged | backend/src/service/EmailReceiver.service.js:97-102 | the UIDs flagged Seen are exactly the matched, saved messages, in inbox order |
| EmailReceiver.CheckInboxLastReplyWins | backend/src/service/EmailReceiver.service.js:42-110 | each proposal carries the body of the last accepted reply matched to it, and is unchanged if there is none |
| EmailReceiver.CheckInboxIgnoresNonReplies | backend/src/service/EmailReceiver.service.js:55-105 | a batch with no subject containing "RFP-" changes no proposal and flags nothing |
| EmailReceiver.CorrelateMessage | backend/src/service/EmailReceiver.service.js:45-84 | the lookup chain written as early exits computes the correlation |
| EmailReceiver.HandleMessage | backend/src/service/EmailReceiver.service.js:43-109 | one loop round updates the store and the flags as one step of the pass |
| EmailReceiver.CheckInbox | backend/src/service/EmailReceiver.service.js:42-110 | the loop leaves the proposals and flags of the pass; vendors and RFPs are untouched, so a valid database stays valid |
| EmailReceiver.PendingIndices | backend/src/service/EmailReceiver.service.js:143 | the positions of exactly the pending proposals, in increasing order |
| EmailReceiver.ProcessPendingEffect | backend/src/service/EmailReceiver.service.js:176-228 | non-pending proposals and pending ones without a message with their Message-ID are unchanged; a changed one is the same document, received, with the body of the first message with its Message-ID |
| EmailReceiver.ProcessPendingReceives | backend/src/service/EmailReceiver.service.js:183-219 | a pending proposal with an existing vendor, a message with its Message-ID that has a full source, and a save that goes through becomes received, with the body of the first such message and the stub parse |
| EmailReceiver.ProcessPendingIdempotent | backend/src/service/EmailReceiver.service.js:143-228 | a second pass over the same mailbox changes nothing |
| EmailReceiver.SettlePending | backend/src/service/EmailReceiver.service.js:177-227 | one round changes only its proposal, to the proposal's outcome |
| EmailReceiver.ProcessPendingProposals | backend/src/service/EmailReceiver.service.js:137-245 | returns early with nothing pending; the loop leaves exactly the collection where each pending proposal met its outcome; vendors and RFPs are untouched, so a valid database stays valid |
| EmailReceiver.HeaderParts | backend/src/service/EmailReceiver.service.js:264-276 | every listed header is the HEADER part of some message, and there are no more of them than messages |
| EmailReceiver.HeaderPartsComplete | backend/src/service/EmailReceiver.service.js:264-276 | one header per message that has a HEADER part, the n-th being that of the n-th such message |
| EmailReceiver.HeaderPartsAppend | backend/src/service/EmailReceiver.service.js:264-276 | the listing keeps inbox order: two batches list as the first followed by the second |
| EmailReceiver.ListInboxEmails | backend/src/service/EmailReceiver.service.js:249-294 | exactly one summary per message with a HEADER part, the n-th summarising the n-th such message, with 'N/A' for each missing header |
| EmailParse.SenderAddress | backend/src/utils/EmailParse.js:10-11 | the first From address trimmed and lower-cased, or '' when there is none; the result is in normal form |
| EmailParse.SenderName | backend/src/utils/EmailParse.js:36 | a new vendor's name is the display name when non-empty, otherwise the normalised address |
| EmailParse.SubjectCandidate | backend/src/utils/EmailParse.js:24-26 | a candidate is never empty |
| EmailParse.SubjectCandidateLeftmost | backend/src/utils/EmailParse.js:24-26 | a candidate exists exactly when the pattern matches somewhere, and is taken at the leftmost match |
| EmailParse.PlainSubjectCandidate | backend/src/utils/EmailParse.js:24-26 | the subject "RFP-" followed by an id yields the id (group 1) |
| EmailParse.BracketedSubjectCandidate | backend/src/utils/EmailParse.js:24-26 | the subject "[RFP-" + id + "]" yields "RFP-" + id (group 2, prefix kept) |
| EmailParse.ResolveRfp | backend/src/utils/EmailParse.js:13-31 | a found RFP is one of the stored RFPs |
| EmailParse.ResolveRfpSpec | backend/src/utils/EmailParse.js:13-31 | the In-Reply-To lookup takes precedence when it finds an RFP; failing that, a subject naming a candidate finds the first RFP with that id; a found RFP was sent with that Message-ID or has the subject's candidate id; neither header nor subject finds nothing |
| EmailParse.BracketedSubjectFindsNoRfp | backend/src/utils/EmailParse.js:28 | with ObjectId ids and no In-Reply-To, a "[RFP-id]" subject finds no RFP |
| EmailParse.BuildProposalDoc | backend/src/utils/EmailParse.js:48-58 | the document's vendor, address and RFP are as given; body and `{ raw }` parse are the reply text; In-Reply-To falls back to the Message-ID; missing subject and Message-ID become ''; date falls back to now |
| EmailParse.StoredProposal | backend/src/models/Proposal.model.js:4-14 | the stored proposal is pending, created now, and keeps the document's vendor, RFP, parse, Message-ID and date |
| EmailParse.FindOrCreateVendor | backend/src/utils/EmailParse.js:34-37 | the chosen vendor is in the collection |
| EmailParse.FindOrCreateVendorSpec | backend/src/utils/EmailParse.js:34-37 | fails exactly when no vendor has the address and the new one is rejected; reuses an existing vendor unchanged; otherwise appends one; the collection stays valid and the chosen vendor has the address |
| EmailParse.AppendVendorKeepsValid | backend/src/models/Vendor.model.js:3-19 | appending a well-formed vendor with a new address and id keeps names, addresses and ids valid and unique |
| EmailParse.RawEmailEffectVendors | backend/src/utils/EmailParse.js:33-37 | the vendors stay valid; the message is rejected exactly when the vendor must be created and cannot be; rejection stores nothing |
| EmailParse.RawEmailEffectProposal | backend/src/utils/EmailParse.js:47-61 | exactly one pending proposal is appended and returned, with the raw parse, the Message-ID, the resolved RFP, and a vendor with the sender's address |
| EmailParse.EnsureVendor | backend/src/utils/EmailParse.js:34-37 | the find-then-create step updates the vendors as the vendor step says |
| EmailParse.ProcessRawEmail | backend/src/utils/EmailParse.js:7-66 | the method's new store and result are those of the intake effect |
| EmailController.StatusCode | backend/src/controllers/Email.controller.js:10-35 | each response kind has its own status: 200, 400, 404, 500 |
| EmailController.SimulateValidates | backend/src/controllers/Email.controller.js:10-12 | 400 exactly when a field is missing or empty, with nothing stored |
| EmailController.SimulateNotFound | backend/src/controllers/Email.controller.js:15-18 | with all fields present, 404 exactly when no proposal has that RFP and vendor, with nothing stored |
| EmailController.SimulateUpdatesMatch | backend/src/controllers/Email.controller.js:21-31 | the first matching proposal and no other is updated and returned |
| EmailController.SimulateSaveFails | backend/src/controllers/Email.controller.js:29-35 | a rejected save stores nothing and yields 500 exactly when the request got that far |
| EmailController.SimulateSecondReplyWins | backend/src/controllers/Email.controller.js:15-29 | there is no status check: a second reply to a received proposal succeeds and overwrites the first |
| EmailController.SimulateVendorResponse | backend/src/controllers/Email.controller.js:6-36 | the handler leaves the proposals and response of the effect and touches nothing else, so a valid database stays valid |
| Selections.RemoveAll | frontend/src/components/MultiSelect.jsx:54-57 | every occurrence of the id goes; every other id keeps all its occurrences |
| Selections.RemoveAllAppend | frontend/src/components/MultiSelect.jsx:56 | removal keeps the order of the remaining ids |
| Selections.RemoveAbsent | frontend/src/components/MultiSelect.jsx:56 | removing an unselected id changes nothing |
| Selections.RemoveAllKeepsNoDuplicates | frontend/src/components/MultiSelect.jsx:56 | removal never creates a repeated id |
| Selections.Toggle | frontend/src/pages/SendRFP.jsx:30-34 | the id is in the result exactly when it was not selected; others keep their membership; an absent id is appended at the end |
| Selections.ToggleKeepsNoDuplicates | frontend/src/pages/SendRFP.jsx:30-34 | toggling keeps a selection free of repeats |
| Selections.ToggleTwiceMovesToEnd | frontend/src/pages/SendRFP.jsx:30-34 | toggling a selected id twice removes it and appends it at the end |
| Selections.ToggleTwiceAbsent | frontend/src/pages/SendRFP.jsx:30-34 | toggling an unselected id twice restores the selection |
| Selections.ToggleTwiceLast | frontend/src/pages/SendRFP.jsx:30-34 | toggling the last id of a repeat-free selection twice restores it |
| Selections.ToggleTwiceRestores | frontend/src/pages/SendRFP.jsx:30-34 | for a repeat-free selection, toggling twice restores it exactly when the id was absent or last |
| MultiSelect.StringOf | frontend/src/components/MultiSelect.jsx:30 | `String` of an undefined value is "undefined" |
| MultiSelect.FilteredItems | frontend/src/components/MultiSelect.jsx:28-35 | an item is shown exactly when its display text or e-mail contains the term case-insensitively |
| MultiSelect.EmptySearchShowsAll | frontend/src/components/MultiSelect.jsx:28-35 | an empty term shows every item, in order |
| MultiSelect.SearchIgnoresCase | frontend/src/components/MultiSelect.jsx:32 | terms that lower-case alike show the same items |
| MultiSelect.SearchKeepsOrder | frontend/src/components/MultiSelect.jsx:28 | the search keeps list order |
| MultiSelect.SelectedItemObjects | frontend/src/components/MultiSelect.jsx:37-39 | an item is listed exactly when its value is selected |
| MultiSelect.ToggleItem | frontend/src/components/MultiSelect.jsx:41-52 | multi mode toggles the id and keeps the dropdown; single mode selects exactly that id and closes it |
| MultiSelect.Added | frontend/src/components/MultiSelect.jsx:167-169 | the appended values are shown values not yet selected, and every such value is appended |
| MultiSelect.SelectAll | frontend/src/components/MultiSelect.jsx:164-171 | the old selection is a prefix, every shown value ends up selected, and nothing else is added |
| MultiSelect.SelectAllIdempotent | frontend/src/components/MultiSelect.jsx:164-171 | Select All twice equals Select All once |
| MultiSelect.FilterKeepsDistinctValues | frontend/src/components/MultiSelect.jsx:168 | filtering items with distinct values keeps them distinct |
| MultiSelect.SelectAllNoDuplicates | frontend/src/components/MultiSelect.jsx:164-171 | with distinct item values, Select All keeps the selection repeat-free |
| MultiSelect.ClearFiltered | frontend/src/components/MultiSelect.jsx:178-187 | exactly the shown values are removed; every other id keeps all its occurrences |
| MultiSelect.ClearAfterSelectAll | frontend/src/components/MultiSelect.jsx:164-187 | Clear after Select All equals Clear alone |
| MultiSelect.BudgetText | frontend/src/components/MultiSelect.jsx:61 | a `null` or zero budget prints as a dash; any other prints as decimal text that denotes the amount |
| MultiSelect.GetDisplayText | frontend/src/components/MultiSelect.jsx:59-64 | without a budget property the label is the raw display value; with one it is the display text, " — ₹" and then the budget text, whose value is the amount (a dash when it is falsy) |
| SendRfp.ToggleVendor | frontend/src/pages/SendRFP.jsx:30-34 | only the vendor selection changes, by a toggle of the id |
| SendRfp.BeginSend | frontend/src/pages/SendRFP.jsx:36-44 | alert "Select RFP" or "Select vendors" exactly when either is missing; otherwise a request for the chosen RFP and vendors, sending set, and one line appended to the log |
| SendRfp.FinishSend | frontend/src/pages/SendRFP.jsx:45-56 | one outcome line appended, sending cleared, selection untouched |
| SendRfp.Reset | frontend/src/pages/SendRFP.jsx:165-168 | no vendors and no RFP are chosen; the log stays |
| SendRfp.ResetBlocksSend | frontend/src/pages/SendRFP.jsx:37 | after Reset, Send only alerts "Select RFP" |
| SendRfp.SendAppendsTwoLines | frontend/src/pages/SendRFP.jsx:41-53 | a completed send appends exactly the sending line and then the outcome line |
| SendRfp.LogOnlyGrows | frontend/src/pages/SendRFP.jsx:41-53 | across any series of actions the old log stays a prefix of the new one |
| SendRfp.LogView | frontend/src/pages/SendRFP.jsx:195-197 | the view is the log reversed, newest first |
| SendRfp.LogViewTwice | frontend/src/pages/SendRFP.jsx:195-197 | reversing the view gives back the stored log in its own order |
| SendRfp.SendShowsOutcomeFirst | frontend/src/pages/SendRFP.jsx:194-198 | after a send the view shows the outcome line, then the sending line |

## Left out

- **Transport and libraries.** IMAP (connect, search, `addFlags`) and `mailparser` are foreign libraries. Messages are records the parser has already produced. A failed `addFlags` is not modelled, so a saved message is always flagged.
- **Mongoose persistence.** `find`, `findOne`, `findById`, `populate`, `save` and `create` are modelled on in-memory sequences.
- **ObjectId casting.** Ids are compared as plain strings. Two consequences follow:
  - upper-case hex ids in a subject are not cast to the stored lower-case form;
  - an id that is not an ObjectId does not raise a CastError. In `checkInbox` such an error would be caught, and in `simulateVendorResponse` it would yield 500.
- **Query edge cases.** `$in` with an undefined Message-ID and Mongoose's `strictQuery` behaviour are not modelled.
- **Clocks and logging.** `new Date()` is a `now` parameter, and console logging is not modelled. The `inboxMessageIds` array of `processPendingProposals` is left out: it is only logged.
- **Out-of-scope services.** The polling timer, the prompt templates, the mailer, the RFP and vendor CRUD controllers and routes, and React rendering are not modelled.
- **Front-end loading and events.** `load()` and the click-outside listener are not modelled.
- **Unicode letters.** `toLowerCase` is modelled on ASCII letters only.
- **Prices.** They are integers. JavaScript floating point and NaN are not modelled beyond "a comparison with a missing price is false".
- **Request fields.** Fields of the `simulateVendorResponse` body are strings or undefined; other JSON types are not modelled.
- **Footer visibility.** `MultiSelect.FooterShown` states when Select All and Clear are visible. `SelectAll` and `ClearFiltered` do not require it.
- **MultiSelect props.** `displayKey` and `valueKey` are fixed: each item carries its display value and its value directly.
- **The Send RFP request.** The request itself is not modelled. The back end's answer is the `SendOutcome` input to `FinishSend`.
- ProcessRawEmail: does not state that `Database.Valid` is kept. That property is proved of the effect, in `EmailParse.RawEmailEffectVendors`, which needs a fresh vendor id; the method's contract equates its new store with that effect.
