/** The page that sends an RFP to vendors: its state, the vendor toggle, the two
    halves of `send` around the request, Reset, and the newest-first log view. */
module SendRfp {
  import opened Common
  import opened Selections

  /** The page's state: the chosen RFP's id (`''` when none), the chosen vendors' ids,
      whether a send is in flight, and the activity log, oldest entry first. */
  datatype PageState = PageState(selectedRfp: string, selectedVendors: seq<Id>, sending: bool, log: seq<string>)

  /** `toggleVendor`: the id is toggled in the vendor selection; nothing else changes. */
  function ToggleVendor(st: PageState, id: Id): (r: PageState)
    ensures r.selectedRfp == st.selectedRfp && r.sending == st.sending && r.log == st.log
    ensures id in r.selectedVendors <==> id !in st.selectedVendors
    ensures forall y :: y != id ==> (y in r.selectedVendors <==> y in st.selectedVendors)
  {
    st.(selectedVendors := Toggle(st.selectedVendors, id))
  }

  /** The log line written before the request. */
  function SendingLine(rfpId: string, vendorCount: nat): string {
    "Sending RFP " + rfpId + " to " + NatToString(vendorCount) + " vendors..."
  }

  /** What pressing Send does first: an alert and nothing else, or the request to make
      together with the state it is made from. */
  datatype SendStart = Alert(message: string) | Request(state: PageState, rfpId: Id, vendorIds: seq<Id>)

  /** The first half of `send`: the two guards, then `sending` is set and the log gets
      one line naming the RFP and the number of vendors. */
  function BeginSend(st: PageState): (r: SendStart)
    ensures r.Alert? <==> st.selectedRfp == "" || |st.selectedVendors| == 0
    ensures r.Alert? ==> r.message == if st.selectedRfp == "" then "Select RFP" else "Select vendors"
    ensures r.Request? ==> r.rfpId == st.selectedRfp && r.vendorIds == st.selectedVendors
    ensures r.Request? ==>
      (r.state.sending && r.state.selectedRfp == st.selectedRfp && r.state.selectedVendors == st.selectedVendors)
    ensures r.Request? ==> |r.state.log| == |st.log| + 1 && r.state.log[..|st.log|] == st.log
  {
    if st.selectedRfp == "" then Alert("Select RFP")
    else if |st.selectedVendors| == 0 then Alert("Select vendors")
    else Request(st.(sending := true, log := st.log + [SendingLine(st.selectedRfp, |st.selectedVendors|)]),
                 st.selectedRfp, st.selectedVendors)
  }

  /** How the request ended: the back end's `sent` and `failed` lists (by length), or a
      thrown error. */
  datatype SendOutcome = Delivered(sent: nat, failed: nat) | RequestFailed

  /** The log line written after the request. */
  function OutcomeLine(o: SendOutcome): string {
    match o
    case Delivered(sent, failed) => "Sent: " + NatToString(sent) + " | Failed: " + NatToString(failed)
    case RequestFailed => "Send failed"
  }

  /** The second half of `send`, applied to the state as it is when the request ends: one
      more log line, then `sending` is cleared. */
  function FinishSend(st: PageState, o: SendOutcome): (r: PageState)
    ensures !r.sending && r.selectedRfp == st.selectedRfp && r.selectedVendors == st.selectedVendors
    ensures |r.log| == |st.log| + 1 && r.log[..|st.log|] == st.log && r.log[|st.log|] == OutcomeLine(o)
  {
    st.(sending := false, log := st.log + [OutcomeLine(o)])
  }

  /** Reset: no vendors and no RFP chosen. */
  function Reset(st: PageState): (r: PageState)
    ensures r.selectedRfp == "" && r.selectedVendors == []
    ensures r.sending == st.sending && r.log == st.log
  {
    st.(selectedVendors := [], selectedRfp := "")
  }

  /** A send with nothing chosen makes no request and shows an alert. */
  lemma ResetBlocksSend(st: PageState)
    ensures BeginSend(Reset(st)) == Alert("Select RFP")
  {
  }

  /** A completed send adds exactly two log lines after the old log: the sending line,
      then the outcome line. */
  lemma SendAppendsTwoLines(st: PageState, o: SendOutcome)
    requires BeginSend(st).Request?
    ensures FinishSend(BeginSend(st).state, o).log
            == st.log + [SendingLine(st.selectedRfp, |st.selectedVendors|), OutcomeLine(o)]
  {
    var s1 := BeginSend(st).state;
    var s2 := FinishSend(s1, o);
    assert s1.log == st.log + [SendingLine(st.selectedRfp, |st.selectedVendors|)];
  }

  /** What the user can do on the page; `Finish` is the request coming back. */
  datatype Action = ToggleAction(id: Id) | SendAction | Finish(o: SendOutcome) | ResetAction

  /** The state after one action. The Send button is disabled while a send is in flight,
      and an alerting Send leaves the state as it was. */
  function Step(st: PageState, a: Action): PageState {
    match a
    case ToggleAction(id) => ToggleVendor(st, id)
    case SendAction =>
      if st.sending then st
      else (match BeginSend(st) case Alert(_) => st case Request(s, _, _) => s)
    case Finish(o) => FinishSend(st, o)
    case ResetAction => Reset(st)
  }

  /** The state after a series of actions. */
  function Run(st: PageState, actions: seq<Action>): PageState
    decreases |actions|
  {
    if actions == [] then st else Run(Step(st, actions[0]), actions[1..])
  }

  /** The log only grows: whatever the user does, the old log stays a prefix of the new one. */
  lemma {:induction false} LogOnlyGrows(st: PageState, actions: seq<Action>)
    ensures |st.log| <= |Run(st, actions).log|
    ensures Run(st, actions).log[..|st.log|] == st.log
    decreases |actions|
  {
    if actions != [] {
      var s1 := Step(st, actions[0]);
      assert |st.log| <= |s1.log| && s1.log[..|st.log|] == st.log;
      LogOnlyGrows(s1, actions[1..]);
      var fin := Run(s1, actions[1..]).log;
      assert fin[..|st.log|] == fin[..|s1.log|][..|st.log|];
    }
  }

  /** The log as displayed, `log.slice().reverse()`: a reversed copy, newest entry first. */
  function LogView(log: seq<string>): (r: seq<string>)
    ensures |r| == |log|
    ensures forall i :: 0 <= i < |log| ==> r[i] == log[|log| - 1 - i]
  {
    if log == [] then [] else LogView(log[1..]) + [log[0]]
  }

  /** Reversing the displayed copy gives the stored log back, in its own order. */
  lemma LogViewTwice(log: seq<string>)
    ensures LogView(LogView(log)) == log
  {
  }

  /** After a completed send the view shows the outcome line first and the sending line
      second. */
  lemma SendShowsOutcomeFirst(st: PageState, o: SendOutcome)
    requires BeginSend(st).Request?
    ensures var v := LogView(FinishSend(BeginSend(st).state, o).log);
      v[0] == OutcomeLine(o) && v[1] == SendingLine(st.selectedRfp, |st.selectedVendors|)
  {
    SendAppendsTwoLines(st, o);
  }
}
