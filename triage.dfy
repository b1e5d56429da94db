/**
 * The triage page: one candidate at a time is pulled from the developer directory
 * and accepted into the store or rejected. The page state is four fields
 * (current candidate, loading flag, error message, exhausted flag); the directory
 * is an oracle that answers each fetch attempt with a scripted response.
 */
module Triage {
  import opened Candidates
  import opened AcceptanceStore

  /** The message shown when a directory lookup throws. */
  const FetchErrorMessage := "Error fetching candidate. Please try again."

  /** What one fetch attempt gets back from the directory. */
  datatype Response =
    | NoUsers                            // the user listing is empty or null
    | Detail(detail: Option<Candidate>)  // the detail lookup for the listing's first user
    | Failed                             // either lookup threw

  /** A detail record is usable when it exists and has a non-empty login. */
  predicate IsComplete(d: Option<Candidate>): (ok: bool)
    ensures d.None? ==> !ok
    ensures d.Some? ==> (ok <==> |d.value.login| > 0)
  {
    d.Some? && d.value.login != ""
  }

  /** A response that makes the fetch start over with the next user. */
  predicate Incomplete(r: Response): (retry: bool)
    ensures retry ==> r.Detail?
    ensures r.Detail? ==> (retry <==> r.detail.None? || r.detail.value.login == "")
  {
    r.Detail? && !IsComplete(r.detail)
  }

  /** The four state fields of the page. */
  datatype Session = Session(candidate: Option<Candidate>, loading: bool, error: Option<string>, noMoreCandidates: bool)

  /** The state before the mount effect issues the first fetch. */
  const Initial := Session(None, true, None, false)

  /** Every fetch (the retry included) starts by raising `loading` and clearing `error`. */
  function Begin(s: Session): (r: Session)
    ensures r.loading && r.error == None
    ensures r.candidate == s.candidate && r.noMoreCandidates == s.noMoreCandidates
  {
    s.(loading := true, error := None)
  }

  /** How a response that ends a fetch updates the state. */
  function Settle(s: Session, r: Response): (t: Session)
    ensures !Incomplete(r) ==> !t.loading
    ensures t.candidate == s.candidate || (r.Detail? && IsComplete(r.detail) && t.candidate == r.detail)
    ensures t.noMoreCandidates <==> s.noMoreCandidates || r == NoUsers
    ensures t.error != s.error ==> r == Failed && t.error == Some(FetchErrorMessage)
  {
    match r
    case NoUsers => s.(noMoreCandidates := true, loading := false)
    case Failed => s.(loading := false, error := Some(FetchErrorMessage))
    case Detail(d) => if IsComplete(d) then s.(candidate := d, loading := false) else s
  }

  /** The state after a fetch, and how many scripted responses it used. */
  datatype FetchResult = FetchResult(session: Session, consumed: nat)

  /**
   * One call of the fetch routine against the responses the directory will give:
   * incomplete details are skipped by fetching again; when the script runs out
   * during such retries the page is still loading.
   */
  function Fetch(s: Session, script: seq<Response>): (r: FetchResult)
    ensures r.consumed <= |script|
    decreases |script|
  {
    var b := Begin(s);
    if script == [] then FetchResult(b, 0)
    else if Incomplete(script[0]) then
      var rest := Fetch(b, script[1..]);
      FetchResult(rest.session, rest.consumed + 1)
    else FetchResult(Settle(b, script[0]), 1)
  }

  /** The number of incomplete details at the head of the script. */
  function LeadingIncomplete(script: seq<Response>): (k: nat)
    ensures k <= |script|
    ensures forall i :: 0 <= i < k ==> Incomplete(script[i])
    ensures k < |script| ==> !Incomplete(script[k])
  {
    if script == [] || !Incomplete(script[0]) then 0 else 1 + LeadingIncomplete(script[1..])
  }

  /** A fetch skips exactly the leading incomplete details, then the first other response decides it. */
  lemma {:induction false} FetchSkipsIncomplete(s: Session, script: seq<Response>)
    ensures var k := LeadingIncomplete(script);
            Fetch(s, script) ==
              if k == |script| then FetchResult(Begin(s), k)
              else FetchResult(Settle(Begin(s), script[k]), k + 1)
    decreases |script|
  {
    if script != [] && Incomplete(script[0]) {
      FetchSkipsIncomplete(Begin(s), script[1..]);
    }
  }

  /** The page is left loading exactly when every response the directory gives is incomplete. */
  lemma FetchLoadingIffAllIncomplete(s: Session, script: seq<Response>)
    ensures Fetch(s, script).session.loading <==> forall i :: 0 <= i < |script| ==> Incomplete(script[i])
  {
    FetchSkipsIncomplete(s, script);
  }

  /** The error is cleared, unless the deciding lookup threw, in which case it is the fixed message and loading is off. */
  lemma FetchErrorOnlyOnFailure(s: Session, script: seq<Response>)
    ensures var r := Fetch(s, script);
            r.session.error == (if r.consumed > 0 && script[r.consumed - 1] == Failed then Some(FetchErrorMessage) else None)
    ensures var r := Fetch(s, script);
            r.session.error.Some? ==> !r.session.loading && r.session.candidate == s.candidate
  {
    FetchSkipsIncomplete(s, script);
  }

  /** An empty listing sets the exhausted flag and clears loading, keeping the old candidate. */
  lemma FetchEmptyListing(s: Session, script: seq<Response>)
    requires LeadingIncomplete(script) < |script| && script[LeadingIncomplete(script)] == NoUsers
    ensures var r := Fetch(s, script).session;
            r.noMoreCandidates && !r.loading && r.error == None && r.candidate == s.candidate
  {
    FetchSkipsIncomplete(s, script);
  }

  /** No fetch ever resets the exhausted flag; it is raised only by an empty listing. */
  lemma FetchNeverResetsExhausted(s: Session, script: seq<Response>)
    ensures var r := Fetch(s, script);
            r.session.noMoreCandidates <==> s.noMoreCandidates || (r.consumed > 0 && script[r.consumed - 1] == NoUsers)
  {
    FetchSkipsIncomplete(s, script);
  }

  /**
   * Only a complete detail becomes the current candidate: the candidate is either
   * unchanged or the complete detail of the last response used, and all earlier
   * responses used were incomplete details that were skipped.
   */
  lemma FetchCandidateIsComplete(s: Session, script: seq<Response>)
    ensures var r := Fetch(s, script);
            r.session.candidate == s.candidate ||
            (r.consumed > 0 && IsComplete(r.session.candidate) && script[r.consumed - 1] == Detail(r.session.candidate))
    ensures var r := Fetch(s, script);
            forall i :: 0 <= i < r.consumed - 1 ==> Incomplete(script[i])
    ensures var r := Fetch(s, script);
            r.consumed > 0 && Incomplete(script[r.consumed - 1]) ==> r.consumed == |script| && r.session.loading
  {
    FetchSkipsIncomplete(s, script);
  }

  /** What the page renders: the branches are tried in the order loading, error, exhausted, candidate. */
  datatype View = LoadingView | ErrorView(message: string) | ExhaustedView | CandidateView(shown: Candidate) | NoCandidateView

  /** The render branch chosen for a state (an empty error string is falsy and shows no error). */
  function ViewOf(s: Session): (v: View)
    ensures v.ErrorView? ==> s.error == Some(v.message)
    ensures v.CandidateView? ==> s.candidate == Some(v.shown)
  {
    if s.loading then LoadingView
    else if s.error.Some? && s.error.value != "" then ErrorView(s.error.value)
    else if s.noMoreCandidates then ExhaustedView
    else if s.candidate.Some? then CandidateView(s.candidate.value)
    else NoCandidateView
  }

  /** The page invariant: the current candidate is a complete profile, and the only error is the fixed message. */
  predicate Consistent(s: Session)
  {
    (s.candidate.Some? ==> s.candidate.value.login != "") &&
    (s.error.Some? ==> s.error.value == FetchErrorMessage)
  }

  /** A consistent state renders the fixed error message and only complete profiles. */
  lemma ConsistentView(s: Session)
    requires Consistent(s)
    ensures ViewOf(s).ErrorView? ==> ViewOf(s).message == FetchErrorMessage
    ensures ViewOf(s).CandidateView? ==> ViewOf(s).shown.login != ""
  {
  }

  /** A fetch keeps the state consistent, whatever the directory answers. */
  lemma FetchKeepsConsistent(s: Session, script: seq<Response>)
    requires Consistent(s)
    ensures Consistent(Fetch(s, script).session)
  {
    FetchErrorOnlyOnFailure(s, script);
    FetchCandidateIsComplete(s, script);
  }

  /** The view after a fetch, by the response that decided it; an exhausted page never shows a candidate again. */
  lemma ViewAfterFetch(s: Session, script: seq<Response>)
    ensures var r := Fetch(s, script);
            var k := LeadingIncomplete(script);
            ViewOf(r.session) ==
              if k == |script| then LoadingView
              else match script[k]
                case Failed => ErrorView(FetchErrorMessage)
                case NoUsers => ExhaustedView
                case Detail(d) => if s.noMoreCandidates then ExhaustedView else CandidateView(d.value)
  {
    FetchSkipsIncomplete(s, script);
  }

  /** Once the listing has come back empty, no later fetch brings a candidate onto the screen. */
  lemma ExhaustedIsFinal(s: Session, script: seq<Response>)
    requires s.noMoreCandidates
    ensures !ViewOf(Fetch(s, script).session).CandidateView?
  {
    FetchNeverResetsExhausted(s, script);
  }

  /** The first user's detail is absent: the next user is looked up and, being complete, shown. */
  lemma ScenarioAbsentDetailSkipped(s: Session, b: Candidate)
    requires b.login != "" && !s.noMoreCandidates
    ensures var r := Fetch(s, [Detail(None), Detail(Some(b))]);
            r.consumed == 2 && ViewOf(r.session) == CandidateView(b)
  {
  }

  /** The scripted directory: each lookup answers with the next response. */
  class Directory {
    var pending: seq<Response>

    constructor (script: seq<Response>)
      ensures pending == script
    {
      pending := script;
    }

    /** Answers one fetch attempt. */
    method Next() returns (r: Response)
      requires pending != []
      modifies this
      ensures r == old(pending)[0] && pending == old(pending)[1..]
    {
      r := pending[0];
      pending := pending[1..];
    }
  }

  /** The triage page, its four state fields, and the storage slot and directory it talks to. */
  class TriageController {
    var candidate: Option<Candidate>
    var loading: bool
    var error: Option<string>
    var noMoreCandidates: bool
    const store: Store
    const directory: Directory

    /** The page state as a value. */
    function State(): Session
      reads this
    {
      Session(candidate, loading, error, noMoreCandidates)
    }

    /** The controller's invariant: its state is consistent. */
    ghost predicate Valid()
      reads this
    {
      Consistent(State())
    }

    /** The branch the page renders: an error view shows the fixed message, a card shows a complete profile. */
    function CurrentView(): (v: View)
      reads this
      requires Valid()
      ensures v == ViewOf(State())
      ensures v.ErrorView? ==> v.message == FetchErrorMessage
      ensures v.CandidateView? ==> v.shown.login != ""
    {
      ConsistentView(State());
      ViewOf(State())
    }

    constructor (store: Store, directory: Directory)
      ensures Valid() && State() == Initial
      ensures this.store == store && this.directory == directory
    {
      candidate, loading, error, noMoreCandidates := None, true, None, false;
      this.store := store;
      this.directory := directory;
    }

    /** `fetchCandidate`, with the retry on an incomplete profile as a loop over the directory's answers. */
    method FetchCandidate() returns (consumed: nat)
      requires Valid()
      modifies this, directory
      ensures Valid()
      ensures Fetch(old(State()), old(directory.pending)) == FetchResult(State(), consumed)
      ensures directory.pending == old(directory.pending)[consumed..]
    {
      ghost var start := State();
      ghost var script := directory.pending;
      loading := true;
      error := None;
      consumed := 0;
      var waiting := true;
      while waiting && directory.pending != []
        invariant consumed <= |script| && directory.pending == script[consumed..]
        invariant Valid()
        invariant waiting ==> loading && error == None
        invariant waiting ==>
          Fetch(start, script) == FetchResult(Fetch(State(), directory.pending).session, Fetch(State(), directory.pending).consumed + consumed)
        invariant !waiting ==> Fetch(start, script) == FetchResult(State(), consumed)
        decreases |directory.pending|
      {
        var response := directory.Next();
        consumed := consumed + 1;
        match response {
          case NoUsers =>
            noMoreCandidates := true;
            loading := false;
            waiting := false;
          case Failed =>
            error := Some(FetchErrorMessage);
            loading := false;
            waiting := false;
          case Detail(d) =>
            if IsComplete(d) {
              candidate := d;
              loading := false;
              waiting := false;
            } else {
              // the fetch issued again starts as every fetch does
              loading := true;
              error := None;
            }
        }
      }
    }

    /**
     * `saveCandidate` (Accept): with no current candidate, or when the stored text does
     * not decode, nothing changes and no fetch follows; otherwise the store gets the
     * candidate unless its id is already there, and the next candidate is fetched.
     */
    method SaveCandidate() returns (consumed: nat)
      requires Valid()
      modifies this, directory, store
      ensures Valid()
      ensures old(candidate).None? || Decode(old(store.slot)).None? ==>
        State() == old(State()) && store.slot == old(store.slot) &&
        directory.pending == old(directory.pending) && consumed == 0
      ensures old(candidate).Some? && Decode(old(store.slot)).Some? ==>
        store.slot == Holds(AppendIfAbsent(Decode(old(store.slot)).value, old(candidate).value)) &&
        Fetch(old(State()), old(directory.pending)) == FetchResult(State(), consumed) &&
        directory.pending == old(directory.pending)[consumed..]
    {
      consumed := 0;
      if candidate.None? {
        return;
      }
      var c := candidate.value;
      var stored := Decode(store.slot);
      if stored.None? {
        return;
      }
      var list := stored.value;
      if !HasId(list, c.id) {
        store.slot := Holds(list + [c]);
      }
      consumed := FetchCandidate();
    }

    /** `saveTestCandidate`: appends the fixed test profile without any duplicate check. */
    method SaveTestCandidate()
      modifies store
      ensures Decode(old(store.slot)).Some? ==> store.slot == Holds(AppendTest(Decode(old(store.slot)).value))
      ensures Decode(old(store.slot)).None? ==> store.slot == old(store.slot)
    {
      var stored := Decode(store.slot);
      if stored.Some? {
        store.slot := Holds(stored.value + [TestCandidate]);
      }
    }

    /** `rejectCandidate` (Reject): fetches the next candidate; the store is not touched. */
    method RejectCandidate() returns (consumed: nat)
      requires Valid()
      modifies this, directory
      ensures Valid()
      ensures Fetch(old(State()), old(directory.pending)) == FetchResult(State(), consumed)
      ensures directory.pending == old(directory.pending)[consumed..]
    {
      consumed := FetchCandidate();
    }
  }
}
