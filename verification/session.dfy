/**
 * The page session: the fetched list, the displayed list and the no-results
 * flag, changed by three events: the fetch succeeding, the fetch failing and
 * the user submitting the search form.
 */
module Session {
  import opened Validation
  import opened Search

  /** The component state: the canonical list, the displayed list and the no-results flag. */
  datatype State = State(todos: seq<Todo>, filteredTodos: seq<Todo>, noResults: bool)

  /** Both lists empty and the flag down, before anything has happened. */
  const Initial: State := State([], [], false)

  datatype Event =
    | FetchSucceeded(data: seq<Todo>)
    | FetchFailed
    | SearchSubmitted(query: string)

  /** The search handler: filter the full canonical list and raise the flag when nothing matches. */
  function HandleSearch(s: State, query: string): (r: State)
    ensures r.todos == s.todos
    ensures forall t :: t in r.filteredTodos <==> t in s.todos && Matches(t, query)
    ensures r.noResults <==> forall t :: t in s.todos ==> !Matches(t, query)
  {
    var results := Filter(s.todos, query);
    assert results != [] ==> results[0] in results;
    State(s.todos, results, |results| == 0)
  }

  /** One event applied to the state. */
  function Step(s: State, e: Event): (r: State)
    ensures e.FetchSucceeded? ==> r.todos == e.data && r.filteredTodos == e.data && r.noResults == s.noResults
    ensures e.FetchFailed? ==> r == s
    ensures e.SearchSubmitted? && |e.query| < 3 ==> r == s
    ensures e.SearchSubmitted? && |e.query| >= 3 ==> r == HandleSearch(s, e.query)
  {
    match e
    case FetchSucceeded(data) => s.(todos := data, filteredTodos := data)
    case FetchFailed => s
    case SearchSubmitted(query) => if Accepted(query) then HandleSearch(s, query) else s
  }

  /** A sequence of events applied in order. */
  function Run(s: State, events: seq<Event>): State
    decreases |events|
  {
    if events == [] then s else Run(Step(s, events[0]), events[1..])
  }

  /** What the page shows: the displayed list is an order-preserving subsequence of the canonical list. */
  ghost predicate DisplayConsistent(s: State) {
    IsSubsequence(s.filteredTodos, s.todos)
  }

  lemma StepKeepsDisplayConsistent(s: State, e: Event)
    requires DisplayConsistent(s)
    ensures DisplayConsistent(Step(s, e))
  {
    match e
    case FetchSucceeded(data) => SubsequenceOfSelf(data);
    case FetchFailed =>
    case SearchSubmitted(query) => FilterIsSubsequence(s.todos, query);
  }

  /** Whatever events happen, the displayed list stays a subsequence of the canonical list. */
  lemma {:induction false} RunKeepsDisplayConsistent(s: State, events: seq<Event>)
    requires DisplayConsistent(s)
    ensures DisplayConsistent(Run(s, events))
    decreases |events|
  {
    if events != [] {
      StepKeepsDisplayConsistent(s, events[0]);
      RunKeepsDisplayConsistent(Step(s, events[0]), events[1..]);
    }
  }

  lemma InitialIsDisplayConsistent()
    ensures DisplayConsistent(Initial)
  {
  }

  predicate OnlySearches(events: seq<Event>) {
    forall i :: 0 <= i < |events| ==> events[i].SearchSubmitted?
  }

  /** Searching never changes the canonical list. */
  lemma {:induction false} SearchesKeepTodos(s: State, events: seq<Event>)
    requires OnlySearches(events)
    ensures Run(s, events).todos == s.todos
    decreases |events|
  {
    if events != [] {
      assert OnlySearches(events[1..]);
      SearchesKeepTodos(Step(s, events[0]), events[1..]);
    }
  }

  /**
   * An accepted search does not depend on earlier searches: after any run of
   * searches, submitting `query` gives the state that submitting it straight
   * away would have given.
   */
  lemma LastSearchIgnoresEarlierSearches(s: State, events: seq<Event>, query: string)
    requires OnlySearches(events) && |query| >= 3
    ensures Step(Run(s, events), SearchSubmitted(query)) == Step(s, SearchSubmitted(query))
  {
    SearchesKeepTodos(s, events);
  }

  /** Submitting the same query twice gives the same state as submitting it once. */
  lemma SubmitTwiceIsSubmitOnce(s: State, query: string)
    ensures Step(Step(s, SearchSubmitted(query)), SearchSubmitted(query)) == Step(s, SearchSubmitted(query))
  {
  }

  /** After an accepted search the flag is up exactly when the displayed list is empty. */
  lemma NoResultsIffEmpty(s: State, query: string)
    requires |query| >= 3
    ensures var r := Step(s, SearchSubmitted(query));
      r.noResults <==> r.filteredTodos == []
  {
  }

  /** A failed fetch leaves the page in its initial state: no todos, nothing displayed, flag down. */
  lemma FailedFetchKeepsInitial()
    ensures Step(Initial, FetchFailed) == State([], [], false)
  {
  }

  /** An accepted search before the fetch completes filters the empty list and raises the flag. */
  lemma SearchBeforeFetch(query: string)
    requires |query| >= 3
    ensures Step(Initial, SearchSubmitted(query)) == State([], [], true)
  {
  }

  /**
   * The fetch does not lower the flag: a search that found nothing before
   * the fetch completed leaves the flag up over the freshly fetched list.
   */
  lemma LateFetchKeepsNoResults(query: string, data: seq<Todo>)
    requires |query| >= 3
    ensures Run(Initial, [SearchSubmitted(query), FetchSucceeded(data)]) == State(data, data, true)
  {
    var events := [SearchSubmitted(query), FetchSucceeded(data)];
    var afterSearch := Step(Initial, events[0]);
    assert afterSearch == State([], [], true);
    assert events[1..] == [FetchSucceeded(data)];
    assert Run(afterSearch, events[1..]) == Run(Step(afterSearch, FetchSucceeded(data)), []);
  }

  /** A worked session: the fetch delivers three todos and the search "buy" displays the two shopping ones. */
  lemma FetchThenSearchExample()
    ensures Run(Initial, [FetchSucceeded([Milk, Dog, Bread]), SearchSubmitted("buy")])
         == State([Milk, Dog, Bread], [Milk, Bread], false)
  {
    var events := [FetchSucceeded([Milk, Dog, Bread]), SearchSubmitted("buy")];
    var fetched := Step(Initial, events[0]);
    assert fetched == State([Milk, Dog, Bread], [Milk, Dog, Bread], false);
    SearchBuyExample();
    assert events[1..] == [SearchSubmitted("buy")];
    assert Run(fetched, events[1..]) == Run(Step(fetched, SearchSubmitted("buy")), []);
  }
}
