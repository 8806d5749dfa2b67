# Todo search: a Dafny model

The application is a single page. It fetches a list of todo items once, at
startup. The user can then filter that list with a search form. This project
models the page's search behaviour and proves properties of it:

- **Text** (`text.dfy`): ASCII lower-casing of characters and strings.
  `Contains` is the mathematical definition of a substring. `Includes` is the
  left-to-right scan that a string `includes` call performs, and it is proved
  to agree with `Contains`.
- **Validation** (`validation.dfy`): the form's schema is a list of rules in
  declaration order: `required`, then `min(3)`, each with the message the page
  uses. The first rule that fails is the error shown for the field. The submit
  handler runs only when no rule fails.
- **Search** (`search.dfy`): the `Todo` record and the filter. The filter keeps,
  in their original order, the todos whose lower-cased title includes the
  lower-cased query. It is given in two forms: `Filter` is the recursive
  definition and `RunSearch` is the one-pass loop, which also sets the
  no-results flag.
- **Session** (`session.dfy`): the component state. It holds the canonical
  list, the displayed list and the no-results flag. It changes on three
  events: fetch success, fetch failure and search submission.

The model describes the code as written. Each search filters the full
canonical list and never the displayed one. A fetch sets both lists and does
not touch the flag. So if a search is submitted before the fetch completes,
it filters the empty list and raises the flag. A fetch that succeeds after
that leaves the flag raised over a non-empty list
(`Session.LateFetchKeepsNoResults`).

## Model

| member | source | states |
|---|---|---|
| Text.Lower | src/App.js:26 | lower-casing changes exactly the upper-case ASCII letters, moves each to its lower-case letter, and never yields an upper-case letter |
| Text.LowerString | src/App.js:26 | lower-casing a title or query keeps its length, maps each character through `Lower`, and leaves no upper-case letter |
| Text.LowerStringIdempotent | src/App.js:26 | lower-casing an already lower-cased title or query changes nothing |
| Text.Includes | src/App.js:26 | the `includes` scan answers true exactly when the query occurs as a contiguous substring of the title; the empty query occurs in every title |
| Text.ContainsLowered | src/App.js:26 | an exact occurrence is still an occurrence after both strings are lower-cased, so the match only ever widens |
| Validation.Accepted | src/App.js:45-47 | the submit handler runs on a query if and only if the query has at least 3 characters |
| Validation.FirstFailure | src/App.js:32-36 | no error exactly when every declared rule passes; otherwise the error is the first declared rule that fails, and all rules before it pass |
| Validation.ValidateQuery | src/App.js:32-36 | the empty query fails with the `required` message, a query of 1 or 2 characters fails with the `min(3)` message, and a query of 3 or more characters is accepted |
| Search.Matches | src/App.js:25-26 | the filter callback keeps a todo if and only if its lower-cased title contains the lower-cased query as a substring |
| Search.Filter | src/App.js:24-27 | the result is no longer than the list; every kept todo is in the list and matches (soundness); every matching todo of the list is kept (completeness) |
| Search.FilterCounts | src/App.js:25-27 | each matching todo appears in the result as often as in the list, and each non-matching todo never appears |
| Search.FilterIsSubsequence | src/App.js:25-27 | the result is an order-preserving subsequence of the list searched |
| Search.FilterKeepsExactlyMatching | src/App.js:25-26 | a todo of the list is kept if and only if its lower-cased title contains the lower-cased query as a substring |
| Search.MatchingIndicesExact | src/App.js:25-26 | the selected indices increase strictly and are exactly the indices whose todo matches |
| Search.FilterSelectsMatchingIndices | src/App.js:25-27 | filtering a prefix lists, position by position, the todos at the matching indices of that prefix |
| Search.FilterIsExactSelection | src/App.js:25-27 | the result is exactly the todos at the matching indices, in increasing index order, and no other todos |
| Search.FilterAppend | src/App.js:25-27 | filtering a concatenation gives the concatenation of the filtered parts, so the filter decides each todo on its own |
| Search.RunSearch | src/App.js:24-30 | the single pass over the list collects exactly the filter's result, and the flag is raised if and only if that result is empty |
| Search.FilterIgnoresQueryCase | src/App.js:26 | two queries that are equal once lower-cased select the same todos |
| Search.ExactTitleMatchIsKept | src/App.js:26 | a todo whose title contains the query with the same case is always kept |
| Search.SearchBuyExample | src/App.js:24-27 | on the list "Buy milk", "Walk dog", "buy bread", query "buy" keeps the first and third todos in order; query "xyz" keeps none |
| Session.HandleSearch | src/App.js:24-30 | the canonical list is unchanged; a todo is displayed if and only if it is in the canonical list and matches; the flag is raised if and only if no todo of the canonical list matches |
| Session.Step | src/App.js:11-47 | fetch success sets both lists to the fetched data and leaves the flag alone; fetch failure changes nothing; a submitted query shorter than 3 characters changes nothing; a query of 3 or more runs the search handler |
| Session.StepKeepsDisplayConsistent | src/App.js:7-30 | every event keeps the displayed list an order-preserving subsequence of the canonical list |
| Session.RunKeepsDisplayConsistent | src/App.js:7-30 | after any sequence of events the displayed list is an order-preserving subsequence of the canonical list |
| Session.SearchesKeepTodos | src/App.js:24-28 | a run of searches never changes the canonical list |
| Session.LastSearchIgnoresEarlierSearches | src/App.js:24-28 | after any run of earlier searches, an accepted search leads to the same state as when it is submitted directly, so its result depends only on the query and the canonical list |
| Session.SubmitTwiceIsSubmitOnce | src/App.js:24-29 | submitting the same query twice in a row leads to the same state as submitting it once |
| Session.NoResultsIffEmpty | src/App.js:28-29 | after an accepted search the flag is raised if and only if the displayed list is empty |
| Session.FailedFetchKeepsInitial | src/App.js:7-19 | a failed fetch leaves both lists empty and the flag lowered |
| Session.SearchBeforeFetch | src/App.js:7-29 | an accepted search before the fetch completes displays nothing and raises the flag |
| Session.LateFetchKeepsNoResults | src/App.js:9-16 | after a search on the empty list, a successful fetch displays the fetched list but leaves the flag raised |
| Session.FetchThenSearchExample | src/App.js:11-30 | fetching the three example todos and then searching "buy" displays the two matching todos, with the flag lowered |

## Left out

- The HTTP GET, the network and async/await (src/App.js:12-21): the fetch is only an abstract success event, carrying the data, or a failure event. The order in which the fetch and a search complete is whatever event order the caller gives.
- React hooks, effect mounting and all rendering (src/App.js:38-95): the table, the "No results found." message and the error display. These are UI. The state they read is modelled.
- The form library's submission lifecycle (`setSubmitting`, `isSubmitting`, src/App.js:48 and 63): it has no effect on the state that is modelled.
- The diagnostic log entry written on fetch failure (src/App.js:18): it is output only.
- Text.Lower: handles ASCII letters only. The runtime's `toLowerCase` applies full Unicode case mapping, which can also change a string's length. That mapping is not modelled.
- Text.ContainsLowered: holds only because `Lower` maps each character on its own. The runtime's `toLowerCase` also applies the Unicode Final_Sigma rule, which looks at the letters around a capital sigma. For example, "ΟΟΣ" lower-cases to "οος" but "ΟΟΣΑ" lower-cases to "οοσα", so an exact occurrence need not survive lower-casing.
- Search.ExactTitleMatchIsKept: holds only for character-by-character lower-casing. Under the Final_Sigma rule, the accepted query "ΟΟΣ" drops the todo titled "ΟΟΣΑ", even though the title contains the query exactly.
- Search.Todo: the fetched data is assumed to be a list of records whose titles are strings. If the data is not an array, `todos.filter` throws (src/App.js:25). If a title is not a string, `toLowerCase` throws (src/App.js:26). Either way the search handler aborts and leaves the state unchanged. Those paths are not modelled.
- Validation.ValidateQuery: measures length as the number of Dafny characters, which are Unicode scalar values. The validation library counts UTF-16 code units, so the two differ for characters outside the Basic Multilingual Plane. The model also keeps only the library's two declared rules, with no trimming or type coercion.
