/**
 * The search over the fetched todo list: keep, in their original order, the
 * todos whose lower-cased title includes the lower-cased query.
 */
module Search {
  import opened Text

  /** One fetched todo item. */
  datatype Todo = Todo(id: int, title: string, completed: bool)

  /** The filter predicate of the search: a case-insensitive substring test on the title. */
  predicate Matches(todo: Todo, query: string)
    ensures Matches(todo, query) <==> Contains(LowerString(todo.title), LowerString(query))
  {
    Includes(LowerString(todo.title), LowerString(query))
  }

  /** `a` is obtained from `b` by deleting elements, keeping the order of the rest. */
  ghost predicate IsSubsequence<T>(a: seq<T>, b: seq<T>)
    decreases |b|
  {
    || a == []
    || (&& b != []
        && ((a[0] == b[0] && IsSubsequence(a[1..], b[1..])) || IsSubsequence(a, b[1..])))
  }

  /** The todos of `todos` that match `query`, in their original order. */
  function Filter(todos: seq<Todo>, query: string): (r: seq<Todo>)
    ensures |r| <= |todos|
    ensures forall t :: t in r ==> t in todos && Matches(t, query)
    ensures forall t :: t in todos && Matches(t, query) ==> t in r
  {
    if todos == [] then []
    else
      var rest := Filter(todos[1..], query);
      assert todos == [todos[0]] + todos[1..];
      if Matches(todos[0], query) then [todos[0]] + rest else rest
  }

  /** Every matching todo is kept as often as it occurs in the list, every other one not at all. */
  lemma {:induction false} FilterCounts(todos: seq<Todo>, query: string, t: Todo)
    ensures multiset(Filter(todos, query))[t] == if Matches(t, query) then multiset(todos)[t] else 0
    decreases |todos|
  {
    if todos != [] {
      FilterCounts(todos[1..], query, t);
      assert todos == [todos[0]] + todos[1..];
    }
  }

  /** Filtering a concatenation filters each part. */
  lemma {:induction false} FilterAppend(a: seq<Todo>, b: seq<Todo>, query: string)
    ensures Filter(a + b, query) == Filter(a, query) + Filter(b, query)
    decreases |a|
  {
    if a == [] {
      assert a + b == b;
    } else {
      assert (a + b)[1..] == a[1..] + b;
      FilterAppend(a[1..], b, query);
    }
  }

  lemma {:induction false} SubsequenceOfSelf<T>(a: seq<T>)
    ensures IsSubsequence(a, a)
    decreases |a|
  {
    if a != [] {
      SubsequenceOfSelf(a[1..]);
    }
  }

  /** The search result is an order-preserving subsequence of the list searched. */
  lemma {:induction false} FilterIsSubsequence(todos: seq<Todo>, query: string)
    ensures IsSubsequence(Filter(todos, query), todos)
    decreases |todos|
  {
    if todos != [] {
      FilterIsSubsequence(todos[1..], query);
    }
  }

  /** Soundness and completeness against substring containment: a todo of the list is kept exactly when its lower-cased title contains the lower-cased query. */
  lemma FilterKeepsExactlyMatching(todos: seq<Todo>, query: string, t: Todo)
    requires t in todos
    ensures t in Filter(todos, query) <==> Contains(LowerString(t.title), LowerString(query))
  {
  }

  /** The indices of the first `n` todos that match, in increasing order. */
  ghost function MatchingIndices(todos: seq<Todo>, query: string, n: nat): seq<nat>
    requires n <= |todos|
  {
    if n == 0 then []
    else
      var prev := MatchingIndices(todos, query, n - 1);
      if Matches(todos[n - 1], query) then prev + [n - 1] else prev
  }

  /** The matching indices are increasing and are exactly the indices below `n` whose todo matches. */
  lemma {:induction false} MatchingIndicesExact(todos: seq<Todo>, query: string, n: nat)
    requires n <= |todos|
    ensures var idx := MatchingIndices(todos, query, n);
      && (forall k :: 0 <= k < |idx| ==> idx[k] < n)
      && (forall k, l :: 0 <= k < l < |idx| ==> idx[k] < idx[l])
      && (forall i :: 0 <= i < n ==> (i in idx <==> Matches(todos[i], query)))
  {
    if n > 0 {
      MatchingIndicesExact(todos, query, n - 1);
    }
  }

  /** `picked` lists `todos` at the indices `idx`. */
  ghost predicate Selects(todos: seq<Todo>, picked: seq<Todo>, idx: seq<nat>) {
    && |picked| == |idx|
    && forall k :: 0 <= k < |idx| ==> idx[k] < |todos| && picked[k] == todos[idx[k]]
  }

  lemma SelectionExtends(todos: seq<Todo>, picked: seq<Todo>, idx: seq<nat>, j: nat)
    requires Selects(todos, picked, idx) && j < |todos|
    ensures Selects(todos, picked + [todos[j]], idx + [j])
  {
  }

  /**
   * The exact shape of the result: it lists `todos[i]` for precisely the
   * indices `i` whose todo matches (see `MatchingIndicesExact`), in
   * increasing index order.
   */
  lemma {:induction false} FilterSelectsMatchingIndices(todos: seq<Todo>, query: string, n: nat)
    requires n <= |todos|
    ensures Selects(todos, Filter(todos[..n], query), MatchingIndices(todos, query, n))
  {
    if n > 0 {
      var last := todos[n - 1];
      var prev := Filter(todos[..n - 1], query);
      var prevIdx := MatchingIndices(todos, query, n - 1);
      FilterSelectsMatchingIndices(todos, query, n - 1);
      assert todos[..n] == todos[..n - 1] + [last];
      FilterAppend(todos[..n - 1], [last], query);
      if Matches(last, query) {
        assert Filter([last], query) == [last];
        assert Filter(todos[..n], query) == prev + [last];
        assert MatchingIndices(todos, query, n) == prevIdx + [n - 1];
        SelectionExtends(todos, prev, prevIdx, n - 1);
      } else {
        assert Filter([last], query) == [];
        assert Filter(todos[..n], query) == prev;
        assert MatchingIndices(todos, query, n) == prevIdx;
      }
    }
  }

  /**
   * The search result is exactly the matching todos of the whole list, listed
   * at strictly increasing indices.
   */
  lemma FilterIsExactSelection(todos: seq<Todo>, query: string)
    ensures var idx := MatchingIndices(todos, query, |todos|);
      && Selects(todos, Filter(todos, query), idx)
      && (forall k, l :: 0 <= k < l < |idx| ==> idx[k] < idx[l])
      && (forall i :: 0 <= i < |todos| ==> (i in idx <==> Matches(todos[i], query)))
  {
    FilterSelectsMatchingIndices(todos, query, |todos|);
    MatchingIndicesExact(todos, query, |todos|);
    assert todos[..|todos|] == todos;
  }

  /**
   * The search as the handler runs it: one pass over the list collecting the
   * matching todos, then the no-results flag from the length of the result.
   */
  method RunSearch(todos: seq<Todo>, query: string) returns (results: seq<Todo>, noResults: bool)
    ensures results == Filter(todos, query)
    ensures noResults <==> results == []
  {
    results := [];
    var i := 0;
    while i < |todos|
      invariant 0 <= i <= |todos|
      invariant results == Filter(todos[..i], query)
    {
      assert todos[..i + 1] == todos[..i] + [todos[i]];
      FilterAppend(todos[..i], [todos[i]], query);
      assert Filter([todos[i]], query) == if Matches(todos[i], query) then [todos[i]] else [];
      if Matches(todos[i], query) {
        results := results + [todos[i]];
      }
      i := i + 1;
    }
    assert todos[..|todos|] == todos;
    noResults := |results| == 0;
  }

  /** The result depends on the query only through its lower-cased form. */
  lemma {:induction false} FilterIgnoresQueryCase(todos: seq<Todo>, q1: string, q2: string)
    requires LowerString(q1) == LowerString(q2)
    ensures Filter(todos, q1) == Filter(todos, q2)
    decreases |todos|
  {
    if todos != [] {
      FilterIgnoresQueryCase(todos[1..], q1, q2);
    }
  }

  /** A todo whose title contains the query verbatim is always kept. */
  lemma ExactTitleMatchIsKept(todos: seq<Todo>, query: string, t: Todo)
    requires t in todos && Contains(t.title, query)
    ensures t in Filter(todos, query)
  {
    ContainsLowered(t.title, query);
  }

  const Milk: Todo := Todo(1, "Buy milk", false)
  const Dog: Todo := Todo(2, "Walk dog", true)
  const Bread: Todo := Todo(3, "buy bread", false)

  lemma ExampleMatches()
    ensures Matches(Milk, "buy") && Matches(Bread, "buy") && !Matches(Dog, "buy")
  {
    assert LowerString("buy") == "buy";
    assert LowerString(Milk.title) == "buy milk";
    assert LowerString(Dog.title) == "walk dog";
    assert LowerString(Bread.title) == "buy bread";
    assert OccursAt("buy milk", "buy", 0);
    assert OccursAt("buy bread", "buy", 0);
    MissingFirstCharacter("walk dog", "buy");
  }

  lemma ExampleMisses()
    ensures !Matches(Milk, "xyz") && !Matches(Dog, "xyz") && !Matches(Bread, "xyz")
  {
    assert LowerString("xyz") == "xyz";
    assert LowerString(Milk.title) == "buy milk";
    assert LowerString(Dog.title) == "walk dog";
    assert LowerString(Bread.title) == "buy bread";
    MissingFirstCharacter("buy milk", "xyz");
    MissingFirstCharacter("walk dog", "xyz");
    MissingFirstCharacter("buy bread", "xyz");
  }

  lemma FilterSingleton(t: Todo, query: string)
    ensures Filter([t], query) == if Matches(t, query) then [t] else []
  {
  }

  lemma FilterOfThree(a: Todo, b: Todo, c: Todo, query: string)
    ensures Filter([a, b, c], query) == Filter([a], query) + Filter([b], query) + Filter([c], query)
  {
  }

  /** A worked example: searching "buy" keeps both shopping todos, whatever their case, and drops the other; "xyz" keeps nothing. */
  lemma SearchBuyExample()
    ensures Filter([Milk, Dog, Bread], "buy") == [Milk, Bread]
    ensures Filter([Milk, Dog, Bread], "xyz") == []
  {
    ExampleMatches();
    ExampleMisses();
    FilterOfThree(Milk, Dog, Bread, "buy");
    FilterOfThree(Milk, Dog, Bread, "xyz");
    FilterSingleton(Milk, "buy");
    FilterSingleton(Dog, "buy");
    FilterSingleton(Bread, "buy");
    FilterSingleton(Milk, "xyz");
    FilterSingleton(Dog, "xyz");
    FilterSingleton(Bread, "xyz");
  }
}
