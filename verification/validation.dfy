/**
 * The search form's validation schema: a string field `query` with a
 * `required` rule followed by a `min(3)` rule.
 *
 * The rules are checked in declaration order and the first one that fails
 * is the error shown for the field; the submit handler runs only when no
 * rule fails.
 */
module Validation {
  import opened Wrappers

  /** One declared rule of a string schema, with its error message. */
  datatype Rule = Required(message: string) | Min(limit: nat, message: string)

  const RequiredMessage: string := "Search query is required"
  const MinMessage: string := "Search query must be at least 3 characters"

  /** The rules of the search schema, in the order they are declared. */
  const SearchSchema: seq<Rule> := [Required(RequiredMessage), Min(3, MinMessage)]

  /** A rule passes on a value: `required` wants a non-empty string, `min(n)` at least `n` characters. */
  predicate Passes(rule: Rule, value: string) {
    match rule
    case Required(_) => |value| > 0
    case Min(limit, _) => |value| >= limit
  }

  /** Rule `i` is the first rule of `rules` that fails on `value`. */
  predicate FailsFirstAt(rules: seq<Rule>, value: string, i: int) {
    && 0 <= i < |rules|
    && !Passes(rules[i], value)
    && forall j :: 0 <= j < i ==> Passes(rules[j], value)
  }

  /** The first failing rule, or `None` when the value satisfies every rule. */
  function FirstFailure(rules: seq<Rule>, value: string): (r: Option<Rule>)
    ensures r.None? <==> forall i :: 0 <= i < |rules| ==> Passes(rules[i], value)
    ensures r.Some? ==> exists i :: FailsFirstAt(rules, value, i) && rules[i] == r.value
  {
    if |rules| == 0 then None
    else if !Passes(rules[0], value) then
      assert FailsFirstAt(rules, value, 0);
      Some(rules[0])
    else
      var rest := FirstFailure(rules[1..], value);
      assert forall i :: 0 < i < |rules| ==> rules[i] == rules[1..][i - 1];
      if rest.Some? then
        var k :| FailsFirstAt(rules[1..], value, k) && rules[1..][k] == rest.value;
        assert FailsFirstAt(rules, value, k + 1);
        rest
      else
        rest
  }

  /**
   * Validation of the search query: the empty query fails `required`, a query
   * of one or two characters fails `min(3)`, and any longer query is accepted.
   */
  function ValidateQuery(query: string): (r: Option<Rule>)
    ensures r.None? <==> |query| >= 3
    ensures |query| == 0 ==> r == Some(Required(RequiredMessage))
    ensures 1 <= |query| <= 2 ==> r == Some(Min(3, MinMessage))
  {
    var r := FirstFailure(SearchSchema, query);
    if r.Some? then
      var k :| FailsFirstAt(SearchSchema, query, k) && SearchSchema[k] == r.value;
      assert k == 0 <==> |query| == 0;
      r
    else
      assert Passes(SearchSchema[1], query);
      r
  }

  /** The submit handler runs on `query`. */
  predicate Accepted(query: string)
    ensures Accepted(query) <==> |query| >= 3
  {
    ValidateQuery(query).None?
  }
}
