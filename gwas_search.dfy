/** The request parameters `GWAS.search` sends to the catalog's
    `search/moreresults` endpoint: a free-text query and keyword overrides
    become nine `(name, value)` pairs in a fixed order, each override
    falling back to its default. */
module GwasSearch {
  import opened Json

  /** The parameter names, in the order they are sent. */
  const PARAM_NAMES: seq<string> :=
    ["q", "max", "facet", "pvalfilter", "orfilter", "betafilter", "datefilter", "sort", "asc"]

  /** The keyword argument that overrides each parameter after `q`
      (`max` is overridden by `max_results`). */
  const OVERRIDE_NAMES: seq<string> :=
    ["max_results", "facet", "pvalfilter", "orfilter", "betafilter", "datefilter", "sort", "asc"]

  /** The value of each parameter after `q` when it is not overridden. */
  const DEFAULTS: seq<Value> :=
    [Int(600), Str("association"), Str("5e-8"), Str(""), Str(""), Str(""), Str(""), Str("")]

  type Param = (string, Value)

  /** `kwargs.pop(name, default)`, ignoring the removal from the caller's
      private copy of `kwargs`. */
  function Pop(kwargs: map<string, Value>, name: string, default: Value): Value {
    if name in kwargs then kwargs[name] else default
  }

  /** The parameter tuple built from `query` and the keyword arguments. */
  function QueryParams(query: Value, kwargs: map<string, Value>): (params: seq<Param>)
    ensures |params| == |PARAM_NAMES| == 9
    ensures forall i :: 0 <= i < 9 ==> params[i].0 == PARAM_NAMES[i]
    ensures params[0].1 == query
    ensures forall i :: 1 <= i < 9 && OVERRIDE_NAMES[i - 1] in kwargs ==>
              params[i].1 == kwargs[OVERRIDE_NAMES[i - 1]]
    ensures forall i :: 1 <= i < 9 && OVERRIDE_NAMES[i - 1] !in kwargs ==>
              params[i].1 == DEFAULTS[i - 1]
  {
    [ ("q", query),
      ("max", Pop(kwargs, "max_results", Int(600))),
      ("facet", Pop(kwargs, "facet", Str("association"))),
      ("pvalfilter", Pop(kwargs, "pvalfilter", Str("5e-8"))),
      ("orfilter", Pop(kwargs, "orfilter", Str(""))),
      ("betafilter", Pop(kwargs, "betafilter", Str(""))),
      ("datefilter", Pop(kwargs, "datefilter", Str(""))),
      ("sort", Pop(kwargs, "sort", Str(""))),
      ("asc", Pop(kwargs, "asc", Str(""))) ]
  }

  /** With no keyword arguments every parameter takes its documented default. */
  lemma NoOverrides(query: Value)
    ensures QueryParams(query, map[]) ==
      [ ("q", query), ("max", Int(600)), ("facet", Str("association")),
        ("pvalfilter", Str("5e-8")), ("orfilter", Str("")), ("betafilter", Str("")),
        ("datefilter", Str("")), ("sort", Str("")), ("asc", Str("")) ]
  {
  }

  /** Overriding one recognised keyword sets its own slot and leaves the
      other eight pairs as they were. */
  lemma OverrideOwnSlot(query: Value, kwargs: map<string, Value>, k: nat, v: Value)
    requires k < |OVERRIDE_NAMES|
    ensures QueryParams(query, kwargs[OVERRIDE_NAMES[k] := v])[k + 1] == (PARAM_NAMES[k + 1], v)
    ensures forall i :: 0 <= i < 9 && i != k + 1 ==>
              QueryParams(query, kwargs[OVERRIDE_NAMES[k] := v])[i] == QueryParams(query, kwargs)[i]
  {
  }

  /** A keyword argument with a name `search` does not recognise has no
      effect on the parameters. */
  lemma UnrecognisedIgnored(query: Value, kwargs: map<string, Value>, name: string, v: Value)
    requires name !in OVERRIDE_NAMES
    ensures QueryParams(query, kwargs[name := v]) == QueryParams(query, kwargs)
  {
  }

  /** Only the recognised keywords matter: the parameters depend on the
      keyword arguments restricted to the eight override names. */
  lemma OnlyRecognisedMatter(query: Value, kwargs: map<string, Value>)
    ensures QueryParams(query, kwargs) ==
            QueryParams(query, map n | n in kwargs && n in OVERRIDE_NAMES :: kwargs[n])
  {
  }
}
