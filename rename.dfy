/**
 * Rename rules and the pass that applies them to a request's parameters
 * before the action runs.
 */
module Rename {
  import opened Values
  import opened Converters
  import opened Filters

  /** `rename :source, to: :dest, convert: …, only: …/except: …` */
  datatype Rule = Rule(source: string, dest: string, converter: Converter, filter: Filter)

  /** A request's parameter mapping, compared by key and value. */
  type Params = map<string, Value>

  /** Source keys of a rule sequence. */
  function Sources(rules: seq<Rule>): set<string>
  {
    if rules == [] then {} else {rules[0].source} + Sources(rules[1..])
  }

  /** Destination keys of a rule sequence. */
  function Dests(rules: seq<Rule>): set<string>
  {
    if rules == [] then {} else {rules[0].dest} + Dests(rules[1..])
  }

  /**
   * One rule: when its filter lets the current action through and the source
   * key is present, the source key is removed and the destination key gets
   * the converted value; otherwise the parameters are left as they are.
   * Every other key keeps its value.
   */
  function ApplyRule(action: string, rule: Rule, params: Params): (r: Params)
    ensures r.Keys <= params.Keys + {rule.dest}
    ensures forall k :: k != rule.source && k != rule.dest ==> (k in r <==> k in params)
    ensures forall k :: k in params && k != rule.source && k != rule.dest ==> r[k] == params[k]
  {
    if Matches(rule.filter, action) && rule.source in params then
      (params - {rule.source})[rule.dest := Convert(rule.converter, params[rule.source])]
    else
      params
  }

  /**
   * All rules of a controller, in declaration order. A key that no rule names
   * keeps its value, and no key appears that is neither in the input nor a
   * destination of some rule.
   */
  function ApplyAll(action: string, rules: seq<Rule>, params: Params): (r: Params)
    ensures r.Keys <= params.Keys + Dests(rules)
    ensures forall k :: k !in Sources(rules) && k !in Dests(rules) ==> (k in r <==> k in params)
    ensures forall k :: k in params && k !in Sources(rules) && k !in Dests(rules) ==> r[k] == params[k]
    decreases |rules|
  {
    if rules == [] then params
    else ApplyAll(action, rules[1..], ApplyRule(action, rules[0], params))
  }

  /** The before-action pass: a loop over the rules that computes `ApplyAll`. */
  method Rewrite(action: string, rules: seq<Rule>, params: Params) returns (result: Params)
    ensures result == ApplyAll(action, rules, params)
  {
    result := params;
    for i := 0 to |rules|
      invariant ApplyAll(action, rules[i..], result) == ApplyAll(action, rules, params)
    {
      var rule := rules[i];
      assert rules[i..][1..] == rules[i + 1..];
      if Matches(rule.filter, action) && rule.source in result {
        var value := result[rule.source];
        result := result - {rule.source};
        result := result[rule.dest := Convert(rule.converter, value)];
      }
    }
    assert rules[|rules|..] == [];
  }

  /**
   * A rule whose filter matches and whose source key is present renames:
   * the destination key holds the converted value and the source key is gone.
   */
  lemma RenameWhenPresent(action: string, rule: Rule, params: Params)
    requires Matches(rule.filter, action) && rule.source in params
    ensures var r := ApplyRule(action, rule, params);
      && rule.dest in r
      && r[rule.dest] == Convert(rule.converter, params[rule.source])
      && (rule.source != rule.dest ==> rule.source !in r)
  {
  }

  /** An absent source key is a no-op: no destination key is created. */
  lemma AbsentSourceNoOp(action: string, rule: Rule, params: Params)
    requires rule.source !in params
    ensures ApplyRule(action, rule, params) == params
  {
  }

  /** `only:` renames exactly on the listed actions and passes the key through elsewhere. */
  lemma OnlyFilter(action: string, source: string, dest: string, c: Converter, names: set<string>, params: Params)
    requires source in params && source != dest
    ensures var r := ApplyRule(action, Rule(source, dest, c, Only(names)), params);
      && (source !in r <==> action in names)
      && (action !in names ==> r == params)
      && (action in names ==> dest in r && r[dest] == Convert(c, params[source]))
  {
  }

  /** `except:` renames exactly on the actions not listed and leaves the listed ones untouched. */
  lemma ExceptFilter(action: string, source: string, dest: string, c: Converter, names: set<string>, params: Params)
    requires source in params && source != dest
    ensures var r := ApplyRule(action, Rule(source, dest, c, Except(names)), params);
      && (source !in r <==> action !in names)
      && (action in names ==> r == params)
      && (action !in names ==> dest in r && r[dest] == Convert(c, params[source]))
  {
  }

  /** Applying a rule to its own output changes nothing: the source key is gone. */
  lemma RuleIdempotent(action: string, rule: Rule, params: Params)
    requires rule.source != rule.dest
    ensures ApplyRule(action, rule, ApplyRule(action, rule, params)) == ApplyRule(action, rule, params)
  {
  }

  /** For every rule, either its filter rejects the action or its source key is absent. */
  predicate Inert(action: string, rules: seq<Rule>, params: Params)
  {
    forall i :: 0 <= i < |rules| ==> !Matches(rules[i].filter, action) || rules[i].source !in params
  }

  /** When no rule can fire, the whole pass returns the parameters unchanged. */
  lemma {:induction false} InertNoOp(action: string, rules: seq<Rule>, params: Params)
    requires Inert(action, rules, params)
    ensures ApplyAll(action, rules, params) == params
    decreases |rules|
  {
    if rules != [] {
      assert !Matches(rules[0].filter, action) || rules[0].source !in params;
      assert ApplyRule(action, rules[0], params) == params;
      assert forall i :: 0 <= i < |rules[1..]| ==> rules[1..][i] == rules[i + 1];
      InertNoOp(action, rules[1..], params);
    }
  }

  /** When no source key is present, the whole pass returns the parameters unchanged. */
  lemma {:induction false} AbsentSourcesNoOp(action: string, rules: seq<Rule>, params: Params)
    requires Sources(rules) !! params.Keys
    ensures ApplyAll(action, rules, params) == params
  {
    forall i | 0 <= i < |rules|
      ensures rules[i].source !in params
    {
      SourceIn(rules, i);
    }
    InertNoOp(action, rules, params);
  }

  /** Each rule's source key is among the sources. */
  lemma {:induction false} SourceIn(rules: seq<Rule>, i: nat)
    requires i < |rules|
    ensures rules[i].source in Sources(rules)
    decreases i
  {
    if i > 0 {
      SourceIn(rules[1..], i - 1);
    }
  }

  /** The sources and destinations of a suffix are among those of the whole sequence. */
  lemma {:induction false} SuffixKeys(rules: seq<Rule>, i: nat)
    requires i <= |rules|
    ensures Sources(rules[i..]) <= Sources(rules)
    ensures Dests(rules[i..]) <= Dests(rules)
    decreases i
  {
    if i > 0 {
      SuffixKeys(rules[1..], i - 1);
      assert rules[1..][i - 1..] == rules[i..];
    }
  }

  /**
   * When no destination key is also a source key, after the pass no rule can
   * fire again: each rule whose filter matches has its source key absent.
   */
  lemma {:induction false} ApplyAllSettles(action: string, rules: seq<Rule>, params: Params)
    requires Sources(rules) !! Dests(rules)
    ensures Inert(action, rules, ApplyAll(action, rules, params))
    decreases |rules|
  {
    if rules != [] {
      var p1 := ApplyRule(action, rules[0], params);
      var r := ApplyAll(action, rules[1..], p1);
      SuffixKeys(rules, 1);
      ApplyAllSettles(action, rules[1..], p1);
      forall i | 0 <= i < |rules| && Matches(rules[i].filter, action)
        ensures rules[i].source !in r
      {
        if i == 0 {
          assert rules[0].source in Sources(rules);
          assert rules[0].dest in Dests(rules);
          assert rules[0].source !in p1;
          assert rules[0].source !in Dests(rules[1..]);
        } else {
          assert rules[1..][i - 1] == rules[i];
        }
      }
    }
  }

  /**
   * Running the pass a second time on its own output is a no-op, provided no
   * rule renames into a key that some rule renames from.
   */
  lemma {:induction false} ApplyAllIdempotent(action: string, rules: seq<Rule>, params: Params)
    requires Sources(rules) !! Dests(rules)
    ensures ApplyAll(action, rules, ApplyAll(action, rules, params)) == ApplyAll(action, rules, params)
  {
    ApplyAllSettles(action, rules, params);
    InertNoOp(action, rules, ApplyAll(action, rules, params));
  }

  /**
   * Rules chain in order: `b -> c` declared before `a -> b` leaves `b` behind,
   * and a second pass renames it again. Without the disjointness condition the
   * pass is not idempotent.
   */
  lemma ChainedRulesNotIdempotent()
    ensures var rules := [Rule("b", "c", NoConvert, Always), Rule("a", "b", NoConvert, Always)];
      var once := ApplyAll("index", rules, map["a" := Int(1)]);
      && once == map["b" := Int(1)]
      && ApplyAll("index", rules, once) == map["c" := Int(1)]
  {
  }
}
