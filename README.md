# rename_params — a Dafny model of the parameter-rename engine

`rename_params` lets a Rails controller declare `rename :src, to: :dst`,
optionally with a value converter (`convert:` an enum hash or a Proc) and an
action filter (`only:` or `except:`). Before an action runs, every declared
rule is applied, in declaration order, to the request's parameter mapping:
when the rule's filter admits the current action and the source key is
present, the source key is removed and the destination key receives the
(possibly converted) value. Otherwise the rule does nothing.

The behaviour modelled is the one the controller specs in
`spec/macros_spec.rb` assert; the gem's implementation files are not part of
this model.

Files:

- `values.dfy` (`Values`): parameter values (strings, integers, booleans, nil,
  arrays) and their Ruby string form (`to_s`), used when an enum converter
  looks a value up; `IntText` stands for `Integer#to_s`, the decimal numeral
  with a leading minus sign for negative numbers.
- `converters.dfy` (`Converters`): the three converters — none, an enum hash
  kept as an ordered sequence of (key string form, output) pairs with
  first-match lookup, and an arbitrary function standing for a Proc.
- `filters.dfy` (`Filters`): `Always`, `Only(actions)` and `Except(actions)`.
- `rename.dfy` (`Rename`): the rule, one rule's application (`ApplyRule`),
  the fold over a controller's rules (`ApplyAll`), a loop (`Rewrite`) proved
  equal to that fold, and the general properties.
- `scenarios.dfy` (`Scenarios`): each example controller of the spec file as a
  concrete lemma over the full parameter mapping, router keys included.

Assumptions where the specs are silent:

- An enum converter whose hash has no key matching the raw value passes the
  raw value through unconverted.
- A rule whose destination key is already present overwrites it: `a -> b`
  on `{a: 1, b: 2}` gives `{b: 1}`.
- A rule whose source and destination keys are equal converts the value in
  place (remove, then add under the same key).
- The enum hash is read as "key = raw value in string form, value = output":
  `{ true: ['admin'], false: [] }` turns `'true'` into `['admin']`, as
  spec/macros_spec.rb:34 and 41-45 assert.

## Model

| member | source | states |
|---|---|---|
| Converters.FirstKeyIndex | spec/macros_spec.rb:34 | the index of the first hash pair whose key equals the looked-up key, or the table length when no key matches |
| Converters.Lookup | spec/macros_spec.rb:34 | the hash lookup misses exactly when no key equals the looked-up key |
| Converters.EnumHit | spec/macros_spec.rb:34-45 | a raw value whose string form equals the first matching key converts to that key's value |
| Converters.LookupDistinct | spec/macros_spec.rb:34 | with distinct keys (a hash literal), the lookup yields `v` exactly when `(key, v)` is a pair of the hash |
| Converters.EnumMiss | spec/macros_spec.rb:34 | a raw value matching no key passes through unconverted (assumed policy) |
| Converters.EnumComparesStringForm | spec/macros_spec.rb:34-45 | keys are compared in string form: values with equal string forms that hit a key convert alike |
| Converters.Convert | spec/macros_spec.rb:34-57 | no converter keeps the raw value, an enum converter yields either the raw value or one of the hash's values, and a Proc converter yields `f(raw)`; EnumHit and EnumMiss state the enum hit and miss |
| Converters.SameIntegerForm | spec/macros_spec.rb:34-45 | a property of the string form that the enum lookup compares: two integers with the same string form are the same integer |
| Values.IntTextInjective | spec/macros_spec.rb:34-45 | a property of the string form that the enum lookup compares: distinct integers have distinct string forms (`Integer#to_s` is injective) |
| Filters.Matches | spec/macros_spec.rb:83-146 | whether the rule applies to the current action: always without a filter, on listed actions with `only:`, on unlisted ones with `except:`; OnlyFilter and ExceptFilter state its effect on a rule |
| Values.StringForm | spec/macros_spec.rb:34-42 | arrays have no string form; a string's string form is itself |
| Filters.OnlyExceptComplement | spec/macros_spec.rb:83-146 | `only:` and `except:` over the same names admit complementary sets of actions |
| Rename.ApplyRule | spec/macros_spec.rb:10-21 | one rule adds at most its destination key, and every key other than its source and destination keeps presence and value |
| Rename.ApplyAll | spec/macros_spec.rb:5-21 | the whole pass adds no key but destinations, and keys no rule names (the router's `controller` and `action`) keep presence and value |
| Rename.Rewrite | spec/macros_spec.rb:17-20 | the before-action loop over the rules computes exactly the fold `ApplyAll` |
| Rename.RenameWhenPresent | spec/macros_spec.rb:10-21 | with a matching filter and the source key present, the destination holds the converted value and the source key is gone |
| Rename.AbsentSourceNoOp | spec/macros_spec.rb:23-27 | a rule whose source key is absent returns the mapping unchanged, creating no destination key, whatever its converter |
| Rename.OnlyFilter | spec/macros_spec.rb:83-112 | with `only:`, the source key disappears if and only if the action is listed; an unlisted action leaves the mapping unchanged; a listed one renames with conversion |
| Rename.ExceptFilter | spec/macros_spec.rb:117-146 | with `except:`, the source key disappears if and only if the action is not listed; a listed action leaves the mapping unchanged; an unlisted one renames with conversion |
| Rename.RuleIdempotent | spec/macros_spec.rb:17-27 | applying a rule to its own output changes nothing when source and destination differ |
| Rename.InertNoOp | spec/macros_spec.rb:23-27 | when every rule is filtered out or lacks its source key, the pass returns the mapping unchanged |
| Rename.AbsentSourcesNoOp | spec/macros_spec.rb:23-27 | when no rule's source key is present, the pass returns the mapping unchanged |
| Rename.ApplyAllSettles | spec/macros_spec.rb:17-27 | when no destination is also a source, after the pass every rule admitted for the action finds its source key absent |
| Rename.ApplyAllIdempotent | spec/macros_spec.rb:17-27 | when no destination is also a source, a second pass over the output is a no-op |
| Rename.ChainedRulesNotIdempotent | spec/macros_spec.rb:17-27 | rules chain in declaration order: with `b -> c` declared before `a -> b`, `{a: 1}` becomes `{b: 1}` and a second pass turns it into `{c: 1}`, so when a destination is also a source a second pass can change the output |
| Scenarios.PlainRename | spec/macros_spec.rb:8-21 | `username: 'aperson'` on `index` becomes `login: 'aperson'`, router keys kept |
| Scenarios.AbsentParamKept | spec/macros_spec.rb:23-74 | without the parameter, the plain, enum and Proc rules each leave the parameters as they were |
| Scenarios.EnumRename | spec/macros_spec.rb:31-45 | `admin: 'true'` becomes `role: ['admin']` |
| Scenarios.ProcRename | spec/macros_spec.rb:55-68 | `amount_due` 100 becomes `amount_due_in_cents` 10000 |
| Scenarios.OnlyShow | spec/macros_spec.rb:81-112 | `only: :show` renames on `show` and keeps `username` on `index` |
| Scenarios.ExceptShow | spec/macros_spec.rb:115-146 | `except: :show` keeps `username` on `show` and renames on `index` |

## Left out

- Rails plumbing: routing, `get`, `head :ok`, the test controller, and the equality of `ActionController::Parameters`; parameters are a `map` compared by key and value, so key order is not modelled.
- The class-body `rename` macro and the `before_action` hook that runs the rules: the rules are an explicit sequence given to `ApplyAll` / `Rewrite`.
- Rule inheritance across controller subclasses: a subclass's rules would be the parent's sequence followed by its own; not modelled.
- `only:` and `except:` given together on one rule: a rule carries one filter.
- A request with no current action name: the action is always a string.
- Ruby's `String#to_i` inside the amount Proc: the framework delivers `100` as the string `"100"`; the scenario gives the integer 100 and the Proc multiplies integers by 100.
- Values.StringForm: arrays are given no string form, so an array value never hits an enum key (Ruby's `Array#to_s` is not modelled); nested hash values are not modelled.
- Errors raised by a Proc converter: converters are total functions here.
