/** The `only:` / `except:` options of a rename rule. */
module Filters {

  /** `Always` when neither option is given. */
  datatype Filter =
    | Always
    | Only(actions: set<string>)
    | Except(actions: set<string>)

  /** Whether a rule with filter `f` applies while action `action` runs. */
  predicate Matches(f: Filter, action: string)
  {
    match f
    case Always => true
    case Only(names) => action in names
    case Except(names) => action !in names
  }

  /** `only:` and `except:` with the same action names select complementary actions. */
  lemma OnlyExceptComplement(names: set<string>, action: string)
    ensures Matches(Only(names), action) != Matches(Except(names), action)
  {
  }
}
