/**
 * The controller examples of the rename macro: one rule per controller,
 * applied to the parameters the router supplies together with the request's.
 */
module Scenarios {
  import opened Values
  import opened Converters
  import opened Filters
  import opened Rename

  /** The keys the router adds to every request of the anonymous controller. */
  function RouteParams(action: string): Params
  {
    map["controller" := Str("anonymous"), "action" := Str(action)]
  }

  /** The Proc of the amount example, on integer values: `value * 100`. */
  function Cents(v: Value): Value
  {
    if v.Int? then Int(v.n * 100) else v
  }

  const UsernameToLogin := Rule("username", "login", NoConvert, Always)
  const AdminToRole := Rule("admin", "role", Enum([("true", Arr([Str("admin")])), ("false", Arr([]))]), Always)
  const AmountToCents := Rule("amount_due", "amount_due_in_cents", Fn(Cents), Always)

  /** `username` is renamed to `login`; `controller` and `action` are kept. */
  lemma PlainRename()
    ensures ApplyAll("index", [UsernameToLogin], RouteParams("index")["username" := Str("aperson")])
      == RouteParams("index")["login" := Str("aperson")]
  {
  }

  /** Without the parameter, each of the three rules leaves the parameters as they were. */
  lemma AbsentParamKept()
    ensures ApplyAll("index", [UsernameToLogin], RouteParams("index")) == RouteParams("index")
    ensures ApplyAll("index", [AdminToRole], RouteParams("index")) == RouteParams("index")
    ensures ApplyAll("index", [AmountToCents], RouteParams("index")) == RouteParams("index")
  {
  }

  /** The string `"true"` hits the enum key `true:` and becomes `['admin']` under `role`. */
  lemma EnumRename()
    ensures ApplyAll("index", [AdminToRole], RouteParams("index")["admin" := Str("true")])
      == RouteParams("index")["role" := Arr([Str("admin")])]
  {
  }

  /** `amount_due` 100 becomes `amount_due_in_cents` 10000. */
  lemma ProcRename()
    ensures ApplyAll("index", [AmountToCents], RouteParams("index")["amount_due" := Int(100)])
      == RouteParams("index")["amount_due_in_cents" := Int(10000)]
  {
  }

  /** `only: :show` renames on `show` and keeps `username` on `index`. */
  lemma OnlyShow()
    ensures var rule := Rule("username", "login", NoConvert, Only({"show"}));
      && ApplyAll("show", [rule], RouteParams("show")["username" := Str("aperson")])
         == RouteParams("show")["login" := Str("aperson")]
      && ApplyAll("index", [rule], RouteParams("index")["username" := Str("aperson")])
         == RouteParams("index")["username" := Str("aperson")]
  {
  }

  /** `except: :show` keeps `username` on `show` and renames on `index`. */
  lemma ExceptShow()
    ensures var rule := Rule("username", "login", NoConvert, Except({"show"}));
      && ApplyAll("show", [rule], RouteParams("show")["username" := Str("aperson")])
         == RouteParams("show")["username" := Str("aperson")]
      && ApplyAll("index", [rule], RouteParams("index")["username" := Str("aperson")])
         == RouteParams("index")["login" := Str("aperson")]
  {
  }
}
