/**
 * Value converters of a rename rule: none, an enum hash looked up by the raw
 * value's string form, or an arbitrary one-argument function (a Ruby Proc).
 */
module Converters {
  import opened Values

  /**
   * `Enum(table)` is a Ruby hash in its iteration order: each pair holds the
   * string form of a hash key and the value that key converts to.
   */
  datatype Converter =
    | NoConvert
    | Enum(table: seq<(string, Value)>)
    | Fn(f: Value -> Value)

  /** Index of the first pair of `table` whose key is `key`, or `|table|` when none is. */
  function FirstKeyIndex(table: seq<(string, Value)>, key: string): (i: nat)
    ensures i <= |table|
    ensures forall j :: 0 <= j < i ==> table[j].0 != key
    ensures i < |table| ==> table[i].0 == key
  {
    if table == [] then 0
    else if table[0].0 == key then 0
    else 1 + FirstKeyIndex(table[1..], key)
  }

  /** The hash lookup: the value bound to the first key equal to `key`, if any. */
  function Lookup(table: seq<(string, Value)>, key: string): (r: Option<Value>)
    ensures r.None? <==> forall j :: 0 <= j < |table| ==> table[j].0 != key
  {
    var i := FirstKeyIndex(table, key);
    if i < |table| then Some(table[i].1) else None
  }

  /** Converts a raw parameter value with converter `c`. */
  function Convert(c: Converter, raw: Value): (r: Value)
    ensures c.NoConvert? ==> r == raw
    ensures c.Enum? ==> r == raw || exists i :: 0 <= i < |c.table| && r == c.table[i].1
    ensures c.Fn? ==> r == c.f(raw)
  {
    match c
    case NoConvert => raw
    case Fn(f) => f(raw)
    case Enum(table) =>
      match StringForm(raw)
      case None => raw
      case Some(key) =>
        match Lookup(table, key)
        case Some(out) => out
        case None => raw
  }

  /** No two pairs of the table share a key, as with the symbol keys of a hash literal. */
  predicate DistinctKeys(table: seq<(string, Value)>)
  {
    forall i, j :: 0 <= i < j < |table| ==> table[i].0 != table[j].0
  }

  /**
   * Enum hit: a raw value whose string form equals the key of pair `i`, with
   * no earlier pair matching, converts to that pair's value.
   */
  lemma EnumHit(table: seq<(string, Value)>, raw: Value, i: nat)
    requires i < |table| && StringForm(raw) == Some(table[i].0)
    requires forall j :: 0 <= j < i ==> table[j].0 != table[i].0
    ensures Convert(Enum(table), raw) == table[i].1
  {
  }

  /** With distinct keys, the lookup finds exactly the pairs of the table. */
  lemma LookupDistinct(table: seq<(string, Value)>, key: string, v: Value)
    requires DistinctKeys(table)
    ensures Lookup(table, key) == Some(v) <==> exists i :: 0 <= i < |table| && table[i] == (key, v)
  {
  }

  /** Enum miss: a raw value matching no key passes through unconverted. */
  lemma EnumMiss(table: seq<(string, Value)>, raw: Value)
    requires forall key :: StringForm(raw) == Some(key) ==> forall j :: 0 <= j < |table| ==> table[j].0 != key
    ensures Convert(Enum(table), raw) == raw
  {
  }

  /**
   * Keys are compared in string form: two raw values with the same string
   * form convert alike whenever either one hits a key.
   */
  lemma EnumComparesStringForm(table: seq<(string, Value)>, u: Value, v: Value)
    requires StringForm(u) == StringForm(v) && StringForm(u).Some?
    requires Lookup(table, StringForm(u).value).Some?
    ensures Convert(Enum(table), u) == Convert(Enum(table), v)
  {
  }

  /** Equal string forms of two integers mean equal integers, so they convert alike. */
  lemma SameIntegerForm(table: seq<(string, Value)>, a: int, b: int)
    requires StringForm(Int(a)) == StringForm(Int(b))
    ensures a == b
    ensures Convert(Enum(table), Int(a)) == Convert(Enum(table), Int(b))
  {
    IntTextInjective(a, b);
  }
}
