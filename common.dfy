/** Small definitions shared by every stage of the pipeline: optional values,
    Python truthiness of an optional string, duplicate-freedom, and the
    `list(set(...))` conversion the extraction code applies to its key sets. */
module Common {

  /** A column value or dictionary lookup that may be NULL / None. */
  datatype Option<T> = None | Some(value: T)

  /** Python's `if s:` on an optional string: present and non-empty. */
  predicate Truthy(s: Option<string>)
  {
    s.Some? && s.value != ""
  }

  /** No element occurs twice. */
  predicate Distinct<T(==)>(xs: seq<T>)
  {
    forall i, j :: 0 <= i < j < |xs| ==> xs[i] != xs[j]
  }

  /** The elements of a sequence as a set. */
  function Elements<T(==)>(xs: seq<T>): set<T>
  {
    set x | x in xs
  }

  /** `list(some_set)`: the elements of `s` in some order, each exactly once.
      Python leaves the order to the hash table; here the method picks it. */
  method ListOfSet<T(==)>(s: set<T>) returns (xs: seq<T>)
    ensures Distinct(xs)
    ensures Elements(xs) == s
    ensures |xs| == |s|
  {
    xs := [];
    var rest := s;
    while rest != {}
      invariant Distinct(xs)
      invariant Elements(xs) !! rest
      invariant Elements(xs) + rest == s
      invariant |xs| + |rest| == |s|
      decreases |rest|
    {
      var x :| x in rest;
      xs := xs + [x];
      rest := rest - {x};
    }
  }
}
