/** The records of the shape service and the first-match search that every
    handler performs over the store.

    The store is an ordered sequence of records. Identifiers are supplied by
    callers and never checked for uniqueness, so several records may share an
    id; every lookup resolves to the record at the LOWEST index carrying it.
 */
module Shapes {

  /** One stored shape: a name, a side count and a caller-chosen identifier. */
  datatype Shape = Shape(itemName: string, noOfSides: int, id: int)

  datatype Option<+T> = None | Some(value: T)

  /** The outcome of a handler: a value, or the single error kind of the
      service, an unmatched identifier (carried for the error message). */
  datatype Result<+T> = Ok(value: T) | NotFound(id: int)

  /** A handler's outcome together with the store it leaves behind. */
  datatype Response<+T> = Response(result: Result<T>, store: seq<Shape>)

  /** The store the service holds when it starts: a triangle with id 1, then a
      square with id 2. */
  function InitialStore(): seq<Shape>
  {
    [Shape("Triangle", 3, 1), Shape("Square", 4, 2)]
  }

  /** Some record of `s` carries identifier `id`. */
  predicate HasId(s: seq<Shape>, id: int)
  {
    exists i :: 0 <= i < |s| && s[i].id == id
  }

  /** `i` is the index a linear scan for `id` stops at: it carries `id` and no
      earlier record does. */
  predicate IsFirstMatch(s: seq<Shape>, id: int, i: int)
  {
    && 0 <= i < |s|
    && s[i].id == id
    && forall j :: 0 <= j < i ==> s[j].id != id
  }

  /** No two records of `s` carry `id`. */
  predicate UniqueId(s: seq<Shape>, id: int)
  {
    forall j, k :: 0 <= j < |s| && 0 <= k < |s| && s[j].id == id && s[k].id == id ==> j == k
  }

  /** The scan for `id` resumed at index `k`, every record before which has
      already been passed over. */
  function FindFrom(s: seq<Shape>, id: int, k: nat): (r: Option<nat>)
    requires k <= |s|
    requires forall j :: 0 <= j < k ==> s[j].id != id
    ensures r.None? <==> !HasId(s, id)
    ensures r.Some? ==> IsFirstMatch(s, id, r.value)
    decreases |s| - k
  {
    if k == |s| then None
    else if s[k].id == id then Some(k)
    else FindFrom(s, id, k + 1)
  }

  /** The index of the first record carrying `id`, if there is one. */
  function FirstIndex(s: seq<Shape>, id: int): (r: Option<nat>)
    ensures r.None? <==> !HasId(s, id)
    ensures r.Some? ==> IsFirstMatch(s, id, r.value)
  {
    FindFrom(s, id, 0)
  }

  /** A scan has exactly one place to stop. */
  lemma FirstMatchUnique(s: seq<Shape>, id: int, i: int, k: int)
    requires IsFirstMatch(s, id, i) && IsFirstMatch(s, id, k)
    ensures i == k
  {
  }
}
