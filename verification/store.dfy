/** The handlers of the shape service as pure functions from the current store
    (and the request's path id and body) to a response and the next store.
    A not-found response always hands back the store it was given.
 */
module ShapeStore {
  import opened Shapes

  /** The listing: the whole store, in order. */
  function List(s: seq<Shape>): Response<seq<Shape>>
  {
    Response(Ok(s), s)
  }

  /** Lookup by id: the first record carrying it. */
  function Get(s: seq<Shape>, id: int): (r: Response<Shape>)
    ensures r.store == s
    ensures r.result.Ok? <==> HasId(s, id)
    ensures r.result.NotFound? ==> r.result.id == id
    ensures forall i :: IsFirstMatch(s, id, i) ==> r.result == Ok(s[i])
  {
    match FirstIndex(s, id)
    case None => Response(NotFound(id), s)
    case Some(i) =>
      assert forall k :: IsFirstMatch(s, id, k) ==> k == i by {
        forall k | IsFirstMatch(s, id, k) { FirstMatchUnique(s, id, i, k); }
      }
      Response(Ok(s[i]), s)
  }

  /** Creation: the body goes at the end, whatever ids the store already holds. */
  function Create(s: seq<Shape>, body: Shape): (r: Response<Shape>)
    ensures r.result == Ok(body)
    ensures |r.store| == |s| + 1
    ensures r.store[|s|] == body
    ensures forall j :: 0 <= j < |s| ==> r.store[j] == s[j]
  {
    Response(Ok(body), s + [body])
  }

  /** The stored record after an update with `body`: the name and side count
      come from the body, the identifier stays the stored one. */
  function Overwrite(stored: Shape, body: Shape): Shape
  {
    stored.(itemName := body.itemName, noOfSides := body.noOfSides)
  }

  /** Update by id: overwrite name and side count of the first record carrying
      `id`, or report not-found and change nothing. */
  function Update(s: seq<Shape>, id: int, body: Shape): (r: Response<Shape>)
    ensures r.result.Ok? <==> HasId(s, id)
    ensures r.result.NotFound? ==> r.result.id == id && r.store == s
    ensures |r.store| == |s|
    ensures forall i :: IsFirstMatch(s, id, i) ==>
              && r.store[i] == Shape(body.itemName, body.noOfSides, id)
              && r.result == Ok(r.store[i])
              && forall j :: 0 <= j < |s| && j != i ==> r.store[j] == s[j]
  {
    match FirstIndex(s, id)
    case None => Response(NotFound(id), s)
    case Some(i) =>
      assert forall k :: IsFirstMatch(s, id, k) ==> k == i by {
        forall k | IsFirstMatch(s, id, k) { FirstMatchUnique(s, id, i, k); }
      }
      var updated := Overwrite(s[i], body);
      Response(Ok(updated), s[i := updated])
  }

  /** Update-or-insert by id: an update when some record carries `id`;
      otherwise the body is appended as it is, with the body's own id. */
  function Upsert(s: seq<Shape>, id: int, body: Shape): (r: Response<Shape>)
    ensures r.result.Ok?
    ensures HasId(s, id) ==> r == Update(s, id, body)
    ensures !HasId(s, id) ==>
              && r.result.value == body
              && |r.store| == |s| + 1
              && r.store[|s|] == body
              && forall j :: 0 <= j < |s| ==> r.store[j] == s[j]
  {
    match FirstIndex(s, id)
    case None => Response(Ok(body), s + [body])
    case Some(_) => Update(s, id, body)
  }

  /** `s` without its element at index `i`. */
  function RemoveAt(s: seq<Shape>, i: nat): seq<Shape>
    requires i < |s|
  {
    s[..i] + s[i + 1..]
  }

  /** Deletion by id: remove the first record carrying `id`, or report
      not-found and change nothing. */
  function Delete(s: seq<Shape>, id: int): (r: Response<()>)
    ensures r.result.Ok? <==> HasId(s, id)
    ensures r.result.NotFound? ==> r.result.id == id && r.store == s
    ensures forall i :: IsFirstMatch(s, id, i) ==>
              && |r.store| == |s| - 1
              && (forall j :: 0 <= j < i ==> r.store[j] == s[j])
              && (forall j :: i <= j < |r.store| ==> r.store[j] == s[j + 1])
  {
    match FirstIndex(s, id)
    case None => Response(NotFound(id), s)
    case Some(i) =>
      assert forall k :: IsFirstMatch(s, id, k) ==> k == i by {
        forall k | IsFirstMatch(s, id, k) { FirstMatchUnique(s, id, i, k); }
      }
      Response(Ok(()), RemoveAt(s, i))
  }

  /** The handlers' `for` loop: walk the store from the front and stop at the
      first record carrying `id`. */
  method ScanFirst(s: seq<Shape>, id: int) returns (found: bool, index: nat)
    ensures found <==> HasId(s, id)
    ensures found ==> IsFirstMatch(s, id, index)
  {
    index := 0;
    while index < |s|
      invariant index <= |s|
      invariant forall j :: 0 <= j < index ==> s[j].id != id
    {
      if s[index].id == id {
        return true, index;
      }
      index := index + 1;
    }
    found := false;
  }

  /** The deletion handler as written: a scan that counts positions alongside
      the records and removes the record at the count where it first matches. */
  method DeleteByScan(s: seq<Shape>, id: int) returns (r: Response<()>)
    ensures r == Delete(s, id)
  {
    var index := 0;
    while index < |s|
      invariant index <= |s|
      invariant forall j :: 0 <= j < index ==> s[j].id != id
    {
      if s[index].id == id {
        assert IsFirstMatch(s, id, index);
        return Response(Ok(()), RemoveAt(s, index));
      }
      index := index + 1;
    }
    r := Response(NotFound(id), s);
  }
}
