/** Properties that relate several handler calls: what a later lookup sees
    after a create, update, upsert or delete, the round trip of create and
    delete, and the two quirks of update and upsert around the body's id.
 */
module StoreProperties {
  import opened Shapes
  import opened ShapeStore

  /** At startup the listing is the triangle then the square, each id finds
      its seeded record, every other id is not found, and no id is shared. */
  lemma StartupState()
    ensures List(InitialStore()).result == Ok([Shape("Triangle", 3, 1), Shape("Square", 4, 2)])
    ensures Get(InitialStore(), 1).result == Ok(Shape("Triangle", 3, 1))
    ensures Get(InitialStore(), 2).result == Ok(Shape("Square", 4, 2))
    ensures forall id :: id != 1 && id != 2 ==> Get(InitialStore(), id).result == NotFound(id)
    ensures forall id :: UniqueId(InitialStore(), id)
  {
  }

  /** A lookup of the created record's id finds the created record only when
      no earlier record already carries that id; otherwise it still finds the
      earlier one. */
  lemma CreateThenGet(s: seq<Shape>, body: Shape)
    ensures Get(Create(s, body).store, body.id).result ==
            (if HasId(s, body.id) then Get(s, body.id).result else Ok(body))
  {
  }

  /** Deleting the id of a freshly created record whose id was new gives back
      the store as it was before the create. */
  lemma CreateThenDelete(s: seq<Shape>, body: Shape)
    requires !HasId(s, body.id)
    ensures Delete(Create(s, body).store, body.id) == Response(Ok(()), s)
  {
  }

  /** An update never reads the body's id: any two bodies that agree on name
      and side count update alike. */
  lemma UpdateIgnoresBodyId(s: seq<Shape>, id: int, body: Shape, otherId: int)
    ensures Update(s, id, body) == Update(s, id, body.(id := otherId))
  {
  }

  /** An update keeps every record's id where it was, the matched record's
      included. */
  lemma UpdatePreservesIds(s: seq<Shape>, id: int, body: Shape)
    ensures |Update(s, id, body).store| == |s|
    ensures forall j :: 0 <= j < |s| ==> Update(s, id, body).store[j].id == s[j].id
  {
  }

  /** After a successful update, a lookup of the same id returns the updated
      record. */
  lemma UpdateThenGet(s: seq<Shape>, id: int, body: Shape)
    requires HasId(s, id)
    ensures Get(Update(s, id, body).store, id).result == Update(s, id, body).result
  {
  }

  /** Repeating an update with the same body changes nothing further. */
  lemma UpdateIdempotent(s: seq<Shape>, id: int, body: Shape)
    ensures Update(Update(s, id, body).store, id, body) == Update(s, id, body)
  {
  }

  /** An upsert of an absent id whose body carries a different id leaves the
      path id absent, so a repeat appends the body a second time. */
  lemma UpsertAbsentRepeatAppendsAgain(s: seq<Shape>, id: int, body: Shape)
    requires !HasId(s, id) && body.id != id
    ensures Upsert(Upsert(s, id, body).store, id, body).store == s + [body, body]
  {
  }

  /** When the body carries the path id, repeating an upsert changes nothing
      further: the first call either updated the match or appended a record
      the second call then finds and rewrites with the same values. */
  lemma UpsertIdempotentWhenIdsAgree(s: seq<Shape>, id: int, body: Shape)
    requires body.id == id
    ensures Upsert(Upsert(s, id, body).store, id, body) == Upsert(s, id, body)
  {
  }

  /** After a successful delete, the id is gone exactly when no other record
      shared it. */
  lemma DeleteThenGet(s: seq<Shape>, id: int)
    requires HasId(s, id)
    ensures Get(Delete(s, id).store, id).result.NotFound? <==> UniqueId(s, id)
  {
    var s' := Delete(s, id).store;
    match FirstIndex(s, id)
    case Some(i) =>
      assert IsFirstMatch(s, id, i);
      if UniqueId(s, id) {
        forall j | 0 <= j < |s'| ensures s'[j].id != id {
          if j >= i {
            assert s'[j] == s[j + 1];
          }
        }
      } else {
        var j, k :| 0 <= j < |s| && 0 <= k < |s| && s[j].id == id && s[k].id == id && j != k;
        var m := if j == i then k else j;
        assert m > i;
        assert s'[m - 1] == s[m];
      }
  }

  /** A successful delete removes exactly one record, the first match, and
      keeps every other record. */
  lemma DeleteRemovesFirstMatch(s: seq<Shape>, id: int, i: int)
    requires IsFirstMatch(s, id, i)
    ensures multiset(Delete(s, id).store) + multiset{s[i]} == multiset(s)
  {
    var s' := Delete(s, id).store;
    var front, back := s[..i], s[i + 1..];
    assert s' == front + back by {
      assert |s'| == |front| + |back|;
      forall j | 0 <= j < |s'| ensures s'[j] == (front + back)[j] {
        if j >= i { assert s'[j] == s[j + 1]; }
      }
    }
    assert s == front + ([s[i]] + back);
    calc {
      multiset(s);
      multiset(front) + multiset([s[i]] + back);
      multiset(front) + multiset{s[i]} + multiset(back);
      multiset(s') + multiset{s[i]};
    }
  }
}
