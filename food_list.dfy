/** The pure transitions of the dashboard's food list: each takes the current
    list and one confirmed server result and yields the next list. */
module FoodList {
  import opened Foods

  /** The ids of a list are pairwise distinct. */
  ghost predicate UniqueIds(foods: seq<Food>)
  {
    forall i, j :: 0 <= i < j < |foods| ==> foods[i].id != foods[j].id
  }

  /** Some entry of the list carries `id`. */
  ghost predicate HasId(foods: seq<Food>, id: int)
  {
    exists i :: 0 <= i < |foods| && foods[i].id == id
  }

  /** `[...foods, added]`: the created food goes to the end of the list. */
  function Append(foods: seq<Food>, added: Food): (r: seq<Food>)
    ensures |r| == |foods| + 1
    ensures r[..|foods|] == foods
    ensures r[|foods|] == added
  {
    foods + [added]
  }

  /** `foods.map(food => food.id !== updated.id ? food : updated)`: every
      entry carrying the returned id becomes the returned food, every other
      entry stays where it is. */
  function ReplaceById(foods: seq<Food>, updated: Food): (r: seq<Food>)
    ensures |r| == |foods|
    ensures forall i :: 0 <= i < |foods| && foods[i].id != updated.id ==> r[i] == foods[i]
    ensures forall i :: 0 <= i < |foods| && foods[i].id == updated.id ==> r[i] == updated
  {
    if foods == [] then []
    else [if foods[0].id != updated.id then foods[0] else updated] + ReplaceById(foods[1..], updated)
  }

  /** `foods.filter(food => food.id !== id)`: the entries carrying `id` are
      dropped, the rest are kept. */
  function RemoveById(foods: seq<Food>, id: int): (r: seq<Food>)
    ensures |r| <= |foods|
    ensures forall x :: x in r <==> x in foods && x.id != id
    ensures forall x: Food :: x.id != id ==> multiset(r)[x] == multiset(foods)[x]
  {
    if foods == [] then []
    else
      assert foods == [foods[0]] + foods[1..];
      if foods[0].id != id then [foods[0]] + RemoveById(foods[1..], id)
    else RemoveById(foods[1..], id)
  }

  // ---------------------------------------------------------------------
  // Replace by id

  /** The list is unchanged by an update exactly when every entry carrying
      the returned id already equals the returned food; in particular when
      no entry carries that id. */
  lemma ReplaceUnchangedIff(foods: seq<Food>, updated: Food)
    ensures ReplaceById(foods, updated) == foods
            <==> forall i :: 0 <= i < |foods| && foods[i].id == updated.id ==> foods[i] == updated
  {
    var r := ReplaceById(foods, updated);
    if forall i :: 0 <= i < |foods| && foods[i].id == updated.id ==> foods[i] == updated {
      assert forall i :: 0 <= i < |foods| ==> r[i] == foods[i];
    }
  }

  /** An update whose id is on no entry leaves the list as it was. */
  lemma ReplaceMissingIdIsNoOp(foods: seq<Food>, updated: Food)
    requires !HasId(foods, updated.id)
    ensures ReplaceById(foods, updated) == foods
  {
    ReplaceUnchangedIff(foods, updated);
  }

  /** Applying the same returned food twice gives the list applying it once
      gives. */
  lemma ReplaceIdempotent(foods: seq<Food>, updated: Food)
    ensures ReplaceById(ReplaceById(foods, updated), updated) == ReplaceById(foods, updated)
  {
    var once := ReplaceById(foods, updated);
    ReplaceUnchangedIff(once, updated);
  }

  /** An update keeps the id at every position. */
  lemma ReplaceKeepsIds(foods: seq<Food>, updated: Food)
    ensures forall i :: 0 <= i < |foods| ==> ReplaceById(foods, updated)[i].id == foods[i].id
  {
  }

  /** An update keeps ids unique, and on a list of unique ids it changes at
      most one position. */
  lemma ReplaceOnUniqueIds(foods: seq<Food>, updated: Food)
    requires UniqueIds(foods)
    ensures UniqueIds(ReplaceById(foods, updated))
    ensures forall i, j :: 0 <= i < j < |foods| ==>
              ReplaceById(foods, updated)[i] == foods[i] || ReplaceById(foods, updated)[j] == foods[j]
  {
    ReplaceKeepsIds(foods, updated);
  }

  // ---------------------------------------------------------------------
  // Remove by id

  /** `picked` is `foods` read at the positions `kept`. */
  ghost predicate Picks(picked: seq<Food>, foods: seq<Food>, kept: seq<int>)
  {
    |kept| == |picked| &&
    forall k :: 0 <= k < |kept| ==> 0 <= kept[k] < |foods| && picked[k] == foods[kept[k]]
  }

  /** The positions are strictly increasing, so the order is the old one. */
  ghost predicate Increasing(kept: seq<int>)
  {
    forall k, l :: 0 <= k < l < |kept| ==> kept[k] < kept[l]
  }

  /** The positions are exactly those of the entries whose id is not `id`. */
  ghost predicate KeepsExactly(foods: seq<Food>, id: int, kept: seq<int>)
  {
    forall j :: 0 <= j < |foods| ==> (j in kept <==> foods[j].id != id)
  }

  /** The entries a delete keeps are exactly those whose id differs, in
      their original order: `kept` lists their positions in the old list. */
  lemma {:induction false} RemoveKeepsOrder(foods: seq<Food>, id: int) returns (kept: seq<int>)
    ensures Picks(RemoveById(foods, id), foods, kept)
    ensures Increasing(kept)
    ensures KeepsExactly(foods, id, kept)
  {
    if foods == [] {
      kept := [];
    } else {
      var rest := RemoveKeepsOrder(foods[1..], id);
      var tail := RemoveById(foods[1..], id);
      if foods[0].id != id {
        kept := [0] + Shift(rest);
        assert RemoveById(foods, id) == [foods[0]] + tail;
        PicksConsShift(tail, foods, rest);
        IncreasingConsShift(rest);
        KeepsConsShift(foods, id, rest);
      } else {
        kept := Shift(rest);
        assert RemoveById(foods, id) == tail;
        PicksShift(tail, foods, rest);
        IncreasingShift(rest);
        KeepsShift(foods, id, rest);
      }
    }
  }

  /** Every position moved one place to the right: the positions of a
      list's tail, read as positions in the whole list. */
  function Shift(positions: seq<int>): seq<int>
  {
    seq(|positions|, k requires 0 <= k < |positions| => positions[k] + 1)
  }

  /** Positions picked from a tail, shifted, pick the same entries from the
      whole list. */
  lemma PicksShift(tail: seq<Food>, foods: seq<Food>, rest: seq<int>)
    requires foods != [] && Picks(tail, foods[1..], rest)
    ensures Picks(tail, foods, Shift(rest))
  {
    var shifted := Shift(rest);
    forall k | 0 <= k < |rest|
      ensures 0 <= shifted[k] < |foods| && tail[k] == foods[shifted[k]]
    {
      assert foods[1..][rest[k]] == foods[shifted[k]];
    }
  }

  /** As `PicksShift`, with the head entry kept in front at position 0. */
  lemma PicksConsShift(tail: seq<Food>, foods: seq<Food>, rest: seq<int>)
    requires foods != [] && Picks(tail, foods[1..], rest)
    ensures Picks([foods[0]] + tail, foods, [0] + Shift(rest))
  {
    PicksShift(tail, foods, rest);
    var shifted := Shift(rest);
    var kept, picked := [0] + shifted, [foods[0]] + tail;
    forall k | 0 < k < |kept|
      ensures 0 <= kept[k] < |foods| && picked[k] == foods[kept[k]]
    {
      assert kept[k] == shifted[k - 1] && picked[k] == tail[k - 1];
    }
  }

  /** Shifting keeps increasing positions increasing. */
  lemma IncreasingShift(rest: seq<int>)
    requires Increasing(rest)
    ensures Increasing(Shift(rest))
  {
  }

  /** Shifted non-negative increasing positions stay increasing behind a
      leading position 0. */
  lemma IncreasingConsShift(rest: seq<int>)
    requires Increasing(rest) && forall k :: 0 <= k < |rest| ==> 0 <= rest[k]
    ensures Increasing([0] + Shift(rest))
  {
    var kept := [0] + Shift(rest);
    forall k, l | 0 <= k < l < |kept|
      ensures kept[k] < kept[l]
    {
      assert kept[l] == rest[l - 1] + 1;
      if 0 < k {
        assert kept[k] == rest[k - 1] + 1;
      }
    }
  }

  /** A position is among the shifted positions of a tail exactly when it is
      not the head and its entry does not carry `id`. */
  lemma KeepsShiftTail(foods: seq<Food>, id: int, rest: seq<int>)
    requires foods != [] && KeepsExactly(foods[1..], id, rest)
    requires forall k :: 0 <= k < |rest| ==> 0 <= rest[k]
    ensures forall j :: 0 <= j < |foods| ==> (j in Shift(rest) <==> 1 <= j && foods[j].id != id)
  {
    var shifted := Shift(rest);
    forall j | 0 <= j < |foods|
      ensures j in shifted <==> 1 <= j && foods[j].id != id
    {
      if j in shifted {
        var k :| 0 <= k < |shifted| && shifted[k] == j;
        assert rest[k] == j - 1;
      }
      if 1 <= j {
        if j - 1 in rest {
          var k :| 0 <= k < |rest| && rest[k] == j - 1;
          assert shifted[k] == j;
        }
        assert foods[1..][j - 1] == foods[j];
      }
    }
  }

  /** When the head carries `id`, the shifted tail positions are exactly the
      kept ones. */
  lemma KeepsShift(foods: seq<Food>, id: int, rest: seq<int>)
    requires foods != [] && KeepsExactly(foods[1..], id, rest)
    requires forall k :: 0 <= k < |rest| ==> 0 <= rest[k]
    requires foods[0].id == id
    ensures KeepsExactly(foods, id, Shift(rest))
  {
    KeepsShiftTail(foods, id, rest);
  }

  /** When the head does not carry `id`, position 0 followed by the shifted
      tail positions are exactly the kept ones. */
  lemma KeepsConsShift(foods: seq<Food>, id: int, rest: seq<int>)
    requires foods != [] && KeepsExactly(foods[1..], id, rest)
    requires forall k :: 0 <= k < |rest| ==> 0 <= rest[k]
    requires foods[0].id != id
    ensures KeepsExactly(foods, id, [0] + Shift(rest))
  {
    KeepsShiftTail(foods, id, rest);
  }

  /** After a delete no entry carries the deleted id. */
  lemma RemoveLeavesNoId(foods: seq<Food>, id: int)
    ensures !HasId(RemoveById(foods, id), id)
  {
    var r := RemoveById(foods, id);
    forall i | 0 <= i < |r| ensures r[i].id != id {
      assert r[i] in r;
    }
  }

  /** The list is unchanged by a delete exactly when no entry carries the
      id. */
  lemma {:induction false} RemoveUnchangedIff(foods: seq<Food>, id: int)
    ensures RemoveById(foods, id) == foods <==> !HasId(foods, id)
  {
    if foods != [] {
      RemoveUnchangedIff(foods[1..], id);
      if foods[0].id == id {
        assert HasId(foods, id);
        assert |RemoveById(foods, id)| < |foods|;
      } else if HasId(foods, id) {
        var i :| 0 <= i < |foods| && foods[i].id == id;
        assert foods[1..][i - 1].id == id;
      }
    }
  }

  /** Deleting the same id twice gives the list deleting it once gives. */
  lemma RemoveIdempotent(foods: seq<Food>, id: int)
    ensures RemoveById(RemoveById(foods, id), id) == RemoveById(foods, id)
  {
    RemoveLeavesNoId(foods, id);
    RemoveUnchangedIff(RemoveById(foods, id), id);
  }

  /** A delete keeps ids unique. */
  lemma RemovePreservesUniqueIds(foods: seq<Food>, id: int)
    requires UniqueIds(foods)
    ensures UniqueIds(RemoveById(foods, id))
  {
    var kept := RemoveKeepsOrder(foods, id);
  }

  // ---------------------------------------------------------------------
  // How the transitions combine

  /** Appending keeps ids unique exactly when the added id is new. */
  lemma AppendUniqueIff(foods: seq<Food>, added: Food)
    requires UniqueIds(foods)
    ensures UniqueIds(Append(foods, added)) <==> !HasId(foods, added.id)
  {
    var r := Append(foods, added);
    if HasId(foods, added.id) {
      var i :| 0 <= i < |foods| && foods[i].id == added.id;
      assert r[i].id == r[|foods|].id;
    }
  }

  /** Deleting the id of a food just added removes it along with any older
      entry carrying that id. */
  lemma {:induction false} RemoveAfterAppend(foods: seq<Food>, added: Food)
    ensures RemoveById(Append(foods, added), added.id) == RemoveById(foods, added.id)
  {
    if foods != [] {
      assert Append(foods, added)[1..] == Append(foods[1..], added);
      RemoveAfterAppend(foods[1..], added);
    } else {
      assert Append(foods, added) == [added];
    }
  }

  /** Deleting an id after an update with that id gives the list deleting it
      directly gives: an update never changes which entries carry an id. */
  lemma {:induction false} RemoveAfterReplace(foods: seq<Food>, updated: Food)
    ensures RemoveById(ReplaceById(foods, updated), updated.id) == RemoveById(foods, updated.id)
  {
    if foods != [] {
      var r := ReplaceById(foods, updated);
      assert r[1..] == ReplaceById(foods[1..], updated);
      RemoveAfterReplace(foods[1..], updated);
    }
  }
}
