/**
 * What the store does to one of its arrays, stated on values: append,
 * replace-the-first-element-with-this-id and batch removal by position, the
 * ids-are-distinct property, and the two scans (`firstIndex(where:)` and
 * `remove(atOffsets:)`) as loops proved against those definitions.
 *
 * Every definition is generic in the record type; `idOf` is the record's
 * `Identifiable` identity (`Models.MemberId` and its siblings).
 */
module Collections {
  import opened Values

  /** No element of `s` has identity `id`. */
  ghost predicate Fresh<T>(id: Uuid, s: seq<T>, idOf: T -> Uuid) {
    forall k :: 0 <= k < |s| ==> idOf(s[k]) != id
  }

  /** No two elements of `s` share an identity. */
  ghost predicate DistinctIds<T>(s: seq<T>, idOf: T -> Uuid) {
    forall i, j :: 0 <= i < j < |s| ==> idOf(s[i]) != idOf(s[j])
  }

  /** The identities of `s`, in order. */
  function Ids<T>(s: seq<T>, idOf: T -> Uuid): seq<Uuid> {
    seq(|s|, k requires 0 <= k < |s| => idOf(s[k]))
  }

  // ---------------------------------------------------------------------
  // firstIndex(where: { $0.id == id })

  /**
   * The position of the first element whose identity is `id`, or `None`
   * when there is none.
   */
  function FirstIndex<T>(s: seq<T>, idOf: T -> Uuid, id: Uuid): (r: Option<nat>)
    ensures r.None? <==> Fresh(id, s, idOf)
    ensures r.Some? ==> r.value < |s| && idOf(s[r.value]) == id && Fresh(id, s[..r.value], idOf)
    decreases |s|
  {
    if s == [] then None
    else if idOf(s[0]) == id then Some(0)
    else
      match FirstIndex(s[1..], idOf, id)
      case None => None
      case Some(k) => Some(k + 1)
  }

  /** A match with no match before it is the one `FirstIndex` finds. */
  lemma FirstIndexIsFirstMatch<T>(s: seq<T>, idOf: T -> Uuid, id: Uuid, i: nat)
    requires i < |s| && idOf(s[i]) == id && Fresh(id, s[..i], idOf)
    ensures FirstIndex(s, idOf, id) == Some(i)
  {
  }

  /** `firstIndex(where:)`: a left-to-right scan for the first element with identity `id`. */
  method FindFirst<T>(s: seq<T>, idOf: T -> Uuid, id: Uuid) returns (r: Option<nat>)
    ensures r == FirstIndex(s, idOf, id)
  {
    var i := 0;
    while i < |s|
      invariant 0 <= i <= |s|
      invariant Fresh(id, s[..i], idOf)
    {
      if idOf(s[i]) == id {
        FirstIndexIsFirstMatch(s, idOf, id, i);
        return Some(i);
      }
      assert forall k :: 0 <= k < i ==> s[..i + 1][k] == s[..i][k];
      i := i + 1;
    }
    assert s[..i] == s;
    return None;
  }

  // ---------------------------------------------------------------------
  // update: replace the first element with the same identity

  /**
   * `x` in place of the first element of `s` whose identity is `x`'s;
   * `s` itself when no element has that identity.
   */
  function ReplaceFirst<T>(s: seq<T>, idOf: T -> Uuid, x: T): seq<T> {
    match FirstIndex(s, idOf, idOf(x))
    case None => s
    case Some(i) => s[i := x]
  }

  /**
   * Position by position: `x` stands exactly where the first element with
   * its identity stood, every other position keeps its element, and the
   * length is unchanged.
   */
  lemma ReplaceFirstAt<T>(s: seq<T>, idOf: T -> Uuid, x: T, k: nat)
    requires k < |s|
    ensures |ReplaceFirst(s, idOf, x)| == |s|
    ensures ReplaceFirst(s, idOf, x)[k] ==
      if idOf(s[k]) == idOf(x) && Fresh(idOf(x), s[..k], idOf) then x else s[k]
  {
  }

  /** With no element of identity `idOf(x)`, update changes nothing. */
  lemma ReplaceFirstMiss<T>(s: seq<T>, idOf: T -> Uuid, x: T)
    requires Fresh(idOf(x), s, idOf)
    ensures ReplaceFirst(s, idOf, x) == s
  {
  }

  /** Update keeps every identity, in order: the matched element keeps its id. */
  lemma ReplaceFirstKeepsIds<T>(s: seq<T>, idOf: T -> Uuid, x: T)
    ensures Ids(ReplaceFirst(s, idOf, x), idOf) == Ids(s, idOf)
  {
  }

  /** Update keeps identities distinct. */
  lemma ReplaceFirstKeepsDistinct<T>(s: seq<T>, idOf: T -> Uuid, x: T)
    requires DistinctIds(s, idOf)
    ensures DistinctIds(ReplaceFirst(s, idOf, x), idOf)
  {
  }

  /** Updating twice with the same record is the same as updating once. */
  lemma ReplaceFirstIdempotent<T>(s: seq<T>, idOf: T -> Uuid, x: T)
    ensures ReplaceFirst(ReplaceFirst(s, idOf, x), idOf, x) == ReplaceFirst(s, idOf, x)
  {
  }

  // ---------------------------------------------------------------------
  // add: append at the end

  /**
   * Appending keeps identities distinct exactly when the new record's
   * identity is fresh.
   */
  lemma AppendKeepsDistinct<T>(s: seq<T>, idOf: T -> Uuid, x: T)
    requires DistinctIds(s, idOf)
    ensures DistinctIds(s + [x], idOf) <==> Fresh(idOf(x), s, idOf)
  {
    var t := s + [x];
    if DistinctIds(t, idOf) {
      forall k | 0 <= k < |s| ensures idOf(s[k]) != idOf(x) {
        assert t[k] == s[k] && t[|s|] == x;
      }
    }
  }

  // ---------------------------------------------------------------------
  // remove(atOffsets:)

  /**
   * `s` without the elements at the positions in `offsets`; positions refer
   * to `s` before anything is removed, and survivors keep their order.
   */
  function RemoveOffsets<T>(s: seq<T>, offsets: set<nat>): seq<T>
    decreases |s|
  {
    if s == [] then []
    else
      var last := |s| - 1;
      RemoveOffsets(s[..last], offsets) + (if last in offsets then [] else [s[last]])
  }

  /** The positions below `n` that are not in `offsets`, in increasing order. */
  function Survivors(n: nat, offsets: set<nat>): (r: seq<nat>)
    ensures forall k :: 0 <= k < |r| ==> r[k] < n && r[k] !in offsets
    ensures forall i :: 0 <= i < n && i !in offsets ==> i in r
    ensures forall k, l :: 0 <= k < l < |r| ==> r[k] < r[l]
  {
    if n == 0 then []
    else Survivors(n - 1, offsets) + (if n - 1 in offsets then [] else [n - 1])
  }

  /** The positions below `n` that `offsets` names. */
  function Doomed(n: nat, offsets: set<nat>): set<nat> {
    set i | i in offsets && i < n
  }

  /**
   * Removal keeps exactly the survivors: its result lists, in order, the
   * elements of `s` at the positions `Survivors` gives.
   */
  lemma {:induction false} RemoveOffsetsSelects<T>(s: seq<T>, offsets: set<nat>)
    ensures |RemoveOffsets(s, offsets)| == |Survivors(|s|, offsets)|
    ensures forall k :: 0 <= k < |RemoveOffsets(s, offsets)| ==>
      RemoveOffsets(s, offsets)[k] == s[Survivors(|s|, offsets)[k]]
    decreases |s|
  {
    if s != [] {
      var last := |s| - 1;
      var init := s[..last];
      RemoveOffsetsSelects(init, offsets);
      var r, r0 := RemoveOffsets(s, offsets), RemoveOffsets(init, offsets);
      var sv, sv0 := Survivors(|s|, offsets), Survivors(last, offsets);
      assert r == r0 + (if last in offsets then [] else [s[last]]);
      assert sv == sv0 + (if last in offsets then [] else [last]);
      forall k | 0 <= k < |r|
        ensures r[k] == s[sv[k]]
      {
        if k < |r0| {
          assert r[k] == r0[k] == init[sv0[k]];
        }
      }
    }
  }

  /** Counting up to `n` adds position `n - 1` to the removed ones or not. */
  lemma DoomedStep(n: nat, offsets: set<nat>)
    requires n > 0
    ensures n - 1 !in Doomed(n - 1, offsets)
    ensures Doomed(n, offsets) == Doomed(n - 1, offsets) + (if n - 1 in offsets then {n - 1} else {})
  {
  }

  /** Every position below `n` either survives or is removed, never both. */
  lemma {:induction false} SurvivorsCount(n: nat, offsets: set<nat>)
    ensures |Survivors(n, offsets)| + |Doomed(n, offsets)| == n
  {
    if n > 0 {
      SurvivorsCount(n - 1, offsets);
      DoomedStep(n, offsets);
    }
  }

  /** With every offset in range, exactly `|offsets|` elements go. */
  lemma RemoveOffsetsLength<T>(s: seq<T>, offsets: set<nat>)
    requires forall o :: o in offsets ==> o < |s|
    ensures |RemoveOffsets(s, offsets)| == |s| - |offsets|
  {
    RemoveOffsetsSelects(s, offsets);
    SurvivorsCount(|s|, offsets);
    assert Doomed(|s|, offsets) == offsets;
  }

  /** Removing no position is the identity. */
  lemma {:induction false} RemoveNothing<T>(s: seq<T>)
    ensures RemoveOffsets(s, {}) == s
    decreases |s|
  {
    if s != [] {
      RemoveNothing(s[..|s| - 1]);
    }
  }

  /** Removal keeps identities distinct: it only drops elements. */
  lemma RemoveOffsetsKeepsDistinct<T>(s: seq<T>, idOf: T -> Uuid, offsets: set<nat>)
    requires DistinctIds(s, idOf)
    ensures DistinctIds(RemoveOffsets(s, offsets), idOf)
  {
    RemoveOffsetsSelects(s, offsets);
  }

  /**
   * With distinct identities, an element is still present after removal
   * exactly when its position was not removed.
   */
  lemma RemoveOffsetsKeepsExactlySurvivors<T>(s: seq<T>, idOf: T -> Uuid, offsets: set<nat>, p: nat)
    requires DistinctIds(s, idOf) && p < |s|
    ensures Fresh(idOf(s[p]), RemoveOffsets(s, offsets), idOf) <==> p in offsets
  {
    var r := RemoveOffsets(s, offsets);
    var sv := Survivors(|s|, offsets);
    RemoveOffsetsSelects(s, offsets);
    if p !in offsets {
      var k :| 0 <= k < |sv| && sv[k] == p;
      assert r[k] == s[p];
    } else {
      forall k | 0 <= k < |r| ensures idOf(r[k]) != idOf(s[p]) {
        assert r[k] == s[sv[k]] && sv[k] != p;
      }
    }
  }

  /** `remove(atOffsets:)`: one pass that keeps the elements whose position is not named. */
  method RemoveAtOffsets<T>(s: seq<T>, offsets: set<nat>) returns (r: seq<T>)
    requires forall o :: o in offsets ==> o < |s|
    ensures r == RemoveOffsets(s, offsets)
  {
    r := [];
    var i := 0;
    while i < |s|
      invariant 0 <= i <= |s|
      invariant r == RemoveOffsets(s[..i], offsets)
    {
      assert s[..i + 1][..i] == s[..i];
      if i !in offsets {
        r := r + [s[i]];
      }
      i := i + 1;
    }
    assert s[..i] == s;
  }
}
