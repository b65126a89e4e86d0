/**
 * The list transformations that both the store (`src/stores/skin.ts`) and the
 * editor (`src/components/SkinEditor.tsx`) apply to the ordered skins of a
 * pack: `find`, `filter` by id, the `map`s that rename, retype or attach a
 * model, and the default name of a new skin.
 */
module SkinOps {
  import opened Wrappers
  import opened JsStrings
  import opened SkinTypes

  predicate HasId(skins: seq<Skin>, id: string) {
    exists i :: 0 <= i < |skins| && skins[i].id == id
  }

  /** The ids an injected generator hands out never repeat. */
  predicate DistinctIds(skins: seq<Skin>) {
    forall i, j :: 0 <= i < j < |skins| ==> skins[i].id != skins[j].id
  }

  function IdsOf(skins: seq<Skin>): (ids: seq<string>)
    ensures |ids| == |skins| && forall i :: 0 <= i < |skins| ==> ids[i] == skins[i].id
  {
    seq(|skins|, i requires 0 <= i < |skins| => skins[i].id)
  }

  /** Two lists with the same ids in the same order agree on `HasId` and `DistinctIds`. */
  lemma SameIds(a: seq<Skin>, b: seq<Skin>)
    requires IdsOf(a) == IdsOf(b)
    ensures DistinctIds(a) <==> DistinctIds(b)
    ensures forall id :: HasId(a, id) <==> HasId(b, id)
  {
    assert |a| == |IdsOf(a)| == |b|;
    assert forall i :: 0 <= i < |a| ==> a[i].id == IdsOf(a)[i] == b[i].id;
  }

  /** JavaScript truthiness of a selected id: `null` and `""` are falsy. */
  predicate IsSetId(selected: Option<string>) {
    selected.Some? && selected.value != ""
  }

  const DefaultNamePrefix: string := "皮肤 "

  /** The name a new skin gets when `count` skins are already listed. */
  function DefaultName(count: nat): string {
    DefaultNamePrefix + NatToString(count + 1)
  }

  /** Default names given at different list lengths differ. */
  lemma DefaultNamesDistinct(a: nat, b: nat)
    requires a != b
    ensures DefaultName(a) != DefaultName(b)
  {
    if DefaultName(a) == DefaultName(b) {
      var p := |DefaultNamePrefix|;
      assert NatToString(a + 1) == DefaultName(a)[p..] == DefaultName(b)[p..] == NatToString(b + 1);
      NatToStringInjective(a + 1, b + 1);
    }
  }

  /** The position of the first skin with the given id, if any. */
  function FindIndex(skins: seq<Skin>, id: string): (r: Option<nat>)
    ensures r.Some? <==> HasId(skins, id)
    ensures r.Some? ==>
      && r.value < |skins| && skins[r.value].id == id
      && forall j :: 0 <= j < r.value ==> skins[j].id != id
    decreases |skins|
  {
    if skins == [] then None
    else if skins[0].id == id then Some(0)
    else match FindIndex(skins[1..], id) {
      case None => None
      case Some(i) => Some(i + 1)
    }
  }

  /** The first skin with the given id, if any. */
  function Find(skins: seq<Skin>, id: string): (r: Option<Skin>)
    ensures r.Some? <==> HasId(skins, id)
    ensures r.Some? ==> r.value in skins && r.value.id == id
    ensures r.Some? ==> exists i :: 0 <= i < |skins| && skins[i] == r.value && forall j :: 0 <= j < i ==> skins[j].id != id
  {
    match FindIndex(skins, id)
    case None => None
    case Some(i) => Some(skins[i])
  }

  /** With distinct ids, `find` returns the one skin with that id. */
  lemma FindUnique(skins: seq<Skin>, i: nat)
    requires DistinctIds(skins) && i < |skins|
    ensures Find(skins, skins[i].id) == Some(skins[i])
  {
  }

  /** The skins without the given id, in their order. */
  function RemoveId(skins: seq<Skin>, id: string): (r: seq<Skin>)
    ensures |r| <= |skins|
    decreases |skins|
  {
    if skins == [] then []
    else if skins[0].id == id then RemoveId(skins[1..], id)
    else [skins[0]] + RemoveId(skins[1..], id)
  }

  lemma HasIdTail(skins: seq<Skin>, other: string)
    requires skins != []
    ensures HasId(skins, other) <==> skins[0].id == other || HasId(skins[1..], other)
  {
    if HasId(skins, other) && skins[0].id != other {
      var j :| 0 <= j < |skins| && skins[j].id == other;
      assert skins[1..][j - 1] == skins[j];
    }
    if HasId(skins[1..], other) {
      var j :| 0 <= j < |skins[1..]| && skins[1..][j].id == other;
      assert skins[j + 1] == skins[1..][j];
    }
  }

  /** Filtering keeps the order: it distributes over concatenation. */
  lemma {:induction false} RemoveIdConcat(a: seq<Skin>, b: seq<Skin>, id: string)
    ensures RemoveId(a + b, id) == RemoveId(a, id) + RemoveId(b, id)
    decreases |a|
  {
    if a != [] {
      assert (a + b)[0] == a[0];
      assert (a + b)[1..] == a[1..] + b;
      RemoveIdConcat(a[1..], b, id);
    } else {
      assert a + b == b;
    }
  }

  /** An unknown id changes nothing. */
  lemma {:induction false} RemoveAbsent(skins: seq<Skin>, id: string)
    requires !HasId(skins, id)
    ensures RemoveId(skins, id) == skins
    decreases |skins|
  {
    if skins != [] {
      HasIdTail(skins, id);
      RemoveAbsent(skins[1..], id);
      assert skins == [skins[0]] + skins[1..];
    }
  }

  /** Exactly the ids other than the removed one survive. */
  lemma {:induction false} RemoveHasId(skins: seq<Skin>, id: string, other: string)
    ensures HasId(RemoveId(skins, id), other) <==> HasId(skins, other) && other != id
    decreases |skins|
  {
    if skins != [] {
      HasIdTail(skins, other);
      RemoveHasId(skins[1..], id, other);
      if skins[0].id != id {
        HasIdTail(RemoveId(skins, id), other);
        assert RemoveId(skins, id)[1..] == RemoveId(skins[1..], id);
      }
    }
  }

  /** With distinct ids, the id at `i` occurs neither before nor after `i`. */
  lemma OnlyAt(skins: seq<Skin>, i: nat)
    requires DistinctIds(skins) && i < |skins|
    ensures !HasId(skins[..i], skins[i].id) && !HasId(skins[i + 1..], skins[i].id)
  {
    var before, after := skins[..i], skins[i + 1..];
    forall j | 0 <= j < |before| ensures before[j].id != skins[i].id {
      assert before[j] == skins[j];
    }
    forall j | 0 <= j < |after| ensures after[j].id != skins[i].id {
      assert after[j] == skins[i + 1 + j];
    }
  }

  /** With distinct ids, deleting a listed id removes exactly that skin and keeps
      the others in order. */
  lemma RemoveListed(skins: seq<Skin>, i: nat)
    requires DistinctIds(skins) && i < |skins|
    ensures RemoveId(skins, skins[i].id) == skins[..i] + skins[i + 1..]
  {
    OnlyAt(skins, i);
    SplitAt(skins, i);
    RemoveAround(skins[..i], skins[i], skins[i + 1..]);
  }

  /** Filtering out the id of `x` from a list where only `x` has it leaves the
      skins around `x`. */
  lemma RemoveAround(before: seq<Skin>, x: Skin, after: seq<Skin>)
    requires !HasId(before, x.id) && !HasId(after, x.id)
    ensures RemoveId((before + [x]) + after, x.id) == before + after
  {
    RemoveIdConcat(before + [x], after, x.id);
    RemoveIdConcat(before, [x], x.id);
    RemoveAbsent(before, x.id);
    RemoveAbsent(after, x.id);
    assert RemoveId([x], x.id) == [];
    assert before + [] == before;
  }

  lemma SplitAt(skins: seq<Skin>, i: nat)
    requires i < |skins|
    ensures skins == (skins[..i] + [skins[i]]) + skins[i + 1..]
  {
  }

  /** Filtering keeps the ids distinct. */
  lemma {:induction false} RemoveKeepsDistinct(skins: seq<Skin>, id: string)
    requires DistinctIds(skins)
    ensures DistinctIds(RemoveId(skins, id))
    decreases |skins|
  {
    if skins != [] {
      var rest := skins[1..];
      assert DistinctIds(rest) by {
        forall a, b | 0 <= a < b < |rest| ensures rest[a].id != rest[b].id {
          assert rest[a] == skins[a + 1] && rest[b] == skins[b + 1];
        }
      }
      RemoveKeepsDistinct(rest, id);
      if skins[0].id != id {
        var tail := RemoveId(rest, id);
        assert !HasId(rest, skins[0].id) by {
          forall j | 0 <= j < |rest| ensures rest[j].id != skins[0].id {
            assert rest[j] == skins[j + 1];
          }
        }
        RemoveHasId(rest, id, skins[0].id);
        var r := [skins[0]] + tail;
        forall a, b | 0 <= a < b < |r| ensures r[a].id != r[b].id {
          assert r[b] == tail[b - 1];
          if a > 0 { assert r[a] == tail[a - 1]; }
        }
      }
    }
  }

  /** The store's `renameSkin`: `find` the first skin with that id and set its
      name in place; no check on the name. */
  function RenameFirst(skins: seq<Skin>, id: string, newName: string): (r: seq<Skin>)
    ensures IdsOf(r) == IdsOf(skins)
  {
    match FindIndex(skins, id)
    case None => skins
    case Some(i) => skins[i := skins[i].(name := newName)]
  }

  /** The editor's `handleSkinRename`: a `map` that renames every skin with that id. */
  function RenameAll(skins: seq<Skin>, id: string, newName: string): (r: seq<Skin>)
    ensures IdsOf(r) == IdsOf(skins)
  {
    seq(|skins|, i requires 0 <= i < |skins| =>
      if skins[i].id == id then skins[i].(name := newName) else skins[i])
  }

  /** Renaming touches nothing but the name of the first skin with that id, and
      an unknown id is a no-op. */
  lemma RenameFirstEffect(skins: seq<Skin>, id: string, newName: string)
    ensures var r := RenameFirst(skins, id, newName);
      && |r| == |skins|
      && (!HasId(skins, id) ==> r == skins)
      && (HasId(skins, id) ==>
            var i := FindIndex(skins, id).value;
            && r[i].name == newName && r[i] == skins[i].(name := newName)
            && forall j :: 0 <= j < |skins| && j != i ==> r[j] == skins[j])
  {
  }

  /** On a pack with distinct ids the store's and the editor's renames agree. */
  lemma RenamesAgree(skins: seq<Skin>, id: string, newName: string)
    requires DistinctIds(skins)
    ensures RenameFirst(skins, id, newName) == RenameAll(skins, id, newName)
  {
    var a, b := RenameFirst(skins, id, newName), RenameAll(skins, id, newName);
    assert |a| == |b|;
    forall j | 0 <= j < |skins| ensures a[j] == b[j] {
      match FindIndex(skins, id) {
        case None =>
        case Some(i) => assert skins[j].id == id ==> j == i;
      }
    }
  }

  /** A copy of the list in which every skin with the given id has the new model
      type. */
  function SetModelTypeWhere(skins: seq<Skin>, id: string, t: ModelType): (r: seq<Skin>)
    ensures IdsOf(r) == IdsOf(skins)
  {
    seq(|skins|, i requires 0 <= i < |skins| =>
      if skins[i].id == id then skins[i].(modelType := t) else skins[i])
  }

  /** A copy of the list in which every skin carries the given model. */
  function AttachModel(skins: seq<Skin>, model: CustomModel): (r: seq<Skin>)
    ensures IdsOf(r) == IdsOf(skins)
  {
    seq(|skins|, i requires 0 <= i < |skins| => skins[i].(customModel := Some(model)))
  }

  /** After attaching, every skin carries the model and nothing else about any
      skin has changed. */
  lemma AttachModelEffect(skins: seq<Skin>, model: CustomModel)
    ensures var r := AttachModel(skins, model);
      && |r| == |skins|
      && forall i :: 0 <= i < |skins| ==>
           && r[i].customModel == Some(model)
           && r[i].(customModel := skins[i].customModel) == skins[i]
  {
  }
}
