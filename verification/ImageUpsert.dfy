/** Update of the image list of a kustomization: each target image gets the release tag. */
module ImageUpsert {
  import opened Prelude

  /** An entry of the list: a dictionary with at least, normally, a "name". */
  type Image = map<string, string>

  datatype Target = Target(name: string, newName: string)

  predicate Named(image: Image, name: string) {
    "name" in image && image["name"] == name
  }

  function Retagged(image: Image, newName: string, tag: string): Image {
    image["newName" := newName]["newTag" := tag]
  }

  function NewImage(name: string, newName: string, tag: string): Image {
    map["name" := name, "newName" := newName, "newTag" := tag]
  }

  // ---------- step by step ----------

  /** First entry with the name, or the length of the list. */
  function IndexOf(images: seq<Image>, name: string): (i: nat)
    ensures i <= |images|
    ensures forall j :: 0 <= j < i ==> !Named(images[j], name)
    ensures i < |images| ==> Named(images[i], name)
  {
    if images == [] || Named(images[0], name) then 0 else 1 + IndexOf(images[1..], name)
  }

  /** Looking for the name never meets an entry without one (which raises a key error). */
  predicate Searchable(images: seq<Image>, name: string) {
    forall j :: 0 <= j < IndexOf(images, name) ==> "name" in images[j]
  }

  function Upsert(images: seq<Image>, t: Target, tag: string): Result<seq<Image>, ()> {
    var i := IndexOf(images, t.name);
    if !Searchable(images, t.name) then Err(())
    else if i < |images| then Ok(images[i := Retagged(images[i], t.newName, tag)])
    else Ok(images + [NewImage(t.name, t.newName, tag)])
  }

  function UpsertAll(images: seq<Image>, targets: seq<Target>, tag: string): Result<seq<Image>, ()> {
    if targets == [] then Ok(images)
    else
      var rest := UpsertAll(images, targets[..|targets| - 1], tag);
      if rest.Err? then rest else Upsert(rest.value, targets[|targets| - 1], tag)
  }

  class Kustomization {
    var images: seq<Image>

    /** Nested search and update in place; a missing "name" raises an error and nothing is written back. */
    method UpdateImages(targets: seq<Target>, tag: string) returns (ok: bool)
      modifies this
      ensures ok <==> UpsertAll(old(images), targets, tag).Ok?
      ensures ok ==> images == UpsertAll(old(images), targets, tag).value
    {
      for k := 0 to |targets|
        invariant UpsertAll(old(images), targets[..k], tag) == Ok(images)
      {
        var target := targets[k];
        assert targets[..k + 1][..k] == targets[..k];
        ghost var start := images;
        var found := false;
        var i := 0;
        while i < |images| && !found
          invariant i <= |images|
          invariant !found ==> images == start && i <= IndexOf(start, target.name) && forall j :: 0 <= j < i ==> "name" in start[j]
          invariant found ==> Upsert(start, target, tag) == Ok(images)
          decreases |images| - i, !found
        {
          if "name" !in images[i] {
            FailureStays(old(images), targets, tag, k);
            return false;
          }
          if images[i]["name"] == target.name {
            assert i == IndexOf(start, target.name);
            images := images[i := images[i]["newName" := target.newName]];
            images := images[i := images[i]["newTag" := tag]];
            assert images == start[i := Retagged(start[i], target.newName, tag)];
            found := true;
          } else {
            i := i + 1;
          }
        }
        if !found {
          images := images + [NewImage(target.name, target.newName, tag)];
        }
      }
      assert targets[..|targets|] == targets;
      return true;
    }
  }

  /** An error at one target is an error of the whole update. */
  lemma {:induction false} FailureStays(images: seq<Image>, targets: seq<Target>, tag: string, k: nat)
    requires k < |targets| && UpsertAll(images, targets[..k + 1], tag).Err?
    ensures UpsertAll(images, targets, tag).Err?
    decreases |targets|
  {
    if k + 1 < |targets| {
      assert targets[..|targets| - 1][..k + 1] == targets[..k + 1];
      FailureStays(images, targets[..|targets| - 1], tag, k);
    } else {
      assert targets[..k + 1] == targets;
    }
  }

  // ---------- all at once ----------

  ghost predicate IsTarget(targets: seq<Target>, name: string) {
    exists i :: 0 <= i < |targets| && targets[i].name == name
  }

  /** The last target with the name decides. */
  function NewName(targets: seq<Target>, name: string): string {
    if targets == [] then ""
    else if targets[|targets| - 1].name == name then targets[|targets| - 1].newName
    else NewName(targets[..|targets| - 1], name)
  }

  ghost predicate Present(images: seq<Image>, name: string) {
    IndexOf(images, name) < |images|
  }

  /** Target names that are not in the list, in the order of their first occurrence. */
  ghost function Missing(images: seq<Image>, targets: seq<Target>): seq<string> {
    if targets == [] then []
    else
      var init, t := targets[..|targets| - 1], targets[|targets| - 1];
      Missing(images, init) + if Present(images, t.name) || IsTarget(init, t.name) then [] else [t.name]
  }

  /** Entry `i` of the list afterwards: retagged if it is the first with the name of a target. */
  ghost function Updated(images: seq<Image>, targets: seq<Target>, tag: string, i: nat): Image
    requires i < |images|
  {
    var image := images[i];
    if "name" in image && IsTarget(targets, image["name"]) && IndexOf(images, image["name"]) == i
    then Retagged(image, NewName(targets, image["name"]), tag)
    else image
  }

  /** Entry added for a missing target. */
  ghost function Added(targets: seq<Target>, name: string, tag: string): Image {
    NewImage(name, NewName(targets, name), tag)
  }

  /** Direct description of the result: the old entries in place, then the missing targets. */
  ghost function Outcome(images: seq<Image>, targets: seq<Target>, tag: string): (r: seq<Image>)
    ensures |r| == |images| + |Missing(images, targets)|
  {
    var missing := Missing(images, targets);
    seq(|images|, i requires 0 <= i < |images| => Updated(images, targets, tag, i)) +
    seq(|missing|, i requires 0 <= i < |missing| => Added(targets, missing[i], tag))
  }

  /** Every target can be searched for in the original list. */
  ghost predicate AllSearchable(images: seq<Image>, targets: seq<Target>) {
    forall i :: 0 <= i < |targets| ==> Searchable(images, targets[i].name)
  }

  /** The missing names are the targets that are absent, each once. */
  lemma {:induction false} MissingHolds(images: seq<Image>, targets: seq<Target>, name: string)
    ensures name in Missing(images, targets) <==> IsTarget(targets, name) && !Present(images, name)
    ensures forall i, j :: 0 <= i < j < |Missing(images, targets)| ==> Missing(images, targets)[i] != Missing(images, targets)[j]
  {
    if targets != [] {
      var init, t := targets[..|targets| - 1], targets[|targets| - 1];
      MissingHolds(images, init, name);
      MissingHolds(images, init, t.name);
      TargetsSplit(targets, name);
    }
  }

  lemma IndexOfIs(images: seq<Image>, name: string, i: nat)
    requires i <= |images| && (forall j :: 0 <= j < i ==> !Named(images[j], name)) && (i < |images| ==> Named(images[i], name))
    ensures IndexOf(images, name) == i
  {}

  /** Entries keep their names; added ones come last, named after the missing targets. */
  lemma OutcomeNames(images: seq<Image>, targets: seq<Target>, tag: string)
    ensures var r, missing := Outcome(images, targets, tag), Missing(images, targets);
            && (forall i :: 0 <= i < |images| ==> ("name" in images[i] <==> "name" in r[i]))
            && (forall i :: 0 <= i < |images| && "name" in images[i] ==> images[i]["name"] == r[i]["name"])
            && (forall i :: |images| <= i < |r| ==> "name" in r[i] && r[i]["name"] == missing[i - |images|])
  {}

  /** Where a name is found in the result, and whether the search for it is safe. */
  lemma OutcomeIndex(images: seq<Image>, targets: seq<Target>, tag: string, name: string)
    ensures var r, missing := Outcome(images, targets, tag), Missing(images, targets);
            && (Present(images, name) ==> IndexOf(r, name) == IndexOf(images, name))
            && (forall k :: 0 <= k < |missing| && missing[k] == name ==> IndexOf(r, name) == |images| + k)
            && (!Present(images, name) && name !in missing ==> IndexOf(r, name) == |r|)
            && (Searchable(r, name) <==> Searchable(images, name))
  {
    var r, missing := Outcome(images, targets, tag), Missing(images, targets);
    OutcomeNames(images, targets, tag);
    MissingHolds(images, targets, name);
    hide Outcome, Missing, IsTarget;
    if Present(images, name) {
      IndexOfIs(r, name, IndexOf(images, name));
    } else {
      var k := if name in missing then Position(missing, name) else |missing|;
      IndexOfIs(r, name, |images| + k);
      assert forall j :: 0 <= j < |images| ==> ("name" in images[j] <==> "name" in r[j]);
    }
  }

  ghost function Position(names: seq<string>, name: string): (k: nat)
    requires name in names
    ensures k < |names| && names[k] == name && forall j :: 0 <= j < k ==> names[j] != name
  {
    if names[0] == name then 0 else 1 + Position(names[1..], name)
  }

  lemma TargetsSplit(targets: seq<Target>, name: string)
    requires targets != []
    ensures IsTarget(targets, name) <==> IsTarget(targets[..|targets| - 1], name) || targets[|targets| - 1].name == name
  {
    var init := targets[..|targets| - 1];
    if i :| 0 <= i < |targets| && targets[i].name == name && i < |init| { assert init[i] == targets[i]; }
    if i :| 0 <= i < |init| && init[i].name == name { assert targets[i].name == name; }
    assert targets[|init|] == targets[|targets| - 1];
  }

  /** One more target retags the first entry with its name, among the old ones ... */
  lemma OneMoreOld(images: seq<Image>, targets: seq<Target>, tag: string, i: nat)
    requires targets != [] && i < |images|
    ensures var init, t := targets[..|targets| - 1], targets[|targets| - 1];
            Updated(images, targets, tag, i) ==
            if i == IndexOf(images, t.name) then Retagged(Updated(images, init, tag, i), t.newName, tag) else Updated(images, init, tag, i)
  {
    if "name" in images[i] {
      TargetsSplit(targets, images[i]["name"]);
    }
  }

  /** ... or among the added ones. */
  lemma OneMoreAdded(targets: seq<Target>, tag: string, name: string)
    requires targets != []
    ensures var init, t := targets[..|targets| - 1], targets[|targets| - 1];
            Added(targets, name, tag) == if name == t.name then Retagged(Added(init, name, tag), t.newName, tag) else Added(init, name, tag)
  {}

  /** Entry `i` of the direct description. */
  lemma OutcomeAt(images: seq<Image>, targets: seq<Target>, tag: string, i: nat)
    requires i < |Outcome(images, targets, tag)|
    ensures Outcome(images, targets, tag)[i] ==
            if i < |images| then Updated(images, targets, tag, i) else Added(targets, Missing(images, targets)[i - |images|], tag)
  {
    hide Updated, Added, Missing;
  }

  /** One more target appends at most one missing name. */
  lemma OneMoreMissing(images: seq<Image>, targets: seq<Target>)
    requires targets != []
    ensures Missing(images, targets[..|targets| - 1]) <= Missing(images, targets)
  {
    hide Present, IsTarget;
  }

  /** One more target changes the entry at the index of its name, or adds one at the end. */
  lemma OneMoreEntry(images: seq<Image>, targets: seq<Target>, tag: string, i: nat)
    requires targets != [] && i < |Outcome(images, targets[..|targets| - 1], tag)|
    ensures var init, t := targets[..|targets| - 1], targets[|targets| - 1];
            var r := Outcome(images, init, tag);
            && |Outcome(images, targets, tag)| >= |r|
            && Outcome(images, targets, tag)[i] == if i == IndexOf(r, t.name) then Retagged(r[i], t.newName, tag) else r[i]
  {
    hide *;
    var init, t := targets[..|targets| - 1], targets[|targets| - 1];
    OneMoreMissing(images, targets);
    OutcomeAt(images, targets, tag, i);
    OutcomeAt(images, init, tag, i);
    if i < |images| {
      OneMoreOld(images, targets, tag, i);
      OldIndex(images, init, tag, t.name, i);
    } else {
      OneMoreAdded(targets, tag, Missing(images, init)[i - |images|]);
      AddedIndex(images, init, tag, i);
      NameAt(images, init, tag, t.name, i);
    }
  }

  /** The index of a name in the result is that in the old list, as far as old entries go. */
  lemma OldIndex(images: seq<Image>, targets: seq<Target>, tag: string, name: string, i: nat)
    requires i < |images|
    ensures i == IndexOf(Outcome(images, targets, tag), name) <==> i == IndexOf(images, name)
  {
    OutcomeIndex(images, targets, tag, name);
    hide Outcome;
  }

  /** An added entry is found under its own name ... */
  lemma AddedIndex(images: seq<Image>, targets: seq<Target>, tag: string, i: nat)
    requires |images| <= i < |Outcome(images, targets, tag)|
    ensures IndexOf(Outcome(images, targets, tag), Missing(images, targets)[i - |images|]) == i
  {
    OutcomeIndex(images, targets, tag, Missing(images, targets)[i - |images|]);
    hide Outcome, Missing;
  }

  /** ... and under no other. */
  lemma NameAt(images: seq<Image>, targets: seq<Target>, tag: string, name: string, i: nat)
    requires |images| <= i < |Outcome(images, targets, tag)|
    ensures i == IndexOf(Outcome(images, targets, tag), name) ==> Missing(images, targets)[i - |images|] == name
  {
    OutcomeNames(images, targets, tag);
    hide Outcome, Missing;
  }

  /** One more target that is not found adds its entry at the end; one that is found adds none. */
  lemma OneMoreLength(images: seq<Image>, targets: seq<Target>, tag: string)
    requires targets != []
    ensures var init, t := targets[..|targets| - 1], targets[|targets| - 1];
            var r, all := Outcome(images, init, tag), Outcome(images, targets, tag);
            if IndexOf(r, t.name) < |r| then |all| == |r| else |all| == |r| + 1 && all[|r|] == NewImage(t.name, t.newName, tag)
  {
    var init, t := targets[..|targets| - 1], targets[|targets| - 1];
    OutcomeIndex(images, init, tag, t.name);
    MissingHolds(images, init, t.name);
    NewNameOfLast(targets);
    hide Outcome, IsTarget, NewName, IndexOf, Searchable;
    if IndexOf(Outcome(images, init, tag), t.name) == |Outcome(images, init, tag)| {
      OutcomeAt(images, targets, tag, |Outcome(images, init, tag)|);
    }
  }

  /** One more target turns the direct description of the earlier ones into that of all. */
  lemma OneMoreTarget(images: seq<Image>, targets: seq<Target>, tag: string)
    requires targets != []
    ensures var init, t := targets[..|targets| - 1], targets[|targets| - 1];
            Upsert(Outcome(images, init, tag), t, tag) ==
            if Searchable(images, t.name) then Ok(Outcome(images, targets, tag)) else Err(())
  {
    hide *;
    var init, t := targets[..|targets| - 1], targets[|targets| - 1];
    var r, all := Outcome(images, init, tag), Outcome(images, targets, tag);
    var at := IndexOf(r, t.name);
    OutcomeIndex(images, init, tag, t.name);
    OneMoreLength(images, targets, tag);
    forall i | 0 <= i < |r|
      ensures all[i] == if i == at then Retagged(r[i], t.newName, tag) else r[i]
    {
      OneMoreEntry(images, targets, tag, i);
    }
    UpsertIs(r, t, tag, all);
  }

  lemma UpsertIs(images: seq<Image>, t: Target, tag: string, all: seq<Image>)
    requires var at := IndexOf(images, t.name);
             if at < |images| then |all| == |images| else |all| == |images| + 1 && all[|images|] == NewImage(t.name, t.newName, tag)
    requires forall i :: 0 <= i < |images| ==>
               all[i] == if i == IndexOf(images, t.name) then Retagged(images[i], t.newName, tag) else images[i]
    ensures Upsert(images, t, tag) == if Searchable(images, t.name) then Ok(all) else Err(())
  {
    hide Retagged, NewImage, Searchable, IndexOf;
    var at := IndexOf(images, t.name);
    if at < |images| {
      assert all == images[at := Retagged(images[at], t.newName, tag)];
    } else {
      assert all == images + [NewImage(t.name, t.newName, tag)];
    }
  }

  lemma NewNameOfLast(targets: seq<Target>)
    requires targets != []
    ensures NewName(targets, targets[|targets| - 1].name) == targets[|targets| - 1].newName
  {}

  lemma SearchableSplit(images: seq<Image>, targets: seq<Target>)
    requires targets != []
    ensures AllSearchable(images, targets) <==>
            AllSearchable(images, targets[..|targets| - 1]) && Searchable(images, targets[|targets| - 1].name)
  {
    hide Searchable;
  }

  /** The loop computes the direct description, and fails exactly when some target cannot be searched for. */
  lemma {:induction false} UpsertAllIs(images: seq<Image>, targets: seq<Target>, tag: string)
    ensures UpsertAll(images, targets, tag) == if AllSearchable(images, targets) then Ok(Outcome(images, targets, tag)) else Err(())
  {
    if targets == [] {
      assert Outcome(images, targets, tag) == images;
    } else {
      hide Outcome, Upsert, AllSearchable, Searchable;
      UpsertAllIs(images, targets[..|targets| - 1], tag);
      OneMoreTarget(images, targets, tag);
      SearchableSplit(images, targets);
    }
  }

  // ---------- laws ----------

  /** Last write wins: updating with one tag and then with another is updating with the other. */
  lemma LastTagWins(images: seq<Image>, targets: seq<Target>, a: string, b: string)
    ensures UpsertAll(images, targets, a).Ok? <==> UpsertAll(images, targets, b).Ok?
    ensures UpsertAll(images, targets, a).Ok? ==>
              UpsertAll(UpsertAll(images, targets, a).value, targets, b) == UpsertAll(images, targets, b)
  {
    UpsertAllIs(images, targets, a);
    UpsertAllIs(images, targets, b);
    if AllSearchable(images, targets) {
      var r := Outcome(images, targets, a);
      UpsertAllIs(r, targets, b);
      AllFound(images, targets, a);
      OverwriteOutcome(images, targets, a, b);
    }
  }

  /** Updating twice is updating once. */
  lemma Idempotent(images: seq<Image>, targets: seq<Target>, tag: string)
    requires UpsertAll(images, targets, tag).Ok?
    ensures UpsertAll(UpsertAll(images, targets, tag).value, targets, tag) == UpsertAll(images, targets, tag)
  {
    LastTagWins(images, targets, tag, tag);
  }

  lemma AllFound(images: seq<Image>, targets: seq<Target>, tag: string)
    ensures forall i :: 0 <= i < |targets| ==> Present(Outcome(images, targets, tag), targets[i].name)
    ensures AllSearchable(Outcome(images, targets, tag), targets) <==> AllSearchable(images, targets)
  {
    var r := Outcome(images, targets, tag);
    forall i | 0 <= i < |targets|
      ensures Present(r, targets[i].name) && (Searchable(r, targets[i].name) <==> Searchable(images, targets[i].name))
    {
      OutcomeIndex(images, targets, tag, targets[i].name);
      MissingHolds(images, targets, targets[i].name);
    }
  }

  lemma {:induction false} NothingMissing(images: seq<Image>, targets: seq<Target>)
    requires forall i :: 0 <= i < |targets| ==> Present(images, targets[i].name)
    ensures Missing(images, targets) == []
  {
    if targets != [] {
      NothingMissing(images, targets[..|targets| - 1]);
    }
  }

  /** An old entry retagged twice ... */
  lemma OverwriteOld(images: seq<Image>, targets: seq<Target>, a: string, b: string, i: nat)
    requires i < |images|
    ensures i < |Outcome(images, targets, a)|
    ensures Updated(Outcome(images, targets, a), targets, b, i) == Updated(images, targets, b, i)
  {
    OutcomeAt(images, targets, a, i);
    OutcomeNames(images, targets, a);
    if "name" in images[i] {
      OldIndex(images, targets, a, images[i]["name"], i);
    }
    hide Outcome, IndexOf, IsTarget, NewName;
  }

  /** ... and an added one. */
  lemma OverwriteAdded(images: seq<Image>, targets: seq<Target>, a: string, b: string, i: nat)
    requires |images| <= i < |Outcome(images, targets, a)|
    ensures Updated(Outcome(images, targets, a), targets, b, i) == Added(targets, Missing(images, targets)[i - |images|], b)
  {
    var missing := Missing(images, targets);
    var name := missing[i - |images|];
    OutcomeAt(images, targets, a, i);
    AddedIndex(images, targets, a, i);
    assert name in missing;
    MissingHolds(images, targets, name);
    hide Outcome, IndexOf, Missing, IsTarget, NewName;
  }

  lemma OverwriteEntry(images: seq<Image>, targets: seq<Target>, a: string, b: string, i: nat)
    requires i < |Outcome(images, targets, a)|
    ensures Updated(Outcome(images, targets, a), targets, b, i) == Outcome(images, targets, b)[i]
  {
    hide *;
    OutcomeAt(images, targets, b, i);
    if i < |images| {
      OverwriteOld(images, targets, a, b, i);
    } else {
      OverwriteAdded(images, targets, a, b, i);
    }
  }

  lemma OverwriteOutcome(images: seq<Image>, targets: seq<Target>, a: string, b: string)
    ensures Outcome(Outcome(images, targets, a), targets, b) == Outcome(images, targets, b)
  {
    var r := Outcome(images, targets, a);
    AllFound(images, targets, a);
    NothingMissing(r, targets);
    hide Updated, Present, Missing;
    forall i | 0 <= i < |r|
      ensures Outcome(r, targets, b)[i] == Outcome(images, targets, b)[i]
    {
      OverwriteEntry(images, targets, a, b, i);
    }
    assert Outcome(r, targets, b) == Outcome(images, targets, b);
  }

  /** The list afterwards: old entries stay in place, only first entries of targets change, and of those only the new name
      and the tag; additions come last and are targets that were absent. */
  lemma NothingElseChanges(images: seq<Image>, targets: seq<Target>, tag: string)
    requires UpsertAll(images, targets, tag).Ok?
    ensures var r := UpsertAll(images, targets, tag).value;
            && |r| >= |images|
            && (forall i :: 0 <= i < |images| && !("name" in images[i] && IsTarget(targets, images[i]["name"])) ==> r[i] == images[i])
            && (forall i :: 0 <= i < |images| ==> r[i] - {"newName", "newTag"} == images[i] - {"newName", "newTag"})
            && (forall i :: |images| <= i < |r| ==>
                  "name" in r[i] && IsTarget(targets, r[i]["name"]) && !Present(images, r[i]["name"])
                  && r[i].Keys == {"name", "newName", "newTag"})
  {
    UpsertAllIs(images, targets, tag);
    var r, missing := Outcome(images, targets, tag), Missing(images, targets);
    forall i | 0 <= i < |r|
      ensures r[i] == if i < |images| then Updated(images, targets, tag, i) else Added(targets, missing[i - |images|], tag)
    {
      OutcomeAt(images, targets, tag, i);
    }
    hide Outcome, UpsertAll, Missing, NewName, IndexOf;
    forall i | |images| <= i < |r|
      ensures "name" in r[i] && IsTarget(targets, r[i]["name"]) && !Present(images, r[i]["name"])
      ensures r[i].Keys == {"name", "newName", "newTag"}
    {
      assert missing[i - |images|] in missing;
      MissingHolds(images, targets, missing[i - |images|]);
    }
  }

  /** Every target is in the list afterwards, its first entry with the tag and the new name of the last such target. */
  lemma TargetsAreTagged(images: seq<Image>, targets: seq<Target>, tag: string, t: nat)
    requires t < |targets| && UpsertAll(images, targets, tag).Ok?
    ensures var r := UpsertAll(images, targets, tag).value;
            var i := IndexOf(r, targets[t].name);
            && i < |r|
            && "newTag" in r[i] && r[i]["newTag"] == tag
            && "newName" in r[i] && r[i]["newName"] == NewName(targets, targets[t].name)
  {
    var r, name := Outcome(images, targets, tag), targets[t].name;
    UpsertAllIs(images, targets, tag);
    AllFound(images, targets, tag);
    var i := IndexOf(r, name);
    OutcomeAt(images, targets, tag, i);
    hide UpsertAll, Outcome, Missing, NewName;
    if i < |images| {
      OldIndex(images, targets, tag, name, i);
    } else {
      NameAt(images, targets, tag, name, i);
    }
  }
}
