/** The registry of game-side packs (internal.InMemoryPackRepository): the
    packs available, by id, and the ordered selection that `setSelected`
    rebuilds from a list of ids. */
module InternalRepositories {
  import opened Wrappers
  import OrderedMaps
  import opened OrderedSets
  import InternalPacks

  /** The ids of `ids` that `available` knows, in their order, repeats kept. */
  function Known<P>(available: map<string, P>, ids: seq<string>): (r: seq<string>)
    ensures forall x :: x in r <==> x in ids && x in available
  {
    if ids == [] then []
    else
      var init, last := ids[..|ids| - 1], ids[|ids| - 1];
      assert ids == init + [last];
      Known(available, init) + (if last in available then [last] else [])
  }

  /** The selection setSelected builds: a LinkedHashMap filled by putting each
      known id in turn. */
  function Selection<P>(available: map<string, P>, ids: seq<string>): seq<(string, P)>
  {
    if ids == [] then []
    else
      var rest, id := Selection(available, ids[..|ids| - 1]), ids[|ids| - 1];
      if id in available then OrderedMaps.Put(rest, id, available[id]) else rest
  }

  /** The selected ids are the known ids, each at its first occurrence. */
  lemma {:induction false} SelectionKeys<P>(available: map<string, P>, ids: seq<string>)
    ensures OrderedMaps.KeysOf(Selection(available, ids)) == Dedup(Known(available, ids))
  {
    if ids != [] {
      var init, last := ids[..|ids| - 1], ids[|ids| - 1];
      SelectionKeys(available, init);
      var rest := Selection(available, init);
      if last in available {
        OrderedMaps.PutKeys(rest, last, available[last]);
        var known := Known(available, ids);
        assert known == Known(available, init) + [last];
        assert known[..|known| - 1] == Known(available, init);
      } else {
        assert Known(available, ids) == Known(available, init) + [];
        assert Known(available, init) + [] == Known(available, init);
      }
    }
  }

  /** Each selected id maps to the available pack of that id; an id is
      selected exactly when it was asked for and is available. */
  lemma {:induction false} SelectionGet<P>(available: map<string, P>, ids: seq<string>, k: string)
    ensures OrderedMaps.Get(Selection(available, ids), k)
            == if k in ids && k in available then Some(available[k]) else None
  {
    if ids != [] {
      var init, last := ids[..|ids| - 1], ids[|ids| - 1];
      assert ids == init + [last];
      SelectionGet(available, init, k);
      if last in available {
        OrderedMaps.PutGet(Selection(available, init), last, available[last], k);
      }
    }
  }

  class InternalRepository {
    var available: map<string, InternalPacks.InternalPack>
    var selected: seq<(string, InternalPacks.InternalPack)>

    constructor ()
      ensures available == map[] && selected == []
    {
      available := map[];
      selected := [];
    }

    /** addPack, as written: a known id is refused; a new one is stored, and
        the result is what `put` returned, the previous value, which is
        always absent here. */
    method AddPack(p: InternalPacks.InternalPack) returns (r: Option<InternalPacks.InternalPack>)
      modifies this
      ensures selected == old(selected)
      ensures p.info.id in old(available) ==> available == old(available)
      ensures p.info.id !in old(available) ==> available == old(available)[p.info.id := p]
      ensures r == None
    {
      var id := p.info.id;
      if id in available {
        return None;
      }
      var previous := GetPack(id);
      available := available[id := p];
      r := previous;
    }

    /** addPack, corrected: the added pack comes back on success. */
    method AddPackIntended(p: InternalPacks.InternalPack) returns (r: Option<InternalPacks.InternalPack>)
      modifies this
      ensures selected == old(selected)
      ensures p.info.id in old(available) ==> available == old(available) && r == None
      ensures p.info.id !in old(available) ==> available == old(available)[p.info.id := p] && r == Some(p)
    {
      var id := p.info.id;
      if id in available {
        return None;
      }
      available := available[id := p];
      r := Some(p);
    }

    /** removePack(id): removed from the available packs only; the selection
        is left as it is. */
    method RemovePack(id: string) returns (r: Option<InternalPacks.InternalPack>)
      modifies this
      ensures available == old(available) - {id} && selected == old(selected)
      ensures r == (if id in old(available) then Some(old(available)[id]) else None)
    {
      r := if id in available then Some(available[id]) else None;
      available := available - {id};
    }

    /** removePack(pack): by the pack's id. */
    method RemovePackOf(p: InternalPacks.InternalPack) returns (r: Option<InternalPacks.InternalPack>)
      modifies this
      ensures available == old(available) - {p.info.id} && selected == old(selected)
      ensures r == (if p.info.id in old(available) then Some(old(available)[p.info.id]) else None)
    {
      r := RemovePack(p.info.id);
    }

    function GetPack(id: string): (r: Option<InternalPacks.InternalPack>)
      reads this
      ensures r.Some? <==> id in available
      ensures r.Some? ==> r.value == available[id]
    {
      if id in available then Some(available[id]) else None
    }

    /** containsPack(id): exactly when getPack(id) finds a pack. */
    predicate ContainsPack(id: string): (r: bool)
      reads this
      ensures r <==> GetPack(id).Some?
    {
      id in available
    }

    /** getAvailableIds(): the ids getPack finds a pack for. */
    function AvailableIds(): (r: set<string>)
      reads this
      ensures forall id :: id in r <==> GetPack(id).Some?
    {
      available.Keys
    }

    /** getAvailablePacks(): the packs getPack finds, and nothing else. */
    function AvailablePacks(): (r: set<InternalPacks.InternalPack>)
      reads this
      ensures forall id :: GetPack(id).Some? ==> GetPack(id).value in r
      ensures forall p :: p in r ==> exists id :: GetPack(id) == Some(p)
    {
      assert forall id :: id in available ==> GetPack(id) == Some(available[id]);
      available.Values
    }

    /** getSelectedIds(): the selection's ids, in selection order. */
    function SelectedIds(): (r: seq<string>)
      reads this
      ensures |r| == |selected|
    {
      OrderedMaps.KeysOf(selected)
    }

    /** getSelectedPacks(): the selection's packs, position by position with
        the ids. */
    function SelectedPacks(): (r: seq<InternalPacks.InternalPack>)
      reads this
      ensures |r| == |SelectedIds()|
      ensures forall i :: 0 <= i < |r| ==> OrderedMaps.Get(selected, SelectedIds()[i]).Some?
    {
      OrderedMaps.ValuesOf(selected)
    }

    /** setSelected: one pass over the ids, putting each available one into a
        fresh ordered map, which then replaces the selection. */
    method SetSelected(ids: seq<string>)
      modifies this
      ensures available == old(available)
      ensures selected == Selection(available, ids)
    {
      var building: seq<(string, InternalPacks.InternalPack)> := [];
      var i := 0;
      while i < |ids|
        invariant 0 <= i <= |ids|
        invariant building == Selection(available, ids[..i])
      {
        assert ids[..i + 1][..i] == ids[..i];
        var id := ids[i];
        if id in available {
          building := OrderedMaps.Put(building, id, available[id]);
        }
        i := i + 1;
      }
      assert ids[..|ids|] == ids;
      selected := building;
    }
  }

  /** Right after setSelected, the selection is the available packs of the
      requested ids, in first-request order and without repeats. */
  lemma SelectedAfterSetSelected(r: InternalRepository, ids: seq<string>)
    requires r.selected == Selection(r.available, ids)
    ensures r.SelectedIds() == Dedup(Known(r.available, ids))
    ensures Distinct(r.SelectedIds())
    ensures forall k :: OrderedMaps.Get(r.selected, k).Some? ==>
              k in r.available && OrderedMaps.Get(r.selected, k) == Some(r.available[k])
    ensures forall i :: 0 <= i < |r.SelectedPacks()| ==>
              r.SelectedIds()[i] in r.available && r.SelectedPacks()[i] == r.available[r.SelectedIds()[i]]
  {
    SelectionKeys(r.available, ids);
    forall k ensures OrderedMaps.Get(r.selected, k).Some? ==>
                       k in r.available && OrderedMaps.Get(r.selected, k) == Some(r.available[k]) {
      SelectionGet(r.available, ids, k);
    }
    assert OrderedMaps.DistinctKeys(r.selected) by {
      forall i, j | 0 <= i < j < |r.selected| ensures r.selected[i].0 != r.selected[j].0 {
        assert r.SelectedIds()[i] != r.SelectedIds()[j];
      }
    }
    forall i | 0 <= i < |r.SelectedPacks()|
      ensures r.SelectedIds()[i] in r.available && r.SelectedPacks()[i] == r.available[r.SelectedIds()[i]]
    {
      OrderedMaps.GetAt(r.selected, i);
      SelectionGet(r.available, ids, r.SelectedIds()[i]);
    }
  }
}
