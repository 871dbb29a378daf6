/** Two handler fragments as their code is written, beside the corrected versions
    that the game model uses: `give` takes off the weight of the wrong item, and
    `go` reads a flag that was never set when the direction matches no exit. */
module Findings {
  import opened Wrappers
  import opened Items
  import opened World
  import opened Game

  // ---------------------------------------------------------------------------
  // `give` erases the item at index i from the inventory, then takes
  // `items[i].weight` off: by then slot i holds the item that slid down after it,
  // or nothing at all when the given item was the last one.

  /** The weight after giving the item at index i, as written: `None` where the
      code reads one past the end of the inventory. */
  function GiveWeightAsWritten(items: seq<Item>, weight: int, i: nat): (r: Option<int>)
    requires i < |items|
    ensures r.None? <==> i == |items| - 1
    ensures r.Some? ==> r.value == weight - items[i + 1].weight
    ensures r.Some? ==> (r.value == weight - items[i].weight <==> items[i + 1].weight == items[i].weight)
  {
    var rest := items[..i] + items[i + 1..];
    if i < |rest| then Some(weight - rest[i].weight) else None
  }

  /** As written, the carried weight stops matching the inventory whenever the
      given item is followed by one of a different weight. */
  lemma GiveWeightDrifts(items: seq<Item>, i: nat)
    requires i + 1 < |items| && items[i].weight != items[i + 1].weight
    ensures GiveWeightAsWritten(items, SumWeights(items), i).Some?
    ensures GiveWeightAsWritten(items, SumWeights(items), i).value != SumWeights(items[..i] + items[i + 1..])
  {
    SumWeightsRemove(items, i);
  }

  /** Giving the Soda from an inventory of Soda (3) and Steak (4): 4 is taken off
      instead of 3, leaving 3 where the Steak alone weighs 4. */
  lemma GiveSodaBeforeSteak()
    ensures var soda := ShopStock()[0];
            var steak := ShopStock()[2];
            GiveWeightAsWritten([soda, steak], 7, 0) == Some(3)
            && SumWeights([steak]) == 4
  {
  }

  /** The corrected `give` (`Game.Surrender`) takes off the given item's own weight,
      so with the name occurring once the carried weight keeps matching the
      inventory. */
  lemma GiveWeightCorrected(items: seq<Item>, name: string, p: nat)
    requires OnlyAt(items, name, p)
    ensures Extract(items, name).taken == [items[p]]
    ensures SumWeights(items) - SumWeights(Extract(items, name).taken)
            == SumWeights(Extract(items, name).kept)
  {
    ScanOnce(items, name, p);
    assert SumWeights([items[p]]) == items[p].weight + SumWeights([]);
  }

  // ---------------------------------------------------------------------------
  // `go` declares `validTarget` without a value and only ever sets it to true.
  // When no exit matches, the flag holds whatever the stack held, and the index
  // the lookup loop leaves behind is still its initial 0.

  /** Where `go` leaves the player, as written. `indeterminate` is the value the
      unset flag happens to read as. */
  function GoAsWritten(weight: int, exits: map<string, nat>, direction: string, indeterminate: bool, current: nat)
    : (r: nat)
    ensures weight > MaxTravelWeight ==> r == current
    ensures weight <= MaxTravelWeight && direction in exits ==> r == exits[direction]
    ensures weight <= MaxTravelWeight && direction !in exits ==> r == (if indeterminate then 0 else current)
  {
    if weight > MaxTravelWeight then current
    else
      var found := direction in exits;
      var validTarget := found || indeterminate;
      var indexNum := if found then exits[direction] else 0;
      if !validTarget then current else indexNum
  }

  /** A direction no exit has can carry the player from any other room into the
      Woods (index 0), which is a neighbour only of the library. */
  lemma GoStraysIntoWoods(current: nat, direction: string)
    requires current < WorldSize && current != 0 && direction !in Exits(current)
    ensures GoAsWritten(0, Exits(current), direction, true, current) == 0 != current
  {
  }

  /** Typing "Up" in Mackinac Hall, which has no such exit, puts the player in the
      Woods as written. */
  lemma GoUpFromMackinac()
    ensures GoAsWritten(0, Exits(1), "Up", true, 1) == 0
    ensures "Up" !in Exits(1) && 0 !in Exits(1).Values
  {
    LabelsDistinct();
    assert "Up"[0] != "West"[0] && "Up"[0] != "North"[0] && "Up"[0] != "South"[0];
  }
}
