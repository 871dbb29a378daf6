/** The configured world: nine rooms in a fixed arena, their labelled exits and
    the shared shop stock. */
module World {
  import opened Items
  import opened Npcs
  import opened Locations

  const WorldSize: nat := 9
  /** Arena index of the room the player is escorted to when caught stealing. */
  const CampusSecurity: nat := 6
  /** The room where giving food feeds the Elf, found by its name. */
  const WoodsName: string := "The Woods"

  /** Room names in arena order. */
  function RoomNames(): (r: seq<string>)
    ensures |r| == WorldSize
    ensures r[0] == WoodsName && r[CampusSecurity] == "Campus Security Building"
  {
    ["The Woods", "Mackinac Hall", "The Pod Store", "The gym", "Mary Idema Pew Library",
     "A parking lot", "Campus Security Building", "Kirkhoff Center", "One of the dormitories."]
  }

  /** The exits of each room: direction label to arena index. */
  function Exits(k: nat): (r: map<string, nat>)
    requires k < WorldSize
    ensures forall d :: d in r ==> r[d] < WorldSize && r[d] != k
  {
    match k
    case 0 => map["West" := 4]
    case 1 => map["West" := 6, "North" := 2, "South" := 3]
    case 2 => map["North" := 8, "South" := 1]
    case 3 => map["North" := 1, "West" := 5]
    case 4 => map["West" := 7, "East" := 0, "South" := 6]
    case 5 => map["North" := 6, "East" := 3]
    case 6 => map["East" := 1, "South" := 5, "North" := 4]
    case 7 => map["East" := 4]
    case _ => map["South" := 2]
  }

  function Opposite(direction: string): string {
    match direction
    case "North" => "South"
    case "South" => "North"
    case "East" => "West"
    case "West" => "East"
    case _ => direction
  }

  lemma LabelsDistinct()
    ensures "North" != "South" && "North" != "East" && "North" != "West"
    ensures "South" != "East" && "South" != "West" && "East" != "West"
  {
    assert "North"[0] != "South"[0] && "East"[0] != "West"[0];
  }

  /** Every configured exit can be walked back: the target room has an exit with
      the opposite label leading back to where one came from. */
  lemma ExitsReversible(k: nat, d: string)
    requires k < WorldSize && d in Exits(k)
    ensures Opposite(d) in Exits(Exits(k)[d]) && Exits(Exits(k)[d])[Opposite(d)] == k
  {
    LabelsDistinct();
    match k
    case 0 => assert d == "West";
    case 1 => assert d == "West" || d == "North" || d == "South";
    case 2 => assert d == "North" || d == "South";
    case 3 => assert d == "North" || d == "West";
    case 4 => assert d == "West" || d == "East" || d == "South";
    case 5 => assert d == "North" || d == "East";
    case 6 => assert d == "East" || d == "South" || d == "North";
    case 7 => assert d == "East";
    case 8 => assert d == "South";
  }

  /** Campus Security can be left again: it has exits, and so do the three rooms
      that lead to it. */
  lemma CampusSecurityReachable()
    ensures Exits(1)["West"] == CampusSecurity
    ensures Exits(4)["South"] == CampusSecurity
    ensures Exits(5)["North"] == CampusSecurity
    ensures Exits(CampusSecurity).Keys == {"East", "South", "North"}
  {
  }

  /** The shop stock, sold front first. */
  function ShopStock(): (r: seq<Item>)
    ensures |r| == 5
    ensures forall k :: 0 <= k < |r| ==> ValidItem(r[k]) && r[k].calories > 0
  {
    [Item("Soda", "Packed with sugar... bad for your teeth... but so good!", 25, 3),
     Item("Golden apple", "A real golden apple?! But you bought it for so cheap!", 100, 5),
     Item("Steak", "They sell steak here? It does look good though...", 50, 4),
     Item("Bread", "A small packaged bread roll.", 35, 3),
     Item("MRE", "A precooked and prepackaged meal. This would be good in an apocalypse.", 75, 6)]
  }

  /** The whole stock feeds the Elf 285 of the 500 calories it needs. */
  lemma ShopStockCalories()
    ensures ShopStock()[0].calories + ShopStock()[1].calories + ShopStock()[2].calories
            + ShopStock()[3].calories + ShopStock()[4].calories == 285
  {
  }

  /** The NPCs of all rooms. */
  ghost function AllNpcs(world: seq<Location>): set<NPC>
    reads world`npcs
  {
    set k, i | 0 <= k < |world| && 0 <= i < |world[k].npcs| :: world[k].npcs[i]
  }

  /** The rooms and the NPCs they hold. */
  ghost function Footprint(world: seq<Location>): set<object>
    reads world`npcs
  {
    (set k | 0 <= k < |world| :: world[k] as object) + AllNpcs(world)
  }

  /** No NPC stands twice in a room or in two rooms: each room holds its own copies. */
  ghost predicate NpcsApart(world: seq<Location>)
    reads world`npcs
  {
    && (forall k, i, l :: 0 <= k < |world| && 0 <= i < l < |world[k].npcs| ==> world[k].npcs[i] != world[k].npcs[l])
    && (forall j, k, i, l :: 0 <= j < k < |world| && 0 <= i < |world[j].npcs| && 0 <= l < |world[k].npcs| ==>
          world[j].npcs[i] != world[k].npcs[l])
  }

  /** A world of this shape: nine distinct rooms, NPCs apart, every exit pointing
      into the arena, and every NPC having dialogue with its cursor on a line. */
  ghost predicate WellFormed(world: seq<Location>)
    reads world`npcs, world`neighbors, AllNpcs(world)`messageNum, AllNpcs(world)`messages
  {
    && |world| == WorldSize
    && (forall j, k :: 0 <= j < k < |world| ==> world[j] != world[k])
    && NpcsApart(world)
    && (forall k, d :: 0 <= k < |world| && d in world[k].neighbors ==> world[k].neighbors[d] < WorldSize)
    && (forall k, i :: 0 <= k < |world| && 0 <= i < |world[k].npcs| ==>
          world[k].npcs[i].Valid() && world[k].npcs[i].messages != [])
  }

  /** Well-formedness survives any change that leaves the rooms' NPC lists and
      exits and the NPCs' dialogue alone. */
  twostate lemma WellFormedKept(world: seq<Location>)
    requires old(WellFormed(world))
    requires unchanged(world`npcs, world`neighbors)
    requires unchanged(old(AllNpcs(world))`messageNum, old(AllNpcs(world))`messages)
    ensures WellFormed(world)
  {
  }

  /** The rooms and exits the game builds at start-up, given the rooms' description
      texts: the nine rooms in arena order, then every exit written into its room's
      map. */
  method CreateWorld(descriptions: seq<string>) returns (world: seq<Location>)
    requires |descriptions| == WorldSize
    ensures WellFormed(world)
    ensures forall k :: 0 <= k < |world| ==> fresh(world[k])
    ensures forall k :: 0 <= k < |world| ==>
              world[k].name == RoomNames()[k] && world[k].description == descriptions[k]
              && world[k].neighbors == Exits(k) && !world[k].visited
              && world[k].items == [] && world[k].npcs == []
  {
    var names := RoomNames();
    world := [];
    for n := 0 to WorldSize
      invariant |world| == n
      invariant forall k :: 0 <= k < n ==>
                  fresh(world[k])
                  && world[k].name == names[k] && world[k].description == descriptions[k]
                  && !world[k].visited && world[k].items == [] && world[k].npcs == []
      invariant forall j, k :: 0 <= j < k < n ==> world[j] != world[k]
    {
      var room := new Location(names[n], descriptions[n]);
      world := world + [room];
    }
    forall k | 0 <= k < |world| {
      world[k].neighbors := Exits(k);
    }
  }
}
