/** Rooms of the world: a name, a description, a visited flag, the items and NPCs
    present, and labelled exits to other rooms. Rooms live in a fixed arena and
    exits name the arena index of their target. */
module Locations {
  import opened Wrappers
  import opened Items
  import opened Npcs

  /** Why `AddLocation` refused a direction, in the order it checks. */
  datatype DirectionError = EmptyDirection | DuplicateDirection

  /** std::string ordering: the first differing character decides, and a proper
      prefix comes first. */
  predicate LexLess(a: string, b: string)
    decreases |a|
  {
    if a == [] then b != []
    else if b == [] then false
    else if a[0] != b[0] then a[0] < b[0]
    else LexLess(a[1..], b[1..])
  }

  lemma {:induction false} LexLessIrreflexive(a: string)
    ensures !LexLess(a, a)
    decreases |a|
  {
    if a != [] {
      LexLessIrreflexive(a[1..]);
    }
  }

  lemma {:induction false} LexLessTransitive(a: string, b: string, c: string)
    requires LexLess(a, b) && LexLess(b, c)
    ensures LexLess(a, c)
    decreases |a|
  {
    if a != [] && b != [] && c != [] && a[0] == b[0] && b[0] == c[0] {
      LexLessTransitive(a[1..], b[1..], c[1..]);
    }
  }

  lemma {:induction false} LexLessTotal(a: string, b: string)
    requires a != b
    ensures LexLess(a, b) || LexLess(b, a)
    decreases |a|
  {
    if a != [] && b != [] && a[0] == b[0] {
      assert a == [a[0]] + a[1..] && b == [b[0]] + b[1..];
      LexLessTotal(a[1..], b[1..]);
    }
  }

  /** Every finite non-empty set of strings has a least element. */
  lemma {:induction false} LeastExists(s: set<string>)
    requires s != {}
    ensures exists m :: m in s && forall x :: x in s && x != m ==> LexLess(m, x)
    decreases |s|
  {
    var y :| y in s;
    if s != {y} {
      LeastExists(s - {y});
      var m' :| m' in s - {y} && forall x :: x in s - {y} && x != m' ==> LexLess(m', x);
      LexLessTotal(m', y);
      if LexLess(m', y) {
        assert forall x :: x in s && x != m' ==> LexLess(m', x);
      } else {
        forall x | x in s && x != y
          ensures LexLess(y, x)
        {
          if x != m' {
            LexLessTransitive(y, m', x);
          }
        }
      }
    }
  }

  ghost function Least(s: set<string>): (m: string)
    requires s != {}
    ensures m in s && forall x :: x in s && x != m ==> LexLess(m, x)
  {
    LeastExists(s);
    var m :| m in s && forall x :: x in s && x != m ==> LexLess(m, x);
    m
  }

  /** The keys of a std::map in the order its iterator visits them. */
  ghost function SortedKeys(s: set<string>): (r: seq<string>)
    ensures |r| == |s|
    ensures forall x :: x in s <==> x in r
    ensures forall i, j :: 0 <= i < j < |r| ==> LexLess(r[i], r[j])
    decreases |s|
  {
    if s == {} then []
    else
      var m := Least(s);
      var rest := SortedKeys(s - {m});
      assert forall j :: 0 <= j < |rest| ==> rest[j] in s - {m};
      [m] + rest
  }

  /** How one exit is listed: the target's name stays hidden until it is visited. */
  datatype Exit = Unknown(direction: string) | Known(direction: string, name: string)

  /** The NPC part of a room's rendering. */
  datatype NpcView = Alone | SeeNpcs(names: seq<string>)

  /** The item part of a room's rendering. */
  datatype ItemView = NoItems | SeeItems(items: seq<Item>)

  /** What looking at a room shows, line group by line group. */
  datatype Sight = Sight(name: string, description: string, npcs: NpcView, items: ItemView, exits: seq<Exit>)

  function NpcNames(npcs: seq<NPC>): (r: seq<string>)
    ensures |r| == |npcs| && forall i :: 0 <= i < |npcs| ==> r[i] == npcs[i].name
  {
    if npcs == [] then [] else [npcs[0].name] + NpcNames(npcs[1..])
  }

  class Location {
    const name: string
    const description: string
    var visited: bool
    var npcs: seq<NPC>
    var items: seq<Item>
    /** Direction label to the arena index of the neighbouring room. */
    var neighbors: map<string, nat>

    /** The room holds each of its NPCs once, and each NPC's cursor is in range. */
    ghost predicate Valid()
      reads this`npcs, npcs`messageNum, npcs`messages
    {
      && (forall i :: 0 <= i < |npcs| ==> npcs[i].Valid())
      && (forall i, j :: 0 <= i < j < |npcs| ==> npcs[i] != npcs[j])
    }

    /** The default constructor. */
    constructor Default()
      ensures Valid()
      ensures name == "The Void" && description == "An empty pitch black void of nothingness..."
      ensures !visited && npcs == [] && items == [] && neighbors == map[]
    {
      name := "The Void";
      description := "An empty pitch black void of nothingness...";
      visited := false;
      npcs := [];
      items := [];
      neighbors := map[];
    }

    /** A new room is unvisited and has no items, no NPCs and no exits. */
    constructor (name: string, description: string)
      ensures Valid()
      ensures this.name == name && this.description == description
      ensures !visited && npcs == [] && items == [] && neighbors == map[]
    {
      this.name := name;
      this.description := description;
      visited := false;
      npcs := [];
      items := [];
      neighbors := map[];
    }

    /** Adds an exit. Refuses an empty direction, then a direction that already
        has an exit; otherwise exactly one new key appears. */
    method AddLocation(direction: string, target: nat) returns (o: Outcome<DirectionError>)
      requires Valid()
      modifies this`neighbors
      ensures Valid()
      ensures o == Pass <==> direction != "" && direction !in old(neighbors)
      ensures o == Fail(EmptyDirection) <==> direction == ""
      ensures o == Pass ==> neighbors == old(neighbors)[direction := target]
      ensures o == Pass ==> neighbors.Keys == old(neighbors).Keys + {direction}
                            && |neighbors| == |old(neighbors)| + 1
      ensures o != Pass ==> neighbors == old(neighbors)
    {
      if direction == "" {
        return Fail(EmptyDirection);
      }
      if direction in neighbors {
        return Fail(DuplicateDirection);
      }
      neighbors := neighbors[direction := target];
      o := Pass;
    }

    /** Adds a copy of the NPC at the back; the NPCs already here and the items
        are unchanged. */
    method AddNpc(npc: NPC)
      requires Valid() && npc.Valid()
      modifies this`npcs
      ensures Valid()
      ensures |npcs| == |old(npcs)| + 1 && npcs[..|old(npcs)|] == old(npcs)
      ensures var added := npcs[|old(npcs)|];
              fresh(added) && added.name == npc.name && added.description == npc.description
              && added.messages == npc.messages && added.messageNum == npc.messageNum
              && added.robbed == npc.robbed
    {
      var copy := new NPC.Copy(npc);
      npcs := npcs + [copy];
    }

    /** Adds the item at the back; the items already here and the NPCs are unchanged. */
    method AddItem(item: Item)
      requires Valid()
      modifies this`items
      ensures Valid()
      ensures items == old(items) + [item]
    {
      items := items + [item];
    }
  }

  /** How an exit towards `target` is listed. */
  function ExitTo(direction: string, target: Location): (e: Exit)
    reads target`visited
    ensures e.direction == direction
    ensures e.Unknown? <==> !target.visited
    ensures e.Known? ==> e.name == target.name
  {
    if !target.visited then Unknown(direction) else Known(direction, target.name)
  }

  /** The exit lines for the given directions, in the given order. */
  function ExitLinesFor(keys: seq<string>, neighbors: map<string, nat>, world: seq<Location>): (exits: seq<Exit>)
    reads world`visited
    requires forall k :: 0 <= k < |keys| ==> keys[k] in neighbors && neighbors[keys[k]] < |world|
    ensures |exits| == |keys|
    ensures forall k :: 0 <= k < |keys| ==> exits[k] == ExitTo(keys[k], world[neighbors[keys[k]]])
  {
    if keys == [] then []
    else [ExitTo(keys[0], world[neighbors[keys[0]]])] + ExitLinesFor(keys[1..], neighbors, world)
  }

  /** The exit lines of a room, one per direction, in the order std::map iterates
      its direction keys (which `SortedKeys` pins down). */
  ghost function ExitLines(neighbors: map<string, nat>, world: seq<Location>): (exits: seq<Exit>)
    reads world`visited
    requires forall d :: d in neighbors ==> neighbors[d] < |world|
    ensures |exits| == |neighbors|
    ensures forall k :: 0 <= k < |exits| ==> exits[k].direction == SortedKeys(neighbors.Keys)[k]
    ensures forall k :: 0 <= k < |exits| ==> exits[k].direction in neighbors
    ensures forall k :: 0 <= k < |exits| ==>
              exits[k] == ExitTo(exits[k].direction, world[neighbors[exits[k].direction]])
  {
    var keys := SortedKeys(neighbors.Keys);
    assert forall k :: 0 <= k < |keys| ==> keys[k] in neighbors.Keys;
    ExitLinesFor(keys, neighbors, world)
  }

  /** The exit lines list every direction once, in increasing order. */
  lemma ExitLinesSorted(neighbors: map<string, nat>, world: seq<Location>)
    requires forall d :: d in neighbors ==> neighbors[d] < |world|
    ensures var exits := ExitLines(neighbors, world);
            (forall d :: d in neighbors <==> exists k :: 0 <= k < |exits| && exits[k].direction == d)
            && (forall i, j :: 0 <= i < j < |exits| ==> LexLess(exits[i].direction, exits[j].direction))
  {
    var keys := SortedKeys(neighbors.Keys);
    var exits := ExitLines(neighbors, world);
    forall d | d in neighbors
      ensures exists k :: 0 <= k < |exits| && exits[k].direction == d
    {
      var k :| 0 <= k < |keys| && keys[k] == d;
      assert exits[k].direction == d;
    }
    forall i, j | 0 <= i < j < |exits|
      ensures LexLess(exits[i].direction, exits[j].direction)
    {
      assert exits[i].direction == keys[i] && exits[j].direction == keys[j];
    }
  }

  /** Rendering a room inside its world: heading, NPCs (or that the player is alone),
      items (or that there are none), then the exits. Reading only: rendering
      changes no state. */
  ghost function Render(loc: Location, world: seq<Location>): (s: Sight)
    reads loc`npcs, loc`items, loc`neighbors, world`visited
    requires forall d :: d in loc.neighbors ==> loc.neighbors[d] < |world|
    ensures s.name == loc.name && s.description == loc.description
    ensures s.npcs == Alone <==> loc.npcs == []
    ensures s.npcs.SeeNpcs? ==> s.npcs.names == NpcNames(loc.npcs)
    ensures s.items == NoItems <==> loc.items == []
    ensures s.items.SeeItems? ==> s.items.items == loc.items
    ensures s.exits == ExitLines(loc.neighbors, world)
  {
    Sight(loc.name, loc.description,
          if loc.npcs == [] then Alone else SeeNpcs(NpcNames(loc.npcs)),
          if loc.items == [] then NoItems else SeeItems(loc.items),
          ExitLines(loc.neighbors, world))
  }

  /** Fog of war: an exit shows its target's name exactly when the target was visited. */
  lemma FogOfWar(loc: Location, world: seq<Location>, k: nat)
    requires forall d :: d in loc.neighbors ==> loc.neighbors[d] < |world|
    requires k < |loc.neighbors|
    ensures var s := Render(loc, world);
            var target := world[loc.neighbors[s.exits[k].direction]];
            (s.exits[k].Unknown? <==> !target.visited) &&
            (target.visited ==> s.exits[k] == Known(s.exits[k].direction, target.name))
  {
  }
}
