/** The game engine: the player's state, the world it moves through, and the verb
    handlers that change both. Random draws are passed in by the caller; each
    draw is a room index, as the game's only random source returns one. */
module Game {
  import opened Wrappers
  import opened Items
  import opened Npcs
  import opened Locations
  import opened World
  import opened Commands

  /** Heaviest backpack the player can still travel with. */
  const MaxTravelWeight: int := 30
  /** Calories the Elf needs before it helps. */
  const StartingCalories: int := 500
  const ElfName: string := "Elf"

  /** The two NPCs that sell from the shop stock and cannot be robbed. */
  predicate IsVendor(name: string) {
    name == "Vending machine" || name == "Employee"
  }

  // ---------------------------------------------------------------------------
  // Scanning a list of items for a name, as `take` and `give` do: an index walks
  // the list, a matching item is erased and collected, and the index still moves
  // on, so the item that slid into the erased slot is not looked at.

  /** The items a scan leaves behind and the items it collects, in order. */
  datatype Scan = Scan(kept: seq<Item>, taken: seq<Item>)

  /** The outcome of scanning `xs` for `name` from the front. */
  function Extract(xs: seq<Item>, name: string): (r: Scan)
    ensures |r.kept| + |r.taken| == |xs|
    ensures forall k :: 0 <= k < |r.taken| ==> r.taken[k].name == name
    decreases |xs|
  {
    if xs == [] then Scan([], [])
    else if xs[0].name != name then
      var rest := Extract(xs[1..], name);
      Scan([xs[0]] + rest.kept, rest.taken)
    else if |xs| == 1 then Scan([], [xs[0]])
    else
      var rest := Extract(xs[2..], name);
      Scan([xs[1]] + rest.kept, [xs[0]] + rest.taken)
  }

  /** A scan interrupted at index `i` of the current list: what the whole scan will
      keep and collect from here on. An index one past the end is where the loop
      stands after erasing the last element. */
  function Resume(xs: seq<Item>, name: string, i: nat): Scan
  {
    var j := if i <= |xs| then i else |xs|;
    var rest := Extract(xs[j..], name);
    Scan(xs[..j] + rest.kept, rest.taken)
  }

  lemma ResumeStart(xs: seq<Item>, name: string)
    ensures Resume(xs, name, 0) == Extract(xs, name)
  {
    assert xs[0..] == xs;
  }

  lemma ResumeDone(xs: seq<Item>, name: string, i: nat)
    requires i >= |xs|
    ensures Resume(xs, name, i) == Scan(xs, [])
  {
    assert xs[|xs|..] == [];
    assert xs[..|xs|] == xs;
  }

  /** A non-matching element is kept and the scan moves on. */
  lemma ResumeSkip(xs: seq<Item>, name: string, i: nat)
    requires i < |xs| && xs[i].name != name
    ensures Resume(xs, name, i + 1) == Resume(xs, name, i)
  {
    assert xs[i..][1..] == xs[i + 1..];
    assert xs[..i] + [xs[i]] == xs[..i + 1];
  }

  /** A matching element is collected and erased, and the scan moves on past the
      element that took its place. */
  lemma ResumeTake(xs: seq<Item>, name: string, i: nat)
    requires i < |xs| && xs[i].name == name
    ensures var ys := xs[..i] + xs[i + 1..];
            Resume(xs, name, i).kept == Resume(ys, name, i + 1).kept
            && Resume(xs, name, i).taken == [xs[i]] + Resume(ys, name, i + 1).taken
  {
    var ys := xs[..i] + xs[i + 1..];
    assert ys[..i] == xs[..i];
    if i + 1 < |xs| {
      assert xs[i..][2..] == xs[i + 2..] == ys[i + 1..];
      assert ys[..i + 1] == xs[..i] + [xs[i + 1]];
    } else {
      assert ys == xs[..i];
      assert ys[..|ys|] == ys;
    }
  }

  /** With no item of that name the scan keeps everything and collects nothing. */
  lemma {:induction false} ExtractNone(xs: seq<Item>, name: string)
    requires forall k :: 0 <= k < |xs| ==> xs[k].name != name
    ensures Extract(xs, name) == Scan(xs, [])
  {
    if xs != [] {
      ExtractNone(xs[1..], name);
    }
  }

  /** With exactly one item of that name, the scan collects exactly that item and
      keeps the others in order. */
  lemma {:induction false} ExtractUnique(xs: seq<Item>, name: string, p: nat)
    requires p < |xs| && xs[p].name == name
    requires forall k :: 0 <= k < |xs| && k != p ==> xs[k].name != name
    ensures Extract(xs, name) == Scan(xs[..p] + xs[p + 1..], [xs[p]])
    decreases p
  {
    if p == 0 {
      if |xs| > 1 {
        ExtractNone(xs[2..], name);
        assert [xs[1]] + xs[2..] == xs[1..];
      }
    } else {
      ExtractUnique(xs[1..], name, p - 1);
      assert [xs[0]] + (xs[1..][..p - 1] + xs[1..][p..]) == xs[..p] + xs[p + 1..];
    }
  }

  /** The scan collects something exactly when some item has the name: a skipped
      match always follows a collected one. */
  lemma {:induction false} ExtractFinds(xs: seq<Item>, name: string)
    ensures Extract(xs, name).taken != [] <==> exists k :: 0 <= k < |xs| && xs[k].name == name
    decreases |xs|
  {
    if xs != [] {
      if xs[0].name != name {
        ExtractFinds(xs[1..], name);
        if exists k :: 0 <= k < |xs| && xs[k].name == name {
          var k :| 0 <= k < |xs| && xs[k].name == name;
          assert xs[1..][k - 1].name == name;
        } else {
          assert forall k :: 0 <= k < |xs| - 1 ==> xs[1..][k] == xs[k + 1];
        }
      }
    }
  }

  lemma KeepOne(x: Item, xs: seq<Item>, kept: seq<Item>, taken: seq<Item>)
    requires multiset(kept) + multiset(taken) == multiset(xs)
    ensures multiset([x] + kept) + multiset(taken) == multiset([x] + xs)
  {
  }

  lemma TakeOneKeepOne(x: Item, y: Item, xs: seq<Item>, kept: seq<Item>, taken: seq<Item>)
    requires multiset(kept) + multiset(taken) == multiset(xs)
    ensures multiset([y] + kept) + multiset([x] + taken) == multiset([x] + ([y] + xs))
  {
  }

  /** Nothing is lost or made up: kept and collected items together are the list. */
  lemma {:induction false} ExtractPermutes(xs: seq<Item>, name: string)
    ensures multiset(Extract(xs, name).kept) + multiset(Extract(xs, name).taken) == multiset(xs)
    decreases |xs|
  {
    if xs == [] {
    } else if xs[0].name != name {
      var rest := Extract(xs[1..], name);
      assert Extract(xs, name) == Scan([xs[0]] + rest.kept, rest.taken);
      assert [xs[0]] + xs[1..] == xs;
      ExtractPermutes(xs[1..], name);
      KeepOne(xs[0], xs[1..], rest.kept, rest.taken);
    } else if |xs| > 1 {
      var rest := Extract(xs[2..], name);
      assert Extract(xs, name) == Scan([xs[1]] + rest.kept, [xs[0]] + rest.taken);
      assert [xs[0]] + ([xs[1]] + xs[2..]) == xs;
      ExtractPermutes(xs[2..], name);
      TakeOneKeepOne(xs[0], xs[1], xs[2..], rest.kept, rest.taken);
    }
  }

  /** Two adjacent items of the same name: only the first is collected, because the
      second slides into the erased slot just before the index moves on. */
  lemma ExtractSkipsNeighbour(xs: seq<Item>, name: string)
    requires |xs| >= 2 && xs[0].name == name && xs[1].name == name
    ensures Extract(xs, name).taken[0] == xs[0] && Extract(xs, name).kept[0] == xs[1]
  {
  }

  /** The weight of the kept and the collected items adds up to the weight of the list. */
  lemma {:induction false} ExtractWeighs(xs: seq<Item>, name: string)
    ensures SumWeights(Extract(xs, name).kept) + SumWeights(Extract(xs, name).taken) == SumWeights(xs)
    decreases |xs|
  {
    var r := Extract(xs, name);
    if xs == [] {
    } else if xs[0].name != name {
      ExtractWeighs(xs[1..], name);
      var rest := Extract(xs[1..], name);
      SumWeightsAppend([xs[0]], rest.kept);
    } else if |xs| > 1 {
      ExtractWeighs(xs[2..], name);
      var rest := Extract(xs[2..], name);
      SumWeightsAppend([xs[1]], rest.kept);
      SumWeightsAppend([xs[0]], rest.taken);
      assert xs[1..][1..] == xs[2..];
    }
  }

  /** One collecting step of a scan, from the point of view of the loop: what is
      still to come after the step, added to what was collected, is unchanged. */
  lemma TakeStep(xs: seq<Item>, name: string, i: nat, taken: seq<Item>)
    requires i < |xs| && xs[i].name == name
    ensures var ys := xs[..i] + xs[i + 1..];
            Resume(ys, name, i + 1).kept == Resume(xs, name, i).kept
            && (taken + [xs[i]]) + Resume(ys, name, i + 1).taken == taken + Resume(xs, name, i).taken
  {
    ResumeTake(xs, name, i);
  }

  /** The scan itself: walks the list with an index, erasing and collecting every
      item of that name it reaches. */
  method ScanOut(xs: seq<Item>, name: string) returns (kept: seq<Item>, taken: seq<Item>)
    ensures Scan(kept, taken) == Extract(xs, name)
  {
    kept, taken := xs, [];
    ResumeStart(xs, name);
    var i := 0;
    while i < |kept|
      invariant i <= |kept| + 1
      invariant Resume(kept, name, i).kept == Extract(xs, name).kept
      invariant taken + Resume(kept, name, i).taken == Extract(xs, name).taken
      decreases |kept| + 1 - i
    {
      if name == kept[i].name {
        TakeStep(kept, name, i, taken);
        taken := taken + [kept[i]];
        kept := kept[..i] + kept[i + 1..];
      } else {
        ResumeSkip(kept, name, i);
      }
      i := i + 1;
    }
    ResumeDone(kept, name, i);
  }

  /** An item occurs only at index p. */
  predicate OnlyAt(xs: seq<Item>, name: string, p: nat) {
    p < |xs| && xs[p].name == name && forall k :: 0 <= k < |xs| && k != p ==> xs[k].name != name
  }

  // ---------------------------------------------------------------------------
  // Looking NPCs up by name in a room.

  /** How many NPCs carry the name. */
  function CountNamed(npcs: seq<NPC>, name: string): (n: nat)
    ensures n <= |npcs|
    ensures n == 0 <==> forall k :: 0 <= k < |npcs| ==> npcs[k].name != name
  {
    if npcs == [] then 0
    else CountNamed(npcs[..|npcs| - 1], name) + (if npcs[|npcs| - 1].name == name then 1 else 0)
  }

  /** Counting over a list is counting over its two halves. */
  lemma {:induction false} CountNamedSplit(npcs: seq<NPC>, name: string, i: nat)
    requires i <= |npcs|
    ensures CountNamed(npcs, name) == CountNamed(npcs[..i], name) + CountNamed(npcs[i..], name)
    decreases |npcs|
  {
    if i == |npcs| {
      assert npcs[..i] == npcs && npcs[i..] == [];
    } else {
      var init := npcs[..|npcs| - 1];
      CountNamedSplit(init, name, i);
      assert init[..i] == npcs[..i];
      assert npcs[i..][..|npcs| - i - 1] == init[i..];
    }
  }

  /** The descriptions of the NPCs that carry the name, in room order. */
  function Descriptions(npcs: seq<NPC>, name: string): (r: seq<string>)
    ensures |r| == CountNamed(npcs, name)
  {
    if npcs == [] then []
    else
      var last := npcs[|npcs| - 1];
      Descriptions(npcs[..|npcs| - 1], name) + (if last.name == name then [last.description] else [])
  }

  /** The lines the NPCs that carry the name say next, in room order. */
  function Replies(npcs: seq<NPC>, name: string): (r: seq<string>)
    reads npcs`messageNum, npcs`messages
    requires forall k :: 0 <= k < |npcs| ==> npcs[k].messageNum < |npcs[k].messages|
    ensures |r| == CountNamed(npcs, name)
  {
    if npcs == [] then []
    else
      var last := npcs[|npcs| - 1];
      Replies(npcs[..|npcs| - 1], name) + (if last.name == name then [last.messages[last.messageNum]] else [])
  }

  /** With exactly one NPC of that name, meeting shows that NPC's description and
      talking returns its next line. */
  lemma {:induction false} NamedOnce(npcs: seq<NPC>, name: string, p: nat)
    requires p < |npcs| && npcs[p].name == name
    requires forall k :: 0 <= k < |npcs| && k != p ==> npcs[k].name != name
    requires forall k :: 0 <= k < |npcs| ==> npcs[k].messageNum < |npcs[k].messages|
    ensures CountNamed(npcs, name) == 1
    ensures Descriptions(npcs, name) == [npcs[p].description]
    ensures Replies(npcs, name) == [npcs[p].messages[npcs[p].messageNum]]
    decreases |npcs|
  {
    var init := npcs[..|npcs| - 1];
    if p == |npcs| - 1 {
      assert CountNamed(init, name) == 0;
      assert Descriptions(init, name) == [] && Replies(init, name) == [];
    } else {
      NamedOnce(init, name, p);
    }
  }

  /** The NPCs' robbed flags, in list order. */
  function RobbedFlags(npcs: seq<NPC>): (flags: seq<bool>)
    reads npcs`robbed
    ensures |flags| == |npcs| && forall k :: 0 <= k < |npcs| ==> flags[k] == npcs[k].robbed
  {
    if npcs == [] then [] else [npcs[0].robbed] + RobbedFlags(npcs[1..])
  }

  // ---------------------------------------------------------------------------
  // The draw that decides a theft.

  /** The draws that get the thief caught: five of the ten values the game's comment
      has in mind, five of the nine it can actually draw. */
  predicate Caught(draw: nat) {
    draw == 0 || draw == 1 || draw == 2 || draw == 5 || draw == 7
  }

  /** The coins a theft that was not caught brings, by the same draw. */
  function Reward(draw: nat): (coins: int)
    ensures coins == 5 || coins == 10 || coins == 15
  {
    if draw == 1 then 10
    else if draw == 4 || draw == 6 || draw == 9 then 5
    else 15
  }

  /** Only 1 would pay 10 coins, and 1 is a caught draw: the 10-coin theft never
      happens. Of the draws the game can make, 3 and 8 pay 15 and 4 and 6 pay 5. */
  lemma TheftRewards(draw: nat)
    requires draw < WorldSize && !Caught(draw)
    ensures Reward(draw) != 10
    ensures Reward(draw) == 15 <==> draw == 3 || draw == 8
    ensures Reward(draw) == 5 <==> draw == 4 || draw == 6
  {
  }

  /** Five of the nine draws get the thief caught. */
  lemma CaughtOdds()
    ensures (set d | 0 <= d < WorldSize && Caught(d)) == {0, 1, 2, 5, 7}
  {
  }

  // ---------------------------------------------------------------------------
  // Buying from the shop stock.

  /** How many purchases one `buy` makes when `matches` vendors of that name stand
      in the room: one per vendor, until the stock or the coins run out. */
  function Sales(matches: nat, stock: nat, coins: int): (n: nat)
    ensures n <= matches && n <= stock
    ensures n > 0 ==> 25 * n <= coins
    ensures n == matches || n == stock || coins - 25 * n < 25
    decreases matches
  {
    if matches == 0 || stock == 0 || coins < 25 then 0
    else 1 + Sales(matches - 1, stock - 1, coins - 25)
  }

  /** A run of purchases that stops at the first vendor that cannot sell is the run
      `Sales` describes. */
  lemma {:induction false} SalesStop(matches: nat, stock: nat, coins: int, c: nat)
    requires c <= matches && c <= stock && (c > 0 ==> 25 * c <= coins)
    requires c == matches || c == stock || coins - 25 * c < 25
    ensures Sales(matches, stock, coins) == c
    decreases c
  {
    if c > 0 {
      SalesStop(matches - 1, stock - 1, coins - 25, c - 1);
    }
  }

  /** The purchases never take the coins below zero. */
  lemma SalesAffordable(matches: nat, stock: nat, coins: int)
    requires coins >= 0
    ensures coins - 25 * Sales(matches, stock, coins) >= 0
  {
  }

  /** What a `buy` reports, given the NPCs of that name in the room, the stock and the
      coins: no such NPC, an NPC that does not sell, or how the run of purchases
      ended. The stock is checked before the coins. */
  function BuyVerdict(name: string, matches: nat, stock: nat, coins: int): (o: BuyOutcome)
    ensures o == NoSeller <==> matches == 0
    ensures o == NotSelling <==> matches > 0 && !IsVendor(name)
    ensures o == Bought ==> Sales(matches, stock, coins) == matches
    ensures o == SoldOut ==> Sales(matches, stock, coins) == stock < matches
    ensures o == TooPoor ==> Sales(matches, stock, coins) < stock
                             && coins - 25 * Sales(matches, stock, coins) < 25
    ensures matches > 0 && IsVendor(name) ==>
              && (o == Bought <==> Sales(matches, stock, coins) == matches)
              && (o == SoldOut <==> Sales(matches, stock, coins) == stock < matches)
              && (o == TooPoor <==> Sales(matches, stock, coins) < stock
                                    && Sales(matches, stock, coins) < matches)
  {
    if matches == 0 then NoSeller
    else if !IsVendor(name) then NotSelling
    else
      var n := Sales(matches, stock, coins);
      if n == matches then Bought else if n == stock then SoldOut else TooPoor
  }

  /** One vendor, stock left and at least 25 coins: exactly the front item is bought. */
  lemma BuyOne(name: string, stock: nat, coins: int)
    requires IsVendor(name) && stock > 0 && coins >= 25
    ensures BuyVerdict(name, 1, stock, coins) == Bought && Sales(1, stock, coins) == 1
  {
  }

  // ---------------------------------------------------------------------------
  // Stealing from the NPCs of a room.

  /** How a `steal` ended, what it brought and at which NPC it stopped (the length of
      the list when it walked through). */
  datatype Haul = Haul(o: StealOutcome, gain: int, stop: nat)

  /** A `steal` from index i on, after `drawn` draws: the NPCs of that name are tried in
      list order. A vendor or the Elf ends it before anything is drawn; otherwise the
      next draw decides whether the thief is caught, then an NPC robbed before ends it,
      and a successful theft goes on to the next NPC of that name. */
  function Heist(npcs: seq<NPC>, robbed: seq<bool>, name: string, random: nat -> nat, i: nat, drawn: nat): (h: Haul)
    requires |robbed| == |npcs| && i <= |npcs|
    ensures i <= h.stop <= |npcs| && h.gain >= 0
    decreases |npcs| - i
  {
    if i == |npcs| then
      Haul(if drawn == 0 then NoVictim else Stole, 0, i)
    else if npcs[i].name != name then
      Heist(npcs, robbed, name, random, i + 1, drawn)
    else if IsVendor(name) then Haul(CannotSteal, 0, i)
    else if name == ElfName then Haul(StruckDown, 0, i)
    else if Caught(random(drawn)) then Haul(SentToSecurity, 0, i)
    else if robbed[i] then Haul(AlreadyRobbed, 0, i)
    else
      var rest := Heist(npcs, robbed, name, random, i + 1, drawn + 1);
      Haul(rest.o, Reward(random(drawn)) + rest.gain, rest.stop)
  }

  /** What a `steal` run promises: gains come in fives; it finds no victim exactly
      when nothing was drawn and no NPC of that name is left; it walks through the
      list exactly when it ends without a victim or as a success; otherwise it stops
      at an NPC of that name; every NPC of that name it passed was not robbed before;
      and a vendor or the Elf ends it with nothing gained. */
  lemma {:induction false} HeistFacts(npcs: seq<NPC>, robbed: seq<bool>, name: string, random: nat -> nat, i: nat, drawn: nat)
    requires |robbed| == |npcs| && i <= |npcs|
    ensures var h := Heist(npcs, robbed, name, random, i, drawn);
            && h.gain % 5 == 0
            && (h.o == NoVictim <==> drawn == 0 && CountNamed(npcs[i..], name) == 0)
            && (h.o == Stole || h.o == NoVictim <==> h.stop == |npcs|)
            && (h.o != Stole && h.o != NoVictim ==> npcs[h.stop].name == name)
            && (forall k :: i <= k < h.stop && npcs[k].name == name ==> !robbed[k])
            && (h.o == CannotSteal ==> IsVendor(name) && h.gain == 0)
            && (h.o == StruckDown ==> !IsVendor(name) && name == ElfName && h.gain == 0)
    decreases |npcs| - i
  {
    if i == |npcs| {
      assert npcs[i..] == [];
    } else {
      CountNamedFront(npcs, name, i);
      if npcs[i].name != name {
        HeistFacts(npcs, robbed, name, random, i + 1, drawn);
      } else if !IsVendor(name) && name != ElfName && !Caught(random(drawn)) && !robbed[i] {
        HeistFacts(npcs, robbed, name, random, i + 1, drawn + 1);
        TheftRewardFives(random(drawn));
      }
    }
  }

  lemma TheftRewardFives(draw: nat)
    ensures Reward(draw) % 5 == 0
  {
  }

  /** Counting from index i is counting the NPC at i and then the rest. */
  lemma CountNamedFront(npcs: seq<NPC>, name: string, i: nat)
    requires i < |npcs|
    ensures CountNamed(npcs[i..], name) == (if npcs[i].name == name then 1 else 0) + CountNamed(npcs[i + 1..], name)
  {
    CountNamedSplit(npcs[i..], name, 1);
    assert npcs[i..][..1] == [npcs[i]];
    assert npcs[i..][1..] == npcs[i + 1..];
    assert [npcs[i]][..0] == [];
  }

  /** The checks come in a fixed order: a vendor cannot be robbed, the Elf strikes the
      thief down, and both are decided before any draw; nothing is gained then. */
  lemma HeistRefusals(npcs: seq<NPC>, robbed: seq<bool>, name: string, random: nat -> nat)
    requires |robbed| == |npcs| && CountNamed(npcs, name) > 0
    ensures var h := Heist(npcs, robbed, name, random, 0, 0);
            (h.o == CannotSteal <==> IsVendor(name))
            && (h.o == StruckDown <==> !IsVendor(name) && name == ElfName)
            && (IsVendor(name) || name == ElfName ==> h.gain == 0)
  {
    var f :| 0 <= f < |npcs| && npcs[f].name == name;
    HeistFirst(npcs, robbed, name, random, 0, f);
    var p :| 0 <= p <= f && npcs[p].name == name
             && Heist(npcs, robbed, name, random, 0, 0) == Heist(npcs, robbed, name, random, p, 0);
    var h := Heist(npcs, robbed, name, random, p, 0);
    HeistFacts(npcs, robbed, name, random, p, 0);
    if IsVendor(name) {
      assert h == Haul(CannotSteal, 0, p);
    } else if name == ElfName {
      assert h == Haul(StruckDown, 0, p);
    }
  }

  /** Skipping the NPCs of other names up to the first one of that name. */
  lemma {:induction false} HeistFirst(npcs: seq<NPC>, robbed: seq<bool>, name: string, random: nat -> nat, i: nat, f: nat)
    requires |robbed| == |npcs| && i <= f < |npcs| && npcs[f].name == name
    ensures exists p :: i <= p <= f && npcs[p].name == name
              && (forall k :: i <= k < p ==> npcs[k].name != name)
              && Heist(npcs, robbed, name, random, i, 0) == Heist(npcs, robbed, name, random, p, 0)
    decreases f - i
  {
    if npcs[i].name != name {
      HeistFirst(npcs, robbed, name, random, i + 1, f);
      var p :| i + 1 <= p <= f && npcs[p].name == name
               && (forall k :: i + 1 <= k < p ==> npcs[k].name != name)
               && Heist(npcs, robbed, name, random, i + 1, 0) == Heist(npcs, robbed, name, random, p, 0);
      assert Heist(npcs, robbed, name, random, i, 0) == Heist(npcs, robbed, name, random, p, 0);
    }
  }

  /** Stealing from the only NPC of that name, with draw d: caught on 0, 1, 2, 5 or 7,
      nothing gained on an NPC robbed before, otherwise the draw's reward. */
  lemma {:induction false} HeistOnce(npcs: seq<NPC>, robbed: seq<bool>, name: string, random: nat -> nat, p: nat)
    requires |robbed| == |npcs| && p < |npcs| && npcs[p].name == name && !IsVendor(name) && name != ElfName
    requires forall k :: 0 <= k < |npcs| && k != p ==> npcs[k].name != name
    ensures var h := Heist(npcs, robbed, name, random, 0, 0);
            var d := random(0);
            (h.o == SentToSecurity <==> Caught(d))
            && (h.o == AlreadyRobbed <==> !Caught(d) && robbed[p])
            && (h.o == Stole <==> !Caught(d) && !robbed[p])
            && h.gain == (if h.o == Stole then Reward(d) else 0)
            && (h.o == Stole ==> h.stop == |npcs|)
            && (h.o != Stole ==> h.stop == p)
  {
    HeistFirst(npcs, robbed, name, random, 0, p);
    var q :| 0 <= q <= p && npcs[q].name == name && Heist(npcs, robbed, name, random, 0, 0) == Heist(npcs, robbed, name, random, q, 0);
    assert q == p;
    if !Caught(random(0)) && !robbed[p] {
      HeistNone(npcs, robbed, name, random, p + 1, 1);
    }
  }

  /** Past the last NPC of that name, a `steal` that has drawn ends as a success. */
  lemma {:induction false} HeistNone(npcs: seq<NPC>, robbed: seq<bool>, name: string, random: nat -> nat, i: nat, drawn: nat)
    requires |robbed| == |npcs| && i <= |npcs| && drawn > 0
    requires forall k :: i <= k < |npcs| ==> npcs[k].name != name
    ensures Heist(npcs, robbed, name, random, i, drawn) == Haul(Stole, 0, |npcs|)
    decreases |npcs| - i
  {
    if i < |npcs| {
      HeistNone(npcs, robbed, name, random, i + 1, drawn);
    }
  }

  // ---------------------------------------------------------------------------
  // Giving items away. Each item given is added to the room the player is in at
  // that moment. In the Woods an edible item is eaten by the Elf at once (added and
  // popped again), and an inedible one makes the Elf teleport the player to the room
  // the next draw names, so later items go to that room.

  /** An item left in a room. */
  datatype Drop = Drop(room: nat, item: Item)

  /** The state a run of gifts carries along: the items left in rooms so far, in
      order, the rooms marked visited by a teleport, where the player is, the
      calories the Elf still needs, whether the game goes on, and the draws made. */
  datatype Feeding = Feeding(drops: seq<Drop>, marks: set<nat>, loc: nat, calories: int, playing: bool, drawn: nat)

  /** The items of the drops that went to room k, in order. */
  function DropsAt(drops: seq<Drop>, k: nat): (items: seq<Item>)
    ensures |items| <= |drops|
  {
    if drops == [] then []
    else
      var last := drops[|drops| - 1];
      DropsAt(drops[..|drops| - 1], k) + (if last.room == k then [last.item] else [])
  }

  lemma DropsAtAppend(drops: seq<Drop>, d: Drop, k: nat)
    ensures DropsAt(drops + [d], k) == DropsAt(drops, k) + (if d.room == k then [d.item] else [])
  {
    assert (drops + [d])[..|drops|] == drops;
  }

  /** Giving one item, as the body of the `give` loop does. */
  function GiveStep(world: seq<Location>, t: Item, f: Feeding, random: nat -> nat): (g: Feeding)
    requires f.loc < |world| && forall k :: random(k) < |world|
    ensures g.loc < |world| && g.calories <= f.calories && (g.playing ==> f.playing)
    ensures g.drops == f.drops || g.drops == f.drops + [Drop(f.loc, t)]
    ensures g.marks == f.marks || g.marks == f.marks + {f.loc}
  {
    if world[f.loc].name != WoodsName then f.(drops := f.drops + [Drop(f.loc, t)])
    else if t.calories > 0 then
      var left := f.calories - t.calories;
      f.(calories := left, playing := f.playing && left > 0)
    else
      f.(drops := f.drops + [Drop(f.loc, t)], marks := f.marks + {f.loc},
         loc := random(f.drawn), drawn := f.drawn + 1)
  }

  /** Giving the items one after another. */
  function Deliveries(world: seq<Location>, taken: seq<Item>, f: Feeding, random: nat -> nat): (g: Feeding)
    requires f.loc < |world| && forall k :: random(k) < |world|
    ensures g.loc < |world|
    decreases |taken|
  {
    if taken == [] then f
    else Deliveries(world, taken[1..], GiveStep(world, taken[0], f, random), random)
  }

  /** What a run of gifts keeps: the Elf's hunger never grows, a game that stopped
      stays stopped, marks and drops are only added, at most one drop per item given,
      and every new drop is one of the items given. */
  lemma {:induction false} DeliveriesFacts(world: seq<Location>, taken: seq<Item>, f: Feeding, random: nat -> nat)
    requires f.loc < |world| && forall k :: random(k) < |world|
    ensures var g := Deliveries(world, taken, f, random);
            && g.calories <= f.calories && (g.playing ==> f.playing)
            && f.marks <= g.marks && |f.drops| <= |g.drops| <= |f.drops| + |taken|
            && g.drops[..|f.drops|] == f.drops
            && forall j :: |f.drops| <= j < |g.drops| ==> g.drops[j].item in taken
    decreases |taken|
  {
    if taken != [] {
      var s := GiveStep(world, taken[0], f, random);
      DeliveriesFacts(world, taken[1..], s, random);
      var g := Deliveries(world, taken, f, random);
      assert g.drops[..|s.drops|][..|f.drops|] == g.drops[..|f.drops|];
      forall j | |f.drops| <= j < |g.drops|
        ensures g.drops[j].item in taken
      {
        if j >= |s.drops| {
          assert g.drops[j].item in taken[1..];
        } else {
          assert g.drops[j] == s.drops[j];
        }
      }
    } else {
      assert f.drops[..|f.drops|] == f.drops;
    }
  }

  /** One more item given after a run of gifts. */
  lemma DeliveriesStep(world: seq<Location>, taken: seq<Item>, i: nat, f: Feeding, random: nat -> nat)
    requires i < |taken| && f.loc < |world| && forall k :: random(k) < |world|
    ensures Deliveries(world, taken[i..], f, random)
            == Deliveries(world, taken[i + 1..], GiveStep(world, taken[i], f, random), random)
  {
    assert taken[i..][1..] == taken[i + 1..];
  }

  /** An edible item given in the Woods: the Elf needs exactly its calories fewer, the
      game stops exactly when that reaches zero or less, and the item is eaten: no
      room gains it, no room is marked and the player stays. */
  lemma GiveEdible(world: seq<Location>, t: Item, f: Feeding, random: nat -> nat)
    requires f.loc < |world| && forall k :: random(k) < |world|
    requires world[f.loc].name == WoodsName && t.calories > 0 && f.playing
    ensures var g := Deliveries(world, [t], f, random);
            g.calories == f.calories - t.calories
            && (g.playing <==> f.calories - t.calories > 0)
            && g.drops == f.drops && g.marks == f.marks && g.loc == f.loc
  {
  }

  /** An inedible item given in the Woods stays in the Woods, the Woods is marked
      visited, and the player is teleported to the room the next draw names; the
      Elf's hunger and the game's progress are untouched. */
  lemma GiveInedible(world: seq<Location>, t: Item, f: Feeding, random: nat -> nat)
    requires f.loc < |world| && forall k :: random(k) < |world|
    requires world[f.loc].name == WoodsName && t.calories <= 0
    ensures var g := Deliveries(world, [t], f, random);
            g.drops == f.drops + [Drop(f.loc, t)] && g.marks == f.marks + {f.loc}
            && g.loc == random(f.drawn) && g.calories == f.calories && g.playing == f.playing
  {
  }

  /** Outside the Woods a given item simply joins the room's items. */
  lemma GiveElsewhere(world: seq<Location>, t: Item, f: Feeding, random: nat -> nat)
    requires f.loc < |world| && forall k :: random(k) < |world|
    requires world[f.loc].name != WoodsName
    ensures var g := Deliveries(world, [t], f, random);
            g.drops == f.drops + [Drop(f.loc, t)] && g.marks == f.marks && g.loc == f.loc
            && g.calories == f.calories && g.playing == f.playing
  {
  }

  /** With the item's name occurring once in a list, a scan removes exactly that item
      and exactly its weight. This is the inventory side of `give` and the room side
      of `take`. */
  lemma ScanOnce(xs: seq<Item>, name: string, p: nat)
    requires OnlyAt(xs, name, p)
    ensures Extract(xs, name) == Scan(xs[..p] + xs[p + 1..], [xs[p]])
    ensures SumWeights(Extract(xs, name).kept) == SumWeights(xs) - xs[p].weight
  {
    ExtractUnique(xs, name, p);
    SumWeightsRemove(xs, p);
  }

  /** Taking an item whose name occurs once in room `loc` and nowhere in the
      inventory, then giving it back there when that room is not the Woods: the
      inventory and its weight are as before, the one drop of the gift goes to
      `loc`, nothing else changes, and the room holds the same items as before the
      take, the returned one now at the back. */
  lemma TakeGiveRoundTrip(world: seq<Location>, loc: nat, calories: int, playing: bool, random: nat -> nat,
                          room: seq<Item>, inventory: seq<Item>, name: string, p: nat)
    requires loc < |world| && world[loc].name != WoodsName && forall k :: random(k) < |world|
    requires OnlyAt(room, name, p)
    requires forall k :: 0 <= k < |inventory| ==> inventory[k].name != name
    ensures var took := Extract(room, name);
            var gave := Extract(inventory + took.taken, name);
            var f := Feeding([], {}, loc, calories, playing, 0);
            var g := Deliveries(world, gave.taken, f, random);
            && took.taken == [room[p]] && gave.taken == [room[p]]
            && gave.kept == inventory
            && SumWeights(gave.kept) == SumWeights(inventory)
            && g == f.(drops := [Drop(loc, room[p])])
            && took.kept + DropsAt(g.drops, loc) == room[..p] + room[p + 1..] + [room[p]]
            && multiset(took.kept + DropsAt(g.drops, loc)) == multiset(room)
  {
    TakeGiveLists(room, inventory, name, p);
    GiveBack(world, room[p], Feeding([], {}, loc, calories, playing, 0), random);
  }

  /** The list half of the round trip: the item goes from the room to the back of
      the inventory and leaves it again, and the room's other items keep their order. */
  lemma TakeGiveLists(room: seq<Item>, inventory: seq<Item>, name: string, p: nat)
    requires OnlyAt(room, name, p)
    requires forall k :: 0 <= k < |inventory| ==> inventory[k].name != name
    ensures var took := Extract(room, name);
            var gave := Extract(inventory + took.taken, name);
            && took.taken == [room[p]] && gave.taken == [room[p]]
            && gave.kept == inventory
            && took.kept + [room[p]] == room[..p] + room[p + 1..] + [room[p]]
            && multiset(took.kept + [room[p]]) == multiset(room)
  {
    ScanOnce(room, name, p);
    var carried := inventory + [room[p]];
    assert OnlyAt(carried, name, |inventory|);
    ScanOnce(carried, name, |inventory|);
    assert carried[..|inventory|] == inventory && carried[|inventory| + 1..] == [];
    assert room == room[..p] + [room[p]] + room[p + 1..];
  }

  /** A single gift outside the Woods, at the start of a `give`: the one drop lands in
      the player's room and is all that room gains. */
  lemma GiveBack(world: seq<Location>, t: Item, f: Feeding, random: nat -> nat)
    requires f.loc < |world| && forall k :: random(k) < |world|
    requires world[f.loc].name != WoodsName && f.drops == []
    ensures Deliveries(world, [t], f, random) == f.(drops := [Drop(f.loc, t)])
    ensures DropsAt([Drop(f.loc, t)], f.loc) == [t]
  {
    GiveElsewhere(world, t, f, random);
    DropsAtAppend([], Drop(f.loc, t), f.loc);
  }

  // ---------------------------------------------------------------------------

  datatype GoOutcome = Overweight | NoExit | Moved
  datatype BuyOutcome = NoSeller | NotSelling | SoldOut | TooPoor | Bought
  datatype StealOutcome = NoVictim | CannotSteal | StruckDown | SentToSecurity | AlreadyRobbed | Stole

  /** What a command line did. */
  datatype Reply =
    | InvalidCommand
    | Helped
    | Talked(lines: seq<string>)
    | Met(descriptions: seq<string>)
    | Took(took: bool)
    | Gave(gave: bool, won: bool)
    | Went(go: GoOutcome)
    | Inventory(carried: seq<Item>, purse: int, load: int)
    | Looked
    | Quitted
    | Purchased(buy: BuyOutcome, bought: seq<Item>)
    | Robbed(steal: StealOutcome)

  /** The handler that produced a reply; `None` for a verb the table lacks. */
  function HandlerOf(reply: Reply): (h: Option<Handler>)
    ensures h == None <==> reply == InvalidCommand
  {
    match reply
    case InvalidCommand => None
    case Helped => Some(Help)
    case Talked(_) => Some(Talk)
    case Met(_) => Some(Meet)
    case Took(_) => Some(Take)
    case Gave(_, _) => Some(Give)
    case Went(_) => Some(Go)
    case Inventory(_, _, _) => Some(ShowItems)
    case Looked => Some(Look)
    case Quitted => Some(Quit)
    case Purchased(_, _) => Some(Buy)
    case Robbed(_) => Some(Steal)
  }

  /** The replies that end the game: a quit, a gift that left the Elf with nothing
      more to ask for, and an attempt to rob the Elf. */
  predicate Stops(reply: Reply) {
    || reply.Quitted?
    || (reply.Gave? && reply.won)
    || (reply.Robbed? && reply.steal == StruckDown)
  }

  /** The handlers that only report: they change no state. */
  predicate ReadOnly(h: Option<Handler>) {
    h == None || h == Some(Help) || h == Some(ShowItems) || h == Some(Look)
  }

  /** The purchases a `buy` makes, walking the room's NPCs in order: the outcome,
      the items bought and the stock left. */
  method Sell(npcs: seq<NPC>, name: string, stock: seq<Item>, coins: int)
    returns (o: BuyOutcome, bought: seq<Item>, left: seq<Item>)
    ensures var m := CountNamed(npcs, name);
            var n := if m > 0 && IsVendor(name) then Sales(m, |stock|, coins) else 0;
            o == BuyVerdict(name, m, |stock|, coins)
            && n <= |stock| && bought == stock[..n] && left == stock[n..]
    ensures bought != [] ==> 25 * |bought| <= coins
  {
    bought, left := [], stock;
    o := NoSeller;
    var i, c, purse := 0, 0, coins;
    while i < |npcs| && (o == NoSeller || o == Bought)
      invariant i <= |npcs| && c <= CountNamed(npcs[..i], name)
      invariant o == NoSeller <==> CountNamed(npcs[..i], name) == 0
      invariant o == Bought ==> c == CountNamed(npcs[..i], name) > 0 && IsVendor(name)
      invariant o == NotSelling ==> c == 0 && !IsVendor(name) && CountNamed(npcs[..i], name) > 0
      invariant (o == SoldOut || o == TooPoor) ==> c < CountNamed(npcs[..i], name) && IsVendor(name)
      invariant o == SoldOut ==> c == |stock|
      invariant o == TooPoor ==> c < |stock| && purse < 25
      invariant c <= |stock| && purse == coins - 25 * c && (c > 0 ==> purse >= 0)
      invariant bought == stock[..c] && left == stock[c..]
    {
      assert npcs[..i + 1][..i] == npcs[..i];
      if npcs[i].name == name {
        if !IsVendor(name) {
          o := NotSelling;
        } else if left == [] {
          o := SoldOut;
        } else if purse < 25 {
          o := TooPoor;
        } else {
          assert stock[..c + 1] == bought + [left[0]];
          bought, left := bought + [left[0]], left[1..];
          c, purse := c + 1, purse - 25;
          o := Bought;
        }
      }
      i := i + 1;
    }
    ghost var m := CountNamed(npcs, name);
    if o == NoSeller || o == Bought {
      assert npcs[..|npcs|] == npcs;
    } else {
      CountNamedSplit(npcs, name, i);
    }
    if o != NoSeller && o != NotSelling {
      SalesStop(m, |stock|, coins, c);
    }
  }

  /** The NPCs of that name each say their next line, in list order, and move their
      cursor on; the other NPCs keep theirs. */
  method Chat(npcs: seq<NPC>, name: string) returns (lines: seq<string>)
    requires forall k :: 0 <= k < |npcs| ==> npcs[k].messageNum < |npcs[k].messages|
    requires forall i, j :: 0 <= i < j < |npcs| ==> npcs[i] != npcs[j]
    modifies npcs`messageNum
    ensures lines == old(Replies(npcs, name))
    ensures forall k :: 0 <= k < |npcs| ==>
              npcs[k].messageNum == if npcs[k].name == name
                                    then NextCursor(old(npcs[k].messageNum), |npcs[k].messages|)
                                    else old(npcs[k].messageNum)
  {
    lines := [];
    for i := 0 to |npcs|
      invariant lines == old(Replies(npcs[..i], name))
      invariant forall k :: 0 <= k < |npcs| ==>
                  npcs[k].messageNum == if k < i && npcs[k].name == name
                                        then NextCursor(old(npcs[k].messageNum), |npcs[k].messages|)
                                        else old(npcs[k].messageNum)
    {
      assert npcs[..i + 1][..i] == npcs[..i];
      assert old(Replies(npcs[..i + 1], name)) == old(Replies(npcs[..i], name))
             + (if npcs[i].name == name then [npcs[i].messages[old(npcs[i].messageNum)]] else []);
      if npcs[i].name == name {
        var line := npcs[i].GetCurrentMessage();
        lines := lines + [line];
      }
    }
    assert npcs[..|npcs|] == npcs;
  }

  /** Talking in room r of a world: the NPCs of that name there speak, and the
      world stays well formed. */
  method TalkIn(world: seq<Location>, r: nat, name: string) returns (lines: seq<string>)
    requires WellFormed(world) && r < |world|
    modifies world[r].npcs`messageNum
    ensures WellFormed(world)
    ensures lines == old(Replies(world[r].npcs, name))
    ensures var npcs := world[r].npcs;
            forall k :: 0 <= k < |npcs| ==>
              npcs[k].messageNum == if npcs[k].name == name
                                    then NextCursor(old(npcs[k].messageNum), |npcs[k].messages|)
                                    else old(npcs[k].messageNum)
  {
    lines := Chat(world[r].npcs, name);
  }

  /** The `steal` loop over a room's NPCs: every successful theft marks its victim
      robbed, and the loop stops where `Heist` says, with its outcome and gain. */
  method Rob(npcs: seq<NPC>, name: string, random: nat -> nat) returns (h: Haul)
    requires forall i, j :: 0 <= i < j < |npcs| ==> npcs[i] != npcs[j]
    modifies npcs`robbed
    ensures h == Heist(npcs, old(RobbedFlags(npcs)), name, random, 0, 0)
    ensures forall k :: 0 <= k < |npcs| ==>
              npcs[k].robbed == (old(npcs[k].robbed) || (k < h.stop && npcs[k].name == name))
  {
    ghost var robbed := RobbedFlags(npcs);
    ghost var whole := Heist(npcs, robbed, name, random, 0, 0);
    var i, drawn, gain := 0, 0, 0;
    var done := false;
    h := Haul(NoVictim, 0, 0);
    while i < |npcs| && !done
      invariant i <= |npcs|
      invariant done ==> h == whole && h.stop == i
      invariant !done ==> var rest := Heist(npcs, robbed, name, random, i, drawn);
                          whole == Haul(rest.o, gain + rest.gain, rest.stop)
      invariant forall k :: 0 <= k < |npcs| ==>
                  npcs[k].robbed == (robbed[k] || (k < i && npcs[k].name == name))
      decreases |npcs| - i, !done
    {
      ghost var here := Heist(npcs, robbed, name, random, i, drawn);
      if npcs[i].name == name {
        if IsVendor(name) {
          h, done := Haul(CannotSteal, gain, i), true;
        } else if name == ElfName {
          h, done := Haul(StruckDown, gain, i), true;
        } else {
          var draw := random(drawn);
          drawn := drawn + 1;
          if Caught(draw) {
            h, done := Haul(SentToSecurity, gain, i), true;
          } else if npcs[i].robbed {
            h, done := Haul(AlreadyRobbed, gain, i), true;
          } else {
            ghost var rest := Heist(npcs, robbed, name, random, i + 1, drawn);
            assert here == Haul(rest.o, Reward(draw) + rest.gain, rest.stop);
            gain := gain + Reward(draw);
            npcs[i].robbed := true;
          }
        }
      } else {
        assert here == Heist(npcs, robbed, name, random, i + 1, drawn);
      }
      if !done {
        i := i + 1;
      }
    }
    if !done {
      h := Haul(if drawn == 0 then NoVictim else Stole, gain, i);
    }
  }

  /** Stealing in room r of a world: `Rob` over its NPCs, and getting caught marks the
      room visited. The world stays well formed. */
  method StealIn(world: seq<Location>, r: nat, room: Location, name: string, random: nat -> nat)
    returns (h: Haul)
    requires WellFormed(world) && r < |world| && room == world[r]
    modifies room`visited, room.npcs`robbed
    ensures WellFormed(world)
    ensures var npcs := world[r].npcs;
            h == Heist(npcs, old(RobbedFlags(npcs)), name, random, 0, 0)
            && forall k :: 0 <= k < |npcs| ==>
                 npcs[k].robbed == (old(npcs[k].robbed) || (k < h.stop && npcs[k].name == name))
    ensures forall k :: 0 <= k < |world| ==>
              world[k].items == old(world[k].items)
              && world[k].visited == (old(world[k].visited) || (k == r && h.o == SentToSecurity))
    ensures forall k :: 0 <= k < |world[r].npcs| ==> world[r].npcs[k].messageNum == old(world[r].npcs[k].messageNum)
  {
    h := Rob(room.npcs, name, random);
    if h.o == SentToSecurity {
      room.visited := true;
    }
    WellFormedKept(world);
  }

  /** The rooms hold what they held at the start plus what was dropped into them, in
      order, and a room is visited when it was at the start or a teleport marked it. */
  ghost predicate Delivered(world: seq<Location>, init: seq<seq<Item>>, seen: seq<bool>, drops: seq<Drop>, marks: set<nat>)
    reads world`items, world`visited
    requires |init| == |world| && |seen| == |world|
  {
    forall k :: 0 <= k < |world| ==>
      world[k].items == init[k] + DropsAt(drops, k) && world[k].visited == (seen[k] || k in marks)
  }

  /** The items of the rooms, by index. */
  ghost function ItemsOf(world: seq<Location>): (r: seq<seq<Item>>)
    reads world`items
    ensures |r| == |world| && forall k :: 0 <= k < |world| ==> r[k] == world[k].items
  {
    if world == [] then [] else [world[0].items] + ItemsOf(world[1..])
  }

  /** The visited flags of the rooms, by index. */
  ghost function VisitedOf(world: seq<Location>): (r: seq<bool>)
    reads world`visited
    ensures |r| == |world| && forall k :: 0 <= k < |world| ==> r[k] == world[k].visited
  {
    if world == [] then [] else [world[0].visited] + VisitedOf(world[1..])
  }

  /** `add_item` on room `at`: the given item joins the back of the room's items. */
  method AddDrop(world: seq<Location>, at: nat, room: Location, t: Item,
                 ghost init: seq<seq<Item>>, ghost seen: seq<bool>, ghost drops: seq<Drop>, ghost marks: set<nat>)
    requires forall j, k :: 0 <= j < k < |world| ==> world[j] != world[k]
    requires at < |world| && room == world[at] && |init| == |world| && |seen| == |world|
    requires Delivered(world, init, seen, drops, marks)
    modifies room`items
    ensures world[at].items == old(world[at].items) + [t]
    ensures Delivered(world, init, seen, drops + [Drop(at, t)], marks)
  {
    room.items := room.items + [t];
    forall k | 0 <= k < |world|
      ensures world[k].items == init[k] + DropsAt(drops + [Drop(at, t)], k)
    {
      DropsAtAppend(drops, Drop(at, t), k);
      if k == at {
        assert init[k] + DropsAt(drops, k) + [t] == init[k] + (DropsAt(drops, k) + [t]);
      } else {
        assert world[k] != room;
      }
    }
  }

  /** The Elf eats the item just added to room `at`: it is popped off the back again. */
  method PopDrop(world: seq<Location>, at: nat, room: Location, t: Item,
                 ghost init: seq<seq<Item>>, ghost seen: seq<bool>, ghost drops: seq<Drop>, ghost marks: set<nat>)
    requires forall j, k :: 0 <= j < k < |world| ==> world[j] != world[k]
    requires at < |world| && room == world[at] && |init| == |world| && |seen| == |world|
    requires Delivered(world, init, seen, drops + [Drop(at, t)], marks)
    modifies room`items
    ensures world[at].items + [t] == old(world[at].items)
    ensures Delivered(world, init, seen, drops, marks)
  {
    DropsAtAppend(drops, Drop(at, t), at);
    assert room.items == (init[at] + DropsAt(drops, at)) + [t];
    room.items := room.items[..|room.items| - 1];
    forall k | 0 <= k < |world|
      ensures world[k].items == init[k] + DropsAt(drops, k)
    {
      DropsAtAppend(drops, Drop(at, t), k);
      if k != at {
        assert world[k] != room;
      }
    }
  }

  /** Room `at` is marked visited. */
  method MarkRoom(world: seq<Location>, at: nat, room: Location,
                  ghost init: seq<seq<Item>>, ghost seen: seq<bool>, ghost drops: seq<Drop>, ghost marks: set<nat>)
    requires forall j, k :: 0 <= j < k < |world| ==> world[j] != world[k]
    requires at < |world| && room == world[at] && |init| == |world| && |seen| == |world|
    requires Delivered(world, init, seen, drops, marks)
    modifies room`visited
    ensures world[at].visited
    ensures Delivered(world, init, seen, drops, marks + {at})
  {
    room.visited := true;
    forall k | 0 <= k < |world|
      ensures world[k].visited == (seen[k] || k in marks + {at})
    {
      if k != at {
        assert world[k] != room;
      }
    }
  }

  /** Giving one item that has been taken out of the inventory, in the room at index
      `at`, as `GiveStep` describes. */
  method GiveOne(world: seq<Location>, t: Item, at: nat, hunger: int, going: bool, drawn: nat, random: nat -> nat,
                 ghost init: seq<seq<Item>>, ghost seen: seq<bool>, ghost drops: seq<Drop>, ghost marks: set<nat>)
    returns (next: nat, left: int, still: bool, draws: nat, ghost dropsAfter: seq<Drop>, ghost marksAfter: set<nat>)
    requires forall j, k :: 0 <= j < k < |world| ==> world[j] != world[k]
    requires at < |world| && forall k :: random(k) < |world|
    requires |init| == |world| && |seen| == |world| && Delivered(world, init, seen, drops, marks)
    modifies world`items, world`visited
    ensures GiveStep(world, t, Feeding(drops, marks, at, hunger, going, drawn), random)
            == Feeding(dropsAfter, marksAfter, next, left, still, draws)
    ensures Delivered(world, init, seen, dropsAfter, marksAfter)
  {
    next, left, still, draws := at, hunger, going, drawn;
    AddDrop(world, at, world[at], t, init, seen, drops, marks);
    dropsAfter, marksAfter := drops + [Drop(at, t)], marks;
    if world[at].name == WoodsName {
      if t.calories > 0 {
        left := hunger - t.calories;
        if left <= 0 {
          still := false;
        }
        PopDrop(world, at, world[at], t, init, seen, drops, marks);
        dropsAfter := drops;
      } else {
        MarkRoom(world, at, world[at], init, seen, dropsAfter, marks);
        marksAfter := marks + {at};
        next := random(drawn);
        draws := drawn + 1;
      }
    }
  }

  /** The delivering half of `give`: every item given is added to the room the player
      stands in; in the Woods an edible one feeds the Elf and is popped off the room
      again, and an inedible one gets the Woods marked visited and the player
      teleported. The result is where the player ends up, the calories the Elf still
      needs and whether the game goes on. */
  method Deliver(world: seq<Location>, taken: seq<Item>, loc: nat, calories: int, playing: bool, random: nat -> nat)
    returns (at: nat, hunger: int, going: bool)
    requires forall j, k :: 0 <= j < k < |world| ==> world[j] != world[k]
    requires loc < |world| && forall k :: random(k) < |world|
    modifies world`items, world`visited
    ensures var g := Deliveries(world, taken, Feeding([], {}, loc, calories, playing, 0), random);
            at == g.loc && hunger == g.calories && going == g.playing
            && forall k :: 0 <= k < |world| ==>
                 world[k].items == old(world[k].items) + DropsAt(g.drops, k)
                 && world[k].visited == (old(world[k].visited) || k in g.marks)
  {
    ghost var whole := Deliveries(world, taken, Feeding([], {}, loc, calories, playing, 0), random);
    ghost var init, seen := ItemsOf(world), VisitedOf(world);
    ghost var drops: seq<Drop>, marks: set<nat> := [], {};
    at, hunger, going := loc, calories, playing;
    var drawn := 0;
    assert taken[0..] == taken;
    assert forall k :: 0 <= k < |world| ==> init[k] + [] == init[k];
    for i := 0 to |taken|
      invariant at < |world|
      invariant whole == Deliveries(world, taken[i..], Feeding(drops, marks, at, hunger, going, drawn), random)
      invariant Delivered(world, init, seen, drops, marks)
    {
      DeliveriesStep(world, taken, i, Feeding(drops, marks, at, hunger, going, drawn), random);
      at, hunger, going, drawn, drops, marks :=
        GiveOne(world, taken[i], at, hunger, going, drawn, random, init, seen, drops, marks);
    }
    assert taken[|taken|..] == [];
  }

  /** `Deliver` inside a well-formed world, which it leaves well formed. */
  method DeliverIn(world: seq<Location>, taken: seq<Item>, loc: nat, calories: int, playing: bool, random: nat -> nat)
    returns (at: nat, hunger: int, going: bool)
    requires WellFormed(world)
    requires loc < |world| && forall k :: random(k) < |world|
    modifies world`items, world`visited
    ensures WellFormed(world)
    ensures var g := Deliveries(world, taken, Feeding([], {}, loc, calories, playing, 0), random);
            at == g.loc && hunger == g.calories && going == g.playing
            && forall k :: 0 <= k < |world| ==>
                 world[k].items == old(world[k].items) + DropsAt(g.drops, k)
                 && world[k].visited == (old(world[k].visited) || k in g.marks)
  {
    at, hunger, going := Deliver(world, taken, loc, calories, playing, random);
  }

  /** The NPCs of a room are NPCs of the world. */
  lemma NpcsHere(world: seq<Location>, r: nat)
    requires r < |world|
    ensures forall i :: 0 <= i < |world[r].npcs| ==> world[r].npcs[i] in AllNpcs(world)
  {
  }

  /** Answering the next line keeps a run of replies in step with the lines: each
      reply comes from the handler its line selects, and only the last one may stop
      the game. */
  lemma Answered(selected: seq<Option<Handler>>, replies: seq<Reply>, reply: Reply)
    requires |replies| < |selected|
    requires forall k :: 0 <= k < |replies| ==> HandlerOf(replies[k]) == selected[k]
    requires forall k :: 0 <= k < |replies| - 1 ==> !Stops(replies[k])
    requires |replies| > 0 ==> !Stops(replies[|replies| - 1])
    requires HandlerOf(reply) == selected[|replies|]
    ensures forall k :: 0 <= k < |replies| + 1 ==> HandlerOf((replies + [reply])[k]) == selected[k]
    ensures forall k :: 0 <= k < |replies| ==> !Stops((replies + [reply])[k])
  {
    var answered := replies + [reply];
    forall k | 0 <= k < |replies| + 1
      ensures HandlerOf(answered[k]) == selected[k]
    {
      if k < |replies| {
        assert answered[k] == replies[k];
      }
    }
    forall k | 0 <= k < |replies|
      ensures !Stops(answered[k])
    {
      assert answered[k] == replies[k];
    }
  }

  /** The player's side of the game: inventory and its weight, location, the
      calories the Elf still needs, whether the game goes on, coins and the shop
      stock left. */
  datatype Player = Player(items: seq<Item>, weight: int, loc: nat, calories: int, playing: bool,
                           coins: int, stock: seq<Item>)

  class Game {
    /** The player's inventory, in the order the items were picked up. */
    var items: seq<Item>
    /** The weight the player carries. */
    var weight: int
    /** The rooms, by index. */
    const world: seq<Location>
    var currentLocation: nat
    /** Calories the Elf still needs. */
    var winningCalories: int
    var inProgress: bool
    var coins: int
    /** What is left of the shop stock, sold front first. */
    var shopItems: seq<Item>

    ghost predicate Valid()
      reads this, world`npcs, world`neighbors, AllNpcs(world)`messageNum, AllNpcs(world)`messages
    {
      && WellFormed(world)
      && currentLocation < |world|
      && weight == SumWeights(items)
      && coins >= 0
    }

    /** The player's side of the game as one value. */
    function Fields(): (p: Player)
      reads this
      ensures p.items == items && p.loc == currentLocation && p.coins == coins
    {
      Player(items, weight, currentLocation, winningCalories, inProgress, coins, shopItems)
    }

    /** No room's items or visited flag changed. */
    twostate predicate RoomsKept()
      reads world
    {
      forall k :: 0 <= k < |world| ==>
        world[k].items == old(world[k].items) && world[k].visited == old(world[k].visited)
    }

    /** No NPC of room r moved its cursor or changed its robbed flag. */
    twostate predicate NpcsKept(r: nat)
      requires r < |world|
      reads world, world[r].npcs
    {
      && world[r].npcs == old(world[r].npcs)
      && forall n :: n in world[r].npcs ==> n.messageNum == old(n.messageNum) && n.robbed == old(n.robbed)
    }

    /** Nothing a command can change has changed. */
    twostate predicate Unchanged()
      reads this, world, AllNpcs(world)
    {
      && old(currentLocation) < |world|
      && Fields() == old(Fields()) && RoomsKept() && NpcsKept(old(currentLocation))
    }

    /** What `take` did: the items the scan of the room reached left it for the back
        of the inventory, with their weight; nothing else changed. */
    twostate predicate TakeDone(name: string)
      reads this, world, AllNpcs(world)
    {
      && old(currentLocation) < |world|
      && var here := old(currentLocation);
         var r := Extract(old(world[here].items), name);
         && Fields() == old(Fields()).(items := old(items) + r.taken, weight := old(weight) + SumWeights(r.taken))
         && (forall k :: 0 <= k < |world| ==>
               world[k].items == (if k == here then r.kept else old(world[k].items))
               && world[k].visited == old(world[k].visited))
         && NpcsKept(here)
    }

    /** What `go` did: the room left is marked visited, and the player moved through
        the exit exactly when the outcome says so; nothing else changed. */
    twostate predicate GoDone(direction: string, o: GoOutcome)
      reads this, world, AllNpcs(world)
    {
      && old(currentLocation) < |world|
      && var here := old(currentLocation);
         var exits := old(world[here].neighbors);
         && Fields() == old(Fields()).(loc := if o == Moved && direction in exits then exits[direction] else here)
         && (forall k :: 0 <= k < |world| ==>
               world[k].items == old(world[k].items)
               && world[k].visited == (old(world[k].visited) || k == here))
         && NpcsKept(here)
    }

    /** What `talk` did: the NPCs here of that name moved their cursors on by one
        line; nothing else changed. */
    twostate predicate TalkDone(name: string)
      reads this, world, AllNpcs(world)
    {
      && old(currentLocation) < |world|
      && var npcs := old(world[currentLocation].npcs);
         && world[old(currentLocation)].npcs == npcs
         && Fields() == old(Fields()) && RoomsKept()
         && forall k :: 0 <= k < |npcs| ==>
              npcs[k].robbed == old(npcs[k].robbed)
              && old(npcs[k].messageNum) < |npcs[k].messages|
              && npcs[k].messageNum == if npcs[k].name == name
                                       then NextCursor(old(npcs[k].messageNum), |npcs[k].messages|)
                                       else old(npcs[k].messageNum)
    }

    /** What `buy` did: the verdict is `BuyVerdict`, and the front of the stock moved
        to the inventory at 25 coins an item, as many items as `Sales` says; nothing
        else changed. */
    twostate predicate BuyDone(name: string, o: BuyOutcome, bought: seq<Item>)
      reads this, world, AllNpcs(world)
    {
      && old(currentLocation) < |world|
      && var here := old(currentLocation);
         var m := CountNamed(world[here].npcs, name);
         var n := if m > 0 && IsVendor(name) then Sales(m, |old(shopItems)|, old(coins)) else 0;
         && o == BuyVerdict(name, m, |old(shopItems)|, old(coins))
         && n <= |old(shopItems)| && bought == old(shopItems)[..n]
         && Fields() == old(Fields()).(items := old(items) + bought, weight := old(weight) + SumWeights(bought),
                                       coins := old(coins) - 25 * |bought|, stock := old(shopItems)[n..])
         && RoomsKept() && NpcsKept(here)
    }

    /** What `steal` did: outcome, gain and robbed flags as `Heist` says; a catch
        marks the room visited and moves the player to Campus Security, and robbing
        the Elf stops the game; nothing else changed. */
    twostate predicate StealDone(name: string, random: nat -> nat, o: StealOutcome)
      reads this, world, AllNpcs(world)
    {
      && old(currentLocation) < |world|
      && var here := old(currentLocation);
         var npcs := old(world[here].npcs);
         var h := Heist(npcs, old(RobbedFlags(npcs)), name, random, 0, 0);
         && world[here].npcs == npcs
         && o == h.o
         && Fields() == old(Fields()).(coins := old(coins) + h.gain, playing := old(inProgress) && o != StruckDown,
                                       loc := if o == SentToSecurity then CampusSecurity else here)
         && (forall k :: 0 <= k < |world| ==>
               world[k].items == old(world[k].items)
               && world[k].visited == (old(world[k].visited) || (k == here && o == SentToSecurity)))
         && forall k :: 0 <= k < |npcs| ==>
              npcs[k].messageNum == old(npcs[k].messageNum)
              && npcs[k].robbed == (old(npcs[k].robbed) || (k < h.stop && npcs[k].name == name))
    }

    /** What `give` did: the items the scan of the inventory reached left it with
        their weight, and the rooms, the location, the Elf's hunger and the game's
        progress are those `Deliveries` gives; nothing else changed. */
    twostate predicate GiveDone(name: string, random: nat -> nat)
      reads this, world, AllNpcs(world)
    {
      && old(currentLocation) < |world| && (forall k :: random(k) < |world|)
      && var here := old(currentLocation);
         var r := Extract(old(items), name);
         var g := Deliveries(world, r.taken, Feeding([], {}, here, old(winningCalories), old(inProgress), 0), random);
         && Fields() == old(Fields()).(items := r.kept, weight := old(weight) - SumWeights(r.taken),
                                       loc := g.loc, calories := g.calories, playing := g.playing)
         && (forall k :: 0 <= k < |world| ==>
               world[k].items == old(world[k].items) + DropsAt(g.drops, k)
               && world[k].visited == (old(world[k].visited) || k in g.marks))
         && NpcsKept(here)
    }

    /** What `quit` did: the game stopped; nothing else changed. */
    twostate predicate QuitDone()
      reads this, world, AllNpcs(world)
    {
      && old(currentLocation) < |world|
      && Fields() == old(Fields()).(playing := false) && RoomsKept() && NpcsKept(old(currentLocation))
    }

    /** The state change a reply stands for, for the command's target and draws:
        each handler's own, and none at all for an unknown verb, help, inventory,
        look and meet. */
    twostate predicate Effect(target: string, random: nat -> nat, reply: Reply)
      reads this, world, AllNpcs(world)
    {
      match reply
      case Took(_) => TakeDone(target)
      case Went(o) => GoDone(target, o)
      case Talked(_) => TalkDone(target)
      case Purchased(o, bought) => BuyDone(target, o, bought)
      case Robbed(o) => StealDone(target, random, o)
      case Gave(_, _) => GiveDone(target, random)
      case Quitted => QuitDone()
      case _ => Unchanged()
    }

    /** The room the player is in. */
    function Here(): (room: Location)
      reads this
      requires currentLocation < |world|
      ensures room == world[currentLocation]
    {
      world[currentLocation]
    }

    /** A game in a given world, starting in the room the start draw names: empty
        pockets, the full shop stock and a hungry Elf. */
    constructor (world: seq<Location>, start: nat)
      requires WellFormed(world) && start < |world|
      ensures Valid() && this.world == world
      ensures items == [] && weight == 0 && coins == 0 && shopItems == ShopStock()
      ensures winningCalories == StartingCalories && inProgress && currentLocation == start
    {
      this.world := world;
      items := [];
      weight := 0;
      winningCalories := StartingCalories;
      inProgress := true;
      coins := 0;
      currentLocation := start;
      shopItems := ShopStock();
    }

    /** Gives up: the game stops and nothing else changes. */
    method Quit()
      requires Valid()
      modifies this`inProgress
      ensures Valid()
      ensures !inProgress
      ensures QuitDone()
    {
      inProgress := false;
    }

    /** The descriptions of the NPCs in the current room that carry the name. */
    method Meet(name: string) returns (descriptions: seq<string>)
      requires Valid()
      ensures descriptions == Descriptions(world[currentLocation].npcs, name)
      ensures descriptions == [] <==> forall k :: 0 <= k < |world[currentLocation].npcs| ==>
                                        world[currentLocation].npcs[k].name != name
    {
      var npcs := world[currentLocation].npcs;
      descriptions := [];
      for i := 0 to |npcs|
        invariant descriptions == Descriptions(npcs[..i], name)
      {
        assert npcs[..i + 1][..i] == npcs[..i];
        if npcs[i].name == name {
          descriptions := descriptions + [npcs[i].description];
        }
      }
      assert npcs[..|npcs|] == npcs;
    }

    /** A purchase is settled: the goods join the inventory, the price is paid and
        the shop keeps what is left of its stock. */
    method Settle(goods: seq<Item>, price: int, left: seq<Item>)
      requires Valid() && 0 <= price <= coins
      modifies this`items, this`weight, this`coins, this`shopItems
      ensures Valid()
      ensures items == old(items) + goods && weight == old(weight) + SumWeights(goods)
      ensures coins == old(coins) - price && shopItems == left
      ensures Fields() == old(Fields()).(items := old(items) + goods, weight := old(weight) + SumWeights(goods),
                                         coins := old(coins) - price, stock := left)
    {
      SumWeightsAppend(items, goods);
      items := items + goods;
      weight := weight + SumWeights(goods);
      coins := coins - price;
      shopItems := left;
    }

    /** Picks up every item of that name the scan of the current room reaches: they
        leave the room, join the back of the inventory and add their weight. */
    method Take(name: string) returns (found: bool)
      requires Valid()
      modifies this`items, this`weight, Here()`items
      ensures Valid()
      ensures found <==> Extract(old(world[currentLocation].items), name).taken != []
      ensures TakeDone(name)
    {
      var room := Here();
      var kept, taken := ScanOut(room.items, name);
      SumWeightsAppend(items, taken);
      items := items + taken;
      weight := weight + SumWeights(taken);
      room.items := kept;
      found := taken != [];
    }

    /** Walks through the exit of that label: the room left is marked visited first,
        a backpack heavier than 30 refuses to travel, and a label the room has no
        exit for leaves the player where they are. */
    method Go(direction: string) returns (o: GoOutcome)
      requires Valid()
      modifies Here()`visited, this`currentLocation
      ensures Valid()
      ensures old(Here()).visited
      ensures o == Overweight <==> weight > MaxTravelWeight
      ensures o == Moved <==> weight <= MaxTravelWeight && direction in old(Here().neighbors)
      ensures o == Moved ==> currentLocation == old(Here().neighbors[direction])
      ensures o != Moved ==> currentLocation == old(currentLocation)
      ensures GoDone(direction, o)
    {
      var room := Here();
      room.visited := true;
      if weight > MaxTravelWeight {
        return Overweight;
      }
      var exits := room.neighbors;
      var keys := exits.Keys;
      var found := false;
      var target := 0;
      while keys != {}
        invariant keys <= exits.Keys
        invariant found <==> direction in exits && direction !in keys
        invariant found ==> target == exits[direction]
        decreases |keys|
      {
        var key :| key in keys;
        if key == direction {
          target := exits[key];
          found := true;
        }
        keys := keys - {key};
      }
      if !found {
        return NoExit;
      }
      currentLocation := target;
      o := Moved;
    }

    /** Buys from every NPC of that name in the room, front item of the stock first,
        25 coins each. The first NPC of that name that does not sell, or finds the
        stock empty, or the player short of coins, ends the purchase. */
    method Buy(name: string) returns (o: BuyOutcome, bought: seq<Item>)
      requires Valid()
      modifies this`coins, this`items, this`weight, this`shopItems
      ensures Valid()
      ensures BuyDone(name, o, bought)
    {
      var npcs := Here().npcs;
      var left;
      o, bought, left := Sell(npcs, name, shopItems, coins);
      Settle(bought, 25 * |bought|, left);
    }

    /** Talks to every NPC in the room that carries the name: each says its next
        line, in room order, and its cursor moves on; no other NPC changes. */
    method Talk(name: string) returns (lines: seq<string>)
      requires Valid()
      modifies Here().npcs`messageNum
      ensures Valid()
      ensures lines == old(Replies(world[currentLocation].npcs, name))
      ensures var npcs := world[currentLocation].npcs;
              forall k :: 0 <= k < |npcs| ==>
                npcs[k].messageNum == if npcs[k].name == name
                                      then NextCursor(old(npcs[k].messageNum), |npcs[k].messages|)
                                      else old(npcs[k].messageNum)
      ensures TalkDone(name)
    {
      lines := TalkIn(world, currentLocation, name);
    }

    /** Steals from the NPCs in the room that carry the name, front to back, one draw
        per NPC tried: see `Heist`. The coins of every successful theft are kept;
        getting caught marks the room visited and moves the player to Campus
        Security; robbing the Elf ends the game. */
    method Steal(name: string, random: nat -> nat) returns (o: StealOutcome)
      requires Valid()
      modifies this`coins, this`inProgress, this`currentLocation, Here()`visited, Here().npcs`robbed
      ensures Valid()
      ensures StealDone(name, random, o)
    {
      var h := StealIn(world, currentLocation, Here(), name, random);
      Reckon(h);
      o := h.o;
    }

    /** The player's half of a theft: the gain is added to the purse, striking the
        Elf ends the game and getting caught moves the player to Campus Security. */
    method Reckon(h: Haul)
      requires Valid() && h.gain >= 0
      modifies this`coins, this`inProgress, this`currentLocation
      ensures Valid()
      ensures Fields() == old(Fields()).(coins := old(coins) + h.gain, playing := old(inProgress) && h.o != StruckDown,
                                         loc := if h.o == SentToSecurity then CampusSecurity else old(currentLocation))
    {
      coins := coins + h.gain;
      if h.o == StruckDown {
        inProgress := false;
      } else if h.o == SentToSecurity {
        currentLocation := CampusSecurity;
      }
    }

    /** The inventory half of giving: every item of that name the scan of the
        inventory reaches leaves it, and their weight is taken off. */
    method Surrender(name: string) returns (taken: seq<Item>)
      requires Valid()
      modifies this`items, this`weight
      ensures Valid()
      ensures var r := Extract(old(items), name);
              taken == r.taken && items == r.kept && weight == old(weight) - SumWeights(r.taken)
    ensures Fields() == old(Fields()).(items := items, weight := weight)
    {
      var kept;
      kept, taken := ScanOut(items, name);
      ExtractWeighs(items, name);
      items := kept;
      weight := weight - SumWeights(taken);
    }

    /** The world half of giving: each item is handed over in turn as `Deliveries`
        describes. */
    method HandOver(taken: seq<Item>, random: nat -> nat)
      requires Valid() && forall k :: random(k) < WorldSize
      modifies this`currentLocation, this`winningCalories, this`inProgress
      modifies world`items, world`visited
      ensures Valid()
      ensures var g := Deliveries(world, taken, Feeding([], {}, old(currentLocation), old(winningCalories), old(inProgress), 0), random);
              currentLocation == g.loc && winningCalories == g.calories && inProgress == g.playing
              && forall k :: 0 <= k < |world| ==>
                   world[k].items == old(world[k].items) + DropsAt(g.drops, k)
                   && world[k].visited == (old(world[k].visited) || k in g.marks)
    ensures Fields() == old(Fields()).(loc := currentLocation, calories := winningCalories, playing := inProgress)
    {
      var at, hunger, going := DeliverIn(world, taken, currentLocation, winningCalories, inProgress, random);
      assert WellFormed(world);
      currentLocation, winningCalories, inProgress := at, hunger, going;
    }

    /** Gives away every item of that name the scan of the inventory reaches (see
        `Extract`): they leave the inventory and their weight is taken off, and each
        is handed over in turn as `Deliveries` describes. */
    method Give(name: string, random: nat -> nat) returns (gave: bool)
      requires Valid() && forall k :: random(k) < WorldSize
      modifies this`items, this`weight, this`currentLocation, this`winningCalories, this`inProgress
      modifies world`items, world`visited
      ensures Valid()
      ensures gave <==> Extract(old(items), name).taken != []
      ensures GiveDone(name, random)
    {
      var taken := Surrender(name);
      gave := taken != [];
      HandOver(taken, random);
    }

    /** The reply of a command that only reports: an unknown verb, help, inventory
        (the items, coins and weight carried) or look. */
    function Report(h: Option<Handler>): (reply: Reply)
      requires ReadOnly(h)
      reads this
      ensures HandlerOf(reply) == h
      ensures reply.Inventory? ==> reply == Inventory(items, coins, weight)
    {
      match h
      case None => InvalidCommand
      case Some(Help) => Helped
      case Some(ShowItems) => Inventory(items, coins, weight)
      case Some(Look) => Looked
    }

    /** The handlers that work on the room: talk, meet, take and go. */
    method ActInRoom(h: Handler, target: string) returns (reply: Reply)
      requires Valid() && (h == Handler.Talk || h == Handler.Meet || h == Handler.Take || h == Handler.Go)
      modifies this`items, this`weight, this`currentLocation, world`items, world`visited
      modifies Here().npcs`messageNum
      ensures Valid()
      ensures HandlerOf(reply) == Some(h)
      ensures reply.Talked? ==> reply.lines == old(Replies(Here().npcs, target))
      ensures reply.Met? ==> reply.descriptions == Descriptions(Here().npcs, target)
      ensures reply.Took? ==> (reply.took <==> Extract(old(Here().items), target).taken != [])
      ensures reply.Went? ==> (reply.go == Moved <==> weight <= MaxTravelWeight && target in old(Here().neighbors))
      ensures h != Handler.Go ==> currentLocation == old(currentLocation)
      ensures inProgress == old(inProgress)
      ensures reply.Talked? ==> TalkDone(target)
      ensures reply.Met? ==> Unchanged()
      ensures reply.Took? ==> TakeDone(target)
      ensures reply.Went? ==> GoDone(target, reply.go)
    {
      match h
      case Talk =>
        var lines := Talk(target);
        reply := Talked(lines);
      case Meet =>
        var descriptions := Meet(target);
        reply := Met(descriptions);
      case Take =>
        var found := Take(target);
        reply := Took(found);
      case Go =>
        var o := Go(target);
        reply := Went(o);
    }

    /** The handlers that deal with the player's goods and the game's end: give,
        buy, steal and quit. */
    method ActOnGoods(h: Handler, target: string, random: nat -> nat) returns (reply: Reply)
      requires Valid() && (h == Handler.Give || h == Handler.Buy || h == Handler.Steal || h == Handler.Quit)
      requires forall k :: random(k) < WorldSize
      modifies this`items, this`weight, this`currentLocation, this`winningCalories, this`inProgress
      modifies this`coins, this`shopItems, world`items, world`visited
      modifies Here().npcs`robbed
      ensures Valid()
      ensures HandlerOf(reply) == Some(h)
      ensures reply.Gave? ==> (reply.gave <==> Extract(old(items), target).taken != [])
      ensures reply.Gave? ==> (reply.won <==> !inProgress)
      ensures reply.Quitted? ==> !inProgress
      ensures old(inProgress) ==> (Stops(reply) <==> !inProgress)
      ensures reply.Purchased? ==>
                reply.buy == BuyVerdict(target, CountNamed(Here().npcs, target), |old(shopItems)|, old(coins))
      ensures reply.Robbed? ==>
                reply.steal == Heist(old(Here().npcs), old(RobbedFlags(Here().npcs)), target, random, 0, 0).o
      ensures Effect(target, random, reply)
    {
      match h
      case Give =>
        var gave := Give(target, random);
        reply := Gave(gave, !inProgress);
      case Buy =>
        var o, bought := Buy(target);
        reply := Purchased(o, bought);
      case Steal =>
        var o := Steal(target, random);
        reply := Robbed(o);
      case Quit =>
        Quit();
        reply := Quitted;
    }

    /** Runs one command line: the first word picks the handler through the verb
        table, the rest of the line is its target, and a verb the table lacks is
        an invalid command that changes nothing. */
    method Execute(line: string, random: nat -> nat) returns (reply: Reply)
      requires Valid() && forall k :: random(k) < WorldSize
      modifies this`items, this`weight, this`currentLocation, this`winningCalories, this`inProgress
      modifies this`coins, this`shopItems, world`items, world`visited
      modifies Here().npcs`messageNum, Here().npcs`robbed
      ensures Valid()
      ensures HandlerOf(reply) == Lookup(Parse(line).verb)
      ensures ReadOnly(HandlerOf(reply)) ==> Unchanged()
      ensures old(inProgress) ==> (Stops(reply) <==> !inProgress)
      ensures reply.Inventory? ==> reply == Inventory(items, coins, weight)
      ensures reply.Talked? ==> reply.lines == old(Replies(Here().npcs, Parse(line).target))
      ensures reply.Met? ==> reply.descriptions == Descriptions(Here().npcs, Parse(line).target)
      ensures reply.Took? ==> (reply.took <==> Extract(old(Here().items), Parse(line).target).taken != [])
      ensures reply.Gave? ==> (reply.gave <==> Extract(old(items), Parse(line).target).taken != [])
      ensures reply.Gave? ==> (reply.won <==> !inProgress)
      ensures reply.Went? ==> (reply.go == Moved <==> weight <= MaxTravelWeight
                                                      && Parse(line).target in old(Here().neighbors))
      ensures reply.Quitted? ==> !inProgress
      ensures reply.Purchased? ==>
                reply.buy == BuyVerdict(Parse(line).target, CountNamed(Here().npcs, Parse(line).target),
                                        |old(shopItems)|, old(coins))
      ensures reply.Robbed? ==>
                reply.steal == Heist(old(Here().npcs), old(RobbedFlags(Here().npcs)), Parse(line).target, random, 0, 0).o
      ensures Effect(Parse(line).target, random, reply)
    {
      var command := Parse(line);
      var handler := Lookup(command.verb);
      if ReadOnly(handler) {
        reply := Report(handler);
      } else if handler.value in {Handler.Talk, Handler.Meet, Handler.Take, Handler.Go} {
        reply := ActInRoom(handler.value, command.target);
      } else {
        reply := ActOnGoods(handler.value, command.target, random);
      }
    }

    /** The game loop: command lines are run in order while the game is in
        progress; it stops at the first line after the game has ended, or when the
        lines run out. The i-th line's draws are `random(i)`. */
    method Play(lines: seq<string>, random: nat -> nat -> nat) returns (replies: seq<Reply>)
      requires Valid() && forall i, k :: random(i)(k) < WorldSize
      modifies this`items, this`weight, this`currentLocation, this`winningCalories, this`inProgress
      modifies this`coins, this`shopItems, world`items, world`visited
      modifies AllNpcs(world)`messageNum, AllNpcs(world)`robbed
      ensures Valid()
      ensures |replies| <= |lines|
      ensures !old(inProgress) ==> replies == []
      ensures |replies| < |lines| ==> !inProgress
      ensures forall k :: 0 <= k < |replies| ==> HandlerOf(replies[k]) == Selections(lines)[k]
      ensures forall k :: 0 <= k < |replies| - 1 ==> !Stops(replies[k])
      ensures old(inProgress) && !inProgress ==> |replies| > 0 && Stops(replies[|replies| - 1])
    {
      replies := [];
      var i := 0;
      while inProgress && i < |lines|
        invariant Valid() && i <= |lines| && |replies| == i
        invariant !old(inProgress) ==> i == 0
        invariant forall k :: 0 <= k < i ==> HandlerOf(replies[k]) == Selections(lines)[k]
        invariant forall k :: 0 <= k < i - 1 ==> !Stops(replies[k])
        invariant old(inProgress) && i == 0 ==> inProgress
        invariant i > 0 ==> (Stops(replies[i - 1]) <==> !inProgress)
      {
        NpcsHere(world, currentLocation);
        var reply := Step(lines, i, random(i));
        Answered(Selections(lines), replies, reply);
        replies := replies + [reply];
        i := i + 1;
      }
    }

    /** Line i of a session, answered through the handler that line selects. */
    method Step(lines: seq<string>, i: nat, random: nat -> nat) returns (reply: Reply)
      requires Valid() && inProgress && i < |lines| && forall k :: random(k) < WorldSize
      modifies this`items, this`weight, this`currentLocation, this`winningCalories, this`inProgress
      modifies this`coins, this`shopItems, world`items, world`visited
      modifies Here().npcs`messageNum, Here().npcs`robbed
      ensures Valid()
      ensures HandlerOf(reply) == Selections(lines)[i]
      ensures Stops(reply) <==> !inProgress
      ensures Effect(Parse(lines[i]).target, random, reply)
    {
      reply := Execute(lines[i], random);
      SelectionsAt(lines, i);
    }
  }
}
