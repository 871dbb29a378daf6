/** Items that lie in rooms, sit in the player's inventory or wait in the shop. */
module Items {
  import opened Wrappers

  /** An item value. Names identify items for gameplay; weights are whole pounds. */
  datatype Item = Item(name: string, description: string, calories: int, weight: int)

  /** Why the parameterized constructor refused its arguments, in the order it checks. */
  datatype ItemError =
    | EmptyName
    | EmptyDescription
    | CaloriesOutOfRange
    | CaloriesNotInteger
    | WeightOutOfRange
    | WeightNotFloat

  const MaxCalories: int := 1000
  const MaxWeight: int := 500

  /** The arguments the parameterized constructor accepts. */
  predicate Acceptable(name: string, description: string, calories: int, weight: int) {
    && name != ""
    && description != ""
    && 0 <= calories <= MaxCalories
    && 0 <= weight <= MaxWeight
  }

  /** Every item the game holds satisfies this. */
  predicate ValidItem(it: Item) {
    Acceptable(it.name, it.description, it.calories, it.weight)
  }

  /** The parameterized constructor: a chain of guard checks, then the fields are
      stored as given. The cast checks compare a value with its own cast. */
  function NewItem(name: string, description: string, calories: int, weight: int): (r: Result<Item, ItemError>)
    ensures r.Success? <==> Acceptable(name, description, calories, weight)
    ensures r.Success? ==> r.value == Item(name, description, calories, weight) && ValidItem(r.value)
    ensures r == Failure(EmptyName) <==> name == ""
    ensures r == Failure(EmptyDescription) <==> name != "" && description == ""
    ensures r == Failure(CaloriesOutOfRange) <==>
              name != "" && description != "" && !(0 <= calories <= MaxCalories)
    ensures r == Failure(WeightOutOfRange) <==>
              name != "" && description != "" && 0 <= calories <= MaxCalories && !(0 <= weight <= MaxWeight)
    ensures r != Failure(CaloriesNotInteger) && r != Failure(WeightNotFloat)
  {
    if name == "" then Failure(EmptyName)
    else if description == "" then Failure(EmptyDescription)
    else if calories < 0 || calories > MaxCalories then Failure(CaloriesOutOfRange)
    else if calories != calories as int then Failure(CaloriesNotInteger)
    else if weight < 0 || weight > MaxWeight then Failure(WeightOutOfRange)
    else if weight != weight as int then Failure(WeightNotFloat)
    else Success(Item(name, description, calories, weight))
  }

  /** The default constructor, which skips validation. */
  function DefaultItem(): (r: Item)
    ensures ValidItem(r)
    ensures NewItem(r.name, r.description, r.calories, r.weight) == Success(r)
  {
    Item("N/A", "N/A", 0, 0)
  }

  /** The inclusive ends of both ranges are accepted and one past either end is not. */
  lemma RangeEndsInclusive(name: string, description: string)
    requires name != "" && description != ""
    ensures NewItem(name, description, 0, 0).Success?
    ensures NewItem(name, description, MaxCalories, MaxWeight).Success?
    ensures NewItem(name, description, -1, 0) == Failure(CaloriesOutOfRange)
    ensures NewItem(name, description, MaxCalories + 1, 0) == Failure(CaloriesOutOfRange)
    ensures NewItem(name, description, 0, -1) == Failure(WeightOutOfRange)
    ensures NewItem(name, description, 0, MaxWeight + 1) == Failure(WeightOutOfRange)
  {
  }

  /** Total weight of a collection of items. */
  function SumWeights(items: seq<Item>): int
  {
    if items == [] then 0 else items[0].weight + SumWeights(items[1..])
  }

  /** Valid items have non-negative weights, so a valid inventory weighs at least nothing. */
  lemma {:induction false} SumWeightsNonNegative(items: seq<Item>)
    requires forall k :: 0 <= k < |items| ==> ValidItem(items[k])
    ensures SumWeights(items) >= 0
  {
    if items != [] {
      SumWeightsNonNegative(items[1..]);
    }
  }

  lemma {:induction false} SumWeightsAppend(a: seq<Item>, b: seq<Item>)
    ensures SumWeights(a + b) == SumWeights(a) + SumWeights(b)
  {
    if a == [] {
      assert a + b == b;
    } else {
      assert (a + b)[1..] == a[1..] + b;
      SumWeightsAppend(a[1..], b);
    }
  }

  /** Removing the element at index i removes exactly its weight. */
  lemma SumWeightsRemove(items: seq<Item>, i: nat)
    requires i < |items|
    ensures SumWeights(items) == SumWeights(items[..i] + items[i+1..]) + items[i].weight
  {
    assert items == items[..i] + ([items[i]] + items[i+1..]);
    SumWeightsAppend(items[..i], [items[i]] + items[i+1..]);
    SumWeightsAppend(items[..i], items[i+1..]);
    assert ([items[i]] + items[i+1..])[1..] == items[i+1..];
  }
}
