/**
  The state of the menu client (`App`): the selected restaurant, the
  restaurant list, the calorie bounds as typed, whether a menu fetch has
  completed, the restaurant's categories, the set of selected categories and
  the fetched items. Each event handler is a method that changes exactly the
  fields its `set...` calls name. A JavaScript `Set` of strings is a
  duplicate-free sequence in insertion order, which is also the order
  `Array.from` lists it in.
*/
module App {
  import opened Menu
  import opened Params

  /** A number input's state, `number | ""`. */
  datatype NumInput = Blank | Number(n: int)

  /** `Number(text)` on the text of a non-empty number input. */
  type NumberParser = string -> int

  /** The outcome of an HTTP request: the response's data, or a thrown error. */
  datatype Response<T> = Ok(data: T) | Failed

  /** The coercion on a number input's change: `""` stays `""`, any other text becomes its numeric value. */
  function FromInputText(text: string, toNumber: NumberParser): (r: NumInput)
    ensures r == Blank <==> text == ""
    ensures text != "" ==> r == Number(toNumber(text))
  {
    if text == "" then Blank else Number(toNumber(text))
  }

  /** The parameter value a number input sends. */
  function InputParam(input: NumInput): (r: Scalar)
    ensures Omitted(r) <==> input.Blank?
  {
    match input
    case Blank => Str("")
    case Number(n) => Num(n)
  }

  predicate NoDuplicates(s: seq<string>) {
    forall i, j :: 0 <= i < j < |s| ==> s[i] != s[j]
  }

  /** `set.delete(x)`: `x` leaves and every other member stays. */
  function Remove(s: seq<string>, x: string): (r: seq<string>)
    ensures x !in r
    ensures forall y :: y != x ==> (y in r <==> y in s)
    ensures NoDuplicates(s) ==> NoDuplicates(r)
    ensures x !in s ==> r == s
  {
    if s == [] then []
    else if s[0] == x then Remove(s[1..], x)
    else
      var rest := Remove(s[1..], x);
      assert NoDuplicates(s) ==> s[0] !in s[1..];
      [s[0]] + rest
  }

  /** The position of the first occurrence of `x` in `s`. */
  function FirstIndex(s: seq<string>, x: string): (i: nat)
    requires x in s
    ensures i < |s| && s[i] == x && x !in s[..i]
  {
    if s[0] == x then 0
    else
      var j := FirstIndex(s[1..], x);
      assert s[..j + 1] == [s[0]] + s[1..][..j];
      j + 1
  }

  /** Appending to a sequence moves no first occurrence of its own members. */
  lemma {:induction false} FirstIndexAppend(s: seq<string>, t: seq<string>, x: string)
    requires x in s
    ensures FirstIndex(s + t, x) == FirstIndex(s, x)
  {
    if s[0] != x {
      assert (s + t)[1..] == s[1..] + t;
      FirstIndexAppend(s[1..], t, x);
    }
  }

  /** `new Set(data)`: the members of `data`, each once, in order of first occurrence. */
  function Dedupe(data: seq<string>): (r: seq<string>)
    ensures NoDuplicates(r)
    ensures forall x :: x in r <==> x in data
    ensures NoDuplicates(data) ==> r == data
  {
    if data == [] then []
    else
      var front, last := data[..|data| - 1], data[|data| - 1];
      var d := Dedupe(front);
      assert forall x :: x in data <==> x in front || x == last;
      if last in d then d else d + [last]
  }

  /** The members of `new Set(data)` come in the order of their first occurrences in `data`. */
  lemma {:induction false} DedupeOrder(data: seq<string>)
    ensures forall i, j :: 0 <= i < j < |Dedupe(data)| ==> FirstIndex(data, Dedupe(data)[i]) < FirstIndex(data, Dedupe(data)[j])
  {
    if data != [] {
      var front, last := data[..|data| - 1], data[|data| - 1];
      assert data == front + [last];
      DedupeOrder(front);
      forall x | x in front
        ensures FirstIndex(data, x) == FirstIndex(front, x)
      {
        FirstIndexAppend(front, [last], x);
      }
      if last !in Dedupe(front) {
        assert FirstIndex(data, last) == |front|;
      }
    }
  }

  /** The set the toggle updater returns for `prev`. */
  function Toggled(prev: seq<string>, cat: string): seq<string> {
    if cat in prev then Remove(prev, cat) else prev + [cat]
  }

  /** The toggle flips the membership of `cat` and of nothing else, and keeps the set free of duplicates. */
  lemma ToggleFlips(prev: seq<string>, cat: string)
    requires NoDuplicates(prev)
    ensures cat in Toggled(prev, cat) <==> cat !in prev
    ensures forall c :: c != cat ==> (c in Toggled(prev, cat) <==> c in prev)
    ensures NoDuplicates(Toggled(prev, cat))
  {
  }

  /**
    Toggling twice restores the set: the same members, and, when `cat` was
    not selected, the very same insertion order. (When it was, `cat` comes
    back at the end.)
  */
  lemma ToggleTwice(prev: seq<string>, cat: string)
    requires NoDuplicates(prev)
    ensures forall c :: c in Toggled(Toggled(prev, cat), cat) <==> c in prev
    ensures cat !in prev ==> Toggled(Toggled(prev, cat), cat) == prev
  {
    ToggleFlips(prev, cat);
    ToggleFlips(Toggled(prev, cat), cat);
    if cat !in prev {
      RemoveLast(prev, cat);
    }
  }

  lemma {:induction false} RemoveLast(s: seq<string>, x: string)
    requires x !in s
    ensures Remove(s + [x], x) == s
  {
    if s != [] {
      assert (s + [x])[1..] == s[1..] + [x];
      RemoveLast(s[1..], x);
      assert s == [s[0]] + s[1..];
    }
  }

  /** The parameter object `fetchItems` sends; the categories in the set's order. */
  function MenuParams(restaurant: string, maxCalories: NumInput, minCalories: NumInput, selected: seq<string>): (r: ParamList)
    ensures DistinctKeys(r)
  {
    [ ("restaurant", Single(Str(restaurant))),
      ("calorieMax", Single(InputParam(maxCalories))),
      ("calorieMin", Single(InputParam(minCalories))),
      ("categories", Many(seq(|selected|, i requires 0 <= i < |selected| => Str(selected[i])))) ]
  }

  /**
    What the menu query carries: the restaurant unless none is chosen, each
    calorie bound unless its input is blank, and one `categories` value per
    selected category, in the set's order.
  */
  lemma MenuQuery(restaurant: string, maxCalories: NumInput, minCalories: NumInput, selected: seq<string>)
    ensures var q := Serialized(MenuParams(restaurant, maxCalories, minCalories, selected));
      && ValuesOf(q, "restaurant") == (if restaurant == "" then [] else [restaurant])
      && ValuesOf(q, "calorieMax") == (if maxCalories.Blank? then [] else [ToText(Num(maxCalories.n))])
      && ValuesOf(q, "calorieMin") == (if minCalories.Blank? then [] else [ToText(Num(minCalories.n))])
      && ValuesOf(q, "categories") == selected
  {
    MenuQueryRestaurant(restaurant, maxCalories, minCalories, selected);
    MenuQueryMax(restaurant, maxCalories, minCalories, selected);
    MenuQueryMin(restaurant, maxCalories, minCalories, selected);
    MenuQueryCategories(restaurant, maxCalories, minCalories, selected);
  }

  /** The restaurant is sent unless none is chosen. */
  lemma MenuQueryRestaurant(restaurant: string, maxCalories: NumInput, minCalories: NumInput, selected: seq<string>)
    ensures ValuesOf(Serialized(MenuParams(restaurant, maxCalories, minCalories, selected)), "restaurant")
         == if restaurant == "" then [] else [restaurant]
  {
    var params := MenuParams(restaurant, maxCalories, minCalories, selected);
    ValuesOfKey(params, 0);
    assert params[0] == ("restaurant", Single(Str(restaurant)));
  }

  /** The maximum is sent unless its input is blank. */
  lemma MenuQueryMax(restaurant: string, maxCalories: NumInput, minCalories: NumInput, selected: seq<string>)
    ensures ValuesOf(Serialized(MenuParams(restaurant, maxCalories, minCalories, selected)), "calorieMax")
         == if maxCalories.Blank? then [] else [ToText(Num(maxCalories.n))]
  {
    var params := MenuParams(restaurant, maxCalories, minCalories, selected);
    ValuesOfKey(params, 1);
    assert params[1] == ("calorieMax", Single(InputParam(maxCalories)));
  }

  /** The minimum is sent unless its input is blank. */
  lemma MenuQueryMin(restaurant: string, maxCalories: NumInput, minCalories: NumInput, selected: seq<string>)
    ensures ValuesOf(Serialized(MenuParams(restaurant, maxCalories, minCalories, selected)), "calorieMin")
         == if minCalories.Blank? then [] else [ToText(Num(minCalories.n))]
  {
    var params := MenuParams(restaurant, maxCalories, minCalories, selected);
    ValuesOfKey(params, 2);
    assert params[2] == ("calorieMin", Single(InputParam(minCalories)));
  }

  /** One `categories` value per selected category, in the set's order. */
  lemma MenuQueryCategories(restaurant: string, maxCalories: NumInput, minCalories: NumInput, selected: seq<string>)
    ensures ValuesOf(Serialized(MenuParams(restaurant, maxCalories, minCalories, selected)), "categories") == selected
  {
    var params := MenuParams(restaurant, maxCalories, minCalories, selected);
    ValuesOfKey(params, 3);
    assert Texts(params[3].1) == selected;
  }

  /** The client's state. */
  class AppState {
    var restaurant: string
    var restaurants: seq<string>
    var minCalories: NumInput
    var maxCalories: NumInput
    var hasFetched: bool
    var categories: seq<string>
    var selectedCategories: seq<string>
    var items: seq<MenuEntry>

    /** `selectedCategories` is a set. */
    ghost predicate Valid()
      reads this
    {
      NoDuplicates(selectedCategories)
    }

    /** The initial `useState` values. */
    constructor()
      ensures restaurant == "" && restaurants == [] && minCalories == Blank && maxCalories == Blank
      ensures !hasFetched && categories == [] && selectedCategories == [] && items == []
      ensures Valid()
    {
      restaurant := "";
      restaurants := [];
      minCalories := Blank;
      maxCalories := Blank;
      hasFetched := false;
      categories := [];
      selectedCategories := [];
      items := [];
    }

    /** The query pairs `fetchItems` sends for the current state. */
    function MenuQueryPairs(): Pairs
      reads this
    {
      Serialized(MenuParams(restaurant, maxCalories, minCalories, selectedCategories))
    }

    /** "no items found" is shown once a fetch has completed and left no items. */
    predicate ShowsNoItemsFound()
      reads this
    {
      hasFetched && |items| == 0
    }

    /**
      `fetchItems`: the server answers the query built from the current
      state; its data become the items, a failure leaves none, and either
      way a fetch has now completed.
    */
    method FetchItems(server: Pairs -> Response<seq<MenuEntry>>)
      modifies this
      ensures hasFetched
      ensures items == match server(old(MenuQueryPairs())) case Ok(data) => data case Failed => []
      ensures ShowsNoItemsFound() <==> match server(old(MenuQueryPairs())) case Ok(data) => data == [] case Failed => true
      ensures restaurant == old(restaurant) && restaurants == old(restaurants)
      ensures minCalories == old(minCalories) && maxCalories == old(maxCalories)
      ensures categories == old(categories) && selectedCategories == old(selectedCategories)
    {
      var params := MenuParams(restaurant, maxCalories, minCalories, selectedCategories);
      var query := ParamsSerializer(params);
      var res := server(query);
      match res
      case Ok(data) =>
        items := data;
        hasFetched := true;
      case Failed =>
        items := [];
        hasFetched := true;
    }

    /** `fetchRestaurants`: the list from the server, or none on failure. */
    method FetchRestaurants(response: Response<seq<string>>)
      modifies this
      ensures restaurants == match response case Ok(data) => data case Failed => []
      ensures restaurant == old(restaurant) && minCalories == old(minCalories) && maxCalories == old(maxCalories)
      ensures hasFetched == old(hasFetched) && items == old(items)
      ensures categories == old(categories) && selectedCategories == old(selectedCategories)
    {
      match response
      case Ok(data) =>
        restaurants := data;
      case Failed =>
        restaurants := [];
    }

    /**
      `fetchCategories`: nothing happens while no restaurant is chosen;
      otherwise the server's categories are loaded and all of them selected,
      and a failure clears both.
    */
    method FetchCategories(server: string -> Response<seq<string>>)
      requires Valid()
      modifies this
      ensures Valid()
      ensures old(restaurant) == "" ==> categories == old(categories) && selectedCategories == old(selectedCategories)
      ensures old(restaurant) != "" ==>
        match server(old(restaurant))
        case Ok(data) => categories == data && selectedCategories == Dedupe(data)
        case Failed => categories == [] && selectedCategories == []
      ensures restaurant == old(restaurant) && restaurants == old(restaurants)
      ensures minCalories == old(minCalories) && maxCalories == old(maxCalories)
      ensures hasFetched == old(hasFetched) && items == old(items)
    {
      if restaurant == "" {
        return;
      }
      var res := server(restaurant);
      match res
      case Ok(data) =>
        categories := data;
        selectedCategories := Dedupe(data);
      case Failed =>
        categories := [];
        selectedCategories := [];
    }

    /** The checkbox of `cat` changed: a copy of the set with `cat` deleted if present, added if not. */
    method ToggleCategory(cat: string)
      requires Valid()
      modifies this
      ensures Valid()
      ensures selectedCategories == Toggled(old(selectedCategories), cat)
      ensures cat in selectedCategories <==> cat !in old(selectedCategories)
      ensures forall c :: c != cat ==> (c in selectedCategories <==> c in old(selectedCategories))
      ensures restaurant == old(restaurant) && restaurants == old(restaurants)
      ensures minCalories == old(minCalories) && maxCalories == old(maxCalories)
      ensures hasFetched == old(hasFetched) && items == old(items) && categories == old(categories)
    {
      var newSet := selectedCategories;
      if cat in newSet {
        newSet := Remove(newSet, cat);
      } else {
        newSet := newSet + [cat];
      }
      ToggleFlips(selectedCategories, cat);
      selectedCategories := newSet;
    }

    /** The restaurant `<select>` changed. */
    method SelectRestaurant(value: string)
      modifies this
      ensures restaurant == value && restaurants == old(restaurants)
      ensures minCalories == old(minCalories) && maxCalories == old(maxCalories)
      ensures hasFetched == old(hasFetched) && items == old(items)
      ensures categories == old(categories) && selectedCategories == old(selectedCategories)
    {
      restaurant := value;
    }

    /** The minimum input changed to `text`. */
    method SetMinCalories(text: string, toNumber: NumberParser)
      modifies this
      ensures minCalories == FromInputText(text, toNumber)
      ensures restaurant == old(restaurant) && restaurants == old(restaurants) && maxCalories == old(maxCalories)
      ensures hasFetched == old(hasFetched) && items == old(items)
      ensures categories == old(categories) && selectedCategories == old(selectedCategories)
    {
      minCalories := FromInputText(text, toNumber);
    }

    /** The maximum input changed to `text`. */
    method SetMaxCalories(text: string, toNumber: NumberParser)
      modifies this
      ensures maxCalories == FromInputText(text, toNumber)
      ensures restaurant == old(restaurant) && restaurants == old(restaurants) && minCalories == old(minCalories)
      ensures hasFetched == old(hasFetched) && items == old(items)
      ensures categories == old(categories) && selectedCategories == old(selectedCategories)
    {
      maxCalories := FromInputText(text, toNumber);
    }
  }
}
