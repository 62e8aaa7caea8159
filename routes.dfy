/**
  The two read-only HTTP handlers of the backend, over the menu table held
  as a sequence of rows. `get_menu` filters the table by restaurant and by a
  closed calorie range and orders the result by calories, highest first;
  `get_restaurants` lists the distinct restaurant names in sorted order.
*/
module Routes {
  import opened Wrappers
  import opened Text
  import opened Menu

  /** The query string of a request, as `request.args.get` sees it: one value per name. */
  type Args = map<string, string>

  /** `int(...)` on a query-string value: a number, or `None` where Python raises `ValueError`. */
  type IntParser = string -> Option<int>

  /** The `ValueError` that escapes `get_menu` when a calorie bound does not parse; Flask answers it with an error page. */
  datatype ArgError = ValueError(arg: string)

  /** The body of a `get_menu` reply: the string "no items", or the list of items. */
  datatype Reply = NoItems | Items(entries: seq<MenuEntry>)

  /** `int(request.args.get(name, 0))`: a missing argument is 0, a present one is parsed. */
  function IntArg(args: Args, name: string, toInt: IntParser): (r: Result<int, ArgError>)
    ensures name !in args ==> r == Success(0)
    ensures name in args ==> (r.Success? <==> toInt(args[name]).Some?)
    ensures name in args && r.Success? ==> r.value == toInt(args[name]).value
    ensures r.Failure? ==> r.error == ValueError(name)
  {
    if name !in args then Success(0)
    else match toInt(args[name])
      case Some(n) => Success(n)
      case None => Failure(ValueError(name))
  }

  /** `request.args.get('restaurant', '').lower()`. */
  function RestaurantArg(args: Args): (r: string)
    ensures |r| == if "restaurant" in args then |args["restaurant"]| else 0
    ensures forall i :: 0 <= i < |r| ==> !('A' <= r[i] <= 'Z')
  {
    Lower(if "restaurant" in args then args["restaurant"] else "")
  }

  /** The three conditions of the query's `filter`. */
  predicate Matches(item: MenuItem, restaurant: string, calMin: int, calMax: int) {
    item.restaurant == restaurant && item.calories <= calMax && item.calories >= calMin
  }

  /** The rows of the table that satisfy the filter, in table order. */
  function Select(table: seq<MenuItem>, restaurant: string, calMin: int, calMax: int): seq<MenuItem> {
    if table == [] then []
    else
      var head := if Matches(table[0], restaurant, calMin, calMax) then [table[0]] else [];
      head + Select(table[1..], restaurant, calMin, calMax)
  }

  /** `s` holds exactly the matching rows of `table`, each as often as `table` does. */
  ghost predicate HoldsMatchesOf(s: seq<MenuItem>, table: seq<MenuItem>, restaurant: string, calMin: int, calMax: int) {
    forall x :: multiset(s)[x] == if Matches(x, restaurant, calMin, calMax) then multiset(table)[x] else 0
  }

  /** The filter keeps every matching row as often as the table holds it, and nothing else. */
  lemma {:induction false} SelectCount(table: seq<MenuItem>, restaurant: string, calMin: int, calMax: int)
    ensures HoldsMatchesOf(Select(table, restaurant, calMin, calMax), table, restaurant, calMin, calMax)
  {
    if table != [] {
      SelectCount(table[1..], restaurant, calMin, calMax);
      assert table == [table[0]] + table[1..];
    }
  }

  /** Ordered by calories, highest first. */
  predicate ByCaloriesDesc(s: seq<MenuItem>) {
    forall i, j :: 0 <= i < j < |s| ==> s[i].calories >= s[j].calories
  }

  /** `x` placed before the first item with fewer calories than `x`, in a list ordered highest first. */
  function InsertByCalories(x: MenuItem, s: seq<MenuItem>): (r: seq<MenuItem>)
    ensures multiset(r) == multiset(s) + multiset{x}
  {
    if s == [] || s[0].calories <= x.calories then [x] + s
    else
      assert s == [s[0]] + s[1..];
      [s[0]] + InsertByCalories(x, s[1..])
  }

  lemma {:induction false} InsertKeepsOrder(x: MenuItem, s: seq<MenuItem>)
    requires ByCaloriesDesc(s)
    ensures ByCaloriesDesc(InsertByCalories(x, s))
  {
    if s != [] && s[0].calories > x.calories {
      var rest := InsertByCalories(x, s[1..]);
      InsertKeepsOrder(x, s[1..]);
      forall j | 0 <= j < |rest| ensures s[0].calories >= rest[j].calories {
        assert rest[j] in multiset(rest);
        assert rest[j] == x || rest[j] in multiset(s[1..]);
      }
    }
  }

  /** `order_by(desc(MenuItem.calories))`: the items rearranged, highest calories first. */
  function SortByCalories(s: seq<MenuItem>): (r: seq<MenuItem>)
    ensures multiset(r) == multiset(s)
  {
    if s == [] then []
    else
      assert s == [s[0]] + s[1..];
      InsertByCalories(s[0], SortByCalories(s[1..]))
  }

  lemma {:induction false} SortedByCalories(s: seq<MenuItem>)
    ensures ByCaloriesDesc(SortByCalories(s))
  {
    if s != [] {
      SortedByCalories(s[1..]);
      InsertKeepsOrder(s[0], SortByCalories(s[1..]));
    }
  }

  /** The query of `get_menu`: the matching rows, highest calories first. */
  function Query(table: seq<MenuItem>, restaurant: string, calMin: int, calMax: int): seq<MenuItem> {
    SortByCalories(Select(table, restaurant, calMin, calMax))
  }

  /**
    The query holds exactly the matching rows, each as often as the table
    holds it, ordered highest calories first. The order among rows with the
    same calories is the one the sort happens to give.
  */
  lemma QueryIsSortedSelection(table: seq<MenuItem>, restaurant: string, calMin: int, calMax: int)
    ensures HoldsMatchesOf(Query(table, restaurant, calMin, calMax), table, restaurant, calMin, calMax)
    ensures ByCaloriesDesc(Query(table, restaurant, calMin, calMax))
  {
    SelectCount(table, restaurant, calMin, calMax);
    SortedByCalories(Select(table, restaurant, calMin, calMax));
  }

  /** The JSON objects of the reply, one per item, in order. */
  function Entries(items: seq<MenuItem>): seq<MenuEntry> {
    seq(|items|, i requires 0 <= i < |items| => EntryOf(items[i]))
  }

  /** The reply for given filter values: "no items" for an empty result, otherwise the items. */
  function MenuReply(table: seq<MenuItem>, restaurant: string, calMin: int, calMax: int): Reply {
    var items := Query(table, restaurant, calMin, calMax);
    if items == [] then NoItems else Items(Entries(items))
  }

  /** `get_menu`: the arguments are read (maximum first), then the query runs. */
  function GetMenu(table: seq<MenuItem>, args: Args, toInt: IntParser): (r: Result<Reply, ArgError>)
    ensures r.Success? <==> IntArg(args, "calorieMax", toInt).Success? && IntArg(args, "calorieMin", toInt).Success?
    ensures r.Success? ==>
      r.value == MenuReply(table, RestaurantArg(args), IntArg(args, "calorieMin", toInt).value, IntArg(args, "calorieMax", toInt).value)
    ensures r.Failure? && IntArg(args, "calorieMax", toInt).Failure? ==> r.error == ValueError("calorieMax")
    ensures r.Failure? && IntArg(args, "calorieMax", toInt).Success? ==> r.error == ValueError("calorieMin")
  {
    var restaurant := RestaurantArg(args);
    match IntArg(args, "calorieMax", toInt)
    case Failure(e) => Failure(e)
    case Success(calMax) =>
      match IntArg(args, "calorieMin", toInt)
      case Failure(e) => Failure(e)
      case Success(calMin) => Success(MenuReply(table, restaurant, calMin, calMax))
  }

  /** The reply is "no items" exactly when no row of the table matches. */
  lemma NoItemsIffNoMatch(table: seq<MenuItem>, restaurant: string, calMin: int, calMax: int)
    ensures MenuReply(table, restaurant, calMin, calMax) == NoItems <==>
      forall i :: 0 <= i < |table| ==> !Matches(table[i], restaurant, calMin, calMax)
  {
    var items := Query(table, restaurant, calMin, calMax);
    QueryIsSortedSelection(table, restaurant, calMin, calMax);
    if exists i :: 0 <= i < |table| && Matches(table[i], restaurant, calMin, calMax) {
      var i :| 0 <= i < |table| && Matches(table[i], restaurant, calMin, calMax);
      assert table[i] in multiset(table);
      assert table[i] in multiset(items);
    }
  }

  /** Every item of the reply comes from a row of the requested restaurant within the calorie range. */
  lemma RepliesAreMatches(table: seq<MenuItem>, restaurant: string, calMin: int, calMax: int, j: nat)
    requires MenuReply(table, restaurant, calMin, calMax).Items?
    requires j < |MenuReply(table, restaurant, calMin, calMax).entries|
    ensures exists i ::
      && 0 <= i < |table|
      && Matches(table[i], restaurant, calMin, calMax)
      && MenuReply(table, restaurant, calMin, calMax).entries[j] == EntryOf(table[i])
  {
    var items := Query(table, restaurant, calMin, calMax);
    QueryIsSortedSelection(table, restaurant, calMin, calMax);
    assert items[j] in multiset(items);
    var i :| 0 <= i < |table| && table[i] == items[j];
  }

  /** Every matching row of the table is in the reply. */
  lemma MatchesAreReplied(table: seq<MenuItem>, restaurant: string, calMin: int, calMax: int, i: nat)
    requires i < |table| && Matches(table[i], restaurant, calMin, calMax)
    ensures MenuReply(table, restaurant, calMin, calMax).Items?
    ensures EntryOf(table[i]) in MenuReply(table, restaurant, calMin, calMax).entries
  {
    var items := Query(table, restaurant, calMin, calMax);
    QueryIsSortedSelection(table, restaurant, calMin, calMax);
    assert table[i] in multiset(table);
    assert table[i] in multiset(items);
    var j :| 0 <= j < |items| && items[j] == table[i];
    assert Entries(items)[j] == EntryOf(table[i]);
  }

  /** The reply lists the items highest calories first. */
  lemma RepliesByCaloriesDesc(table: seq<MenuItem>, restaurant: string, calMin: int, calMax: int)
    requires MenuReply(table, restaurant, calMin, calMax).Items?
    ensures var e := MenuReply(table, restaurant, calMin, calMax).entries;
      forall j, k :: 0 <= j < k < |e| ==> e[j].calories >= e[k].calories
  {
    QueryIsSortedSelection(table, restaurant, calMin, calMax);
  }

  /** Without a `calorieMax` argument the bound is 0, so only items of at most 0 calories are replied. */
  lemma MissingMaximumIsZero(table: seq<MenuItem>, args: Args, toInt: IntParser, j: nat)
    requires "calorieMax" !in args
    requires GetMenu(table, args, toInt).Success? && GetMenu(table, args, toInt).value.Items?
    requires j < |GetMenu(table, args, toInt).value.entries|
    ensures GetMenu(table, args, toInt).value.entries[j].calories <= 0
  {
    var calMin := IntArg(args, "calorieMin", toInt).value;
    RepliesAreMatches(table, RestaurantArg(args), calMin, 0, j);
  }

  /** Ordered strictly by Python's string order: sorted and without duplicates. */
  predicate StrictlyIncreasing(s: seq<string>) {
    forall i, j :: 0 <= i < j < |s| ==> LexLess(s[i], s[j])
  }

  /** `name` added to a strictly increasing list of names, unless it is there already. */
  function InsertName(name: string, s: seq<string>): (r: seq<string>)
    ensures forall x :: x in r <==> x == name || x in s
  {
    if s == [] then [name]
    else if name == s[0] then s
    else if LexLess(name, s[0]) then [name] + s
    else [s[0]] + InsertName(name, s[1..])
  }

  lemma {:induction false} InsertNameKeepsOrder(name: string, s: seq<string>)
    requires StrictlyIncreasing(s)
    ensures StrictlyIncreasing(InsertName(name, s))
  {
    if s != [] && name != s[0] {
      if LexLess(name, s[0]) {
        forall j | 0 < j < |s| ensures LexLess(name, s[j]) {
          LexTransitive(name, s[0], s[j]);
        }
      } else {
        LexTotal(name, s[0]);
        InsertNameKeepsOrder(name, s[1..]);
        var rest := InsertName(name, s[1..]);
        forall j | 0 <= j < |rest| ensures LexLess(s[0], rest[j]) {
          assert rest[j] in rest;
        }
      }
    }
  }

  /** `sorted({name for (name,) in ...})`: the restaurant names of the rows, sorted, each once. */
  function SortedNames(table: seq<MenuItem>): (r: seq<string>)
    ensures forall x :: x in r <==> exists i :: 0 <= i < |table| && table[i].restaurant == x
  {
    if table == [] then []
    else
      var rest := SortedNames(table[1..]);
      assert forall i :: 1 <= i < |table| ==> table[i] == table[1..][i - 1];
      InsertName(table[0].restaurant, rest)
  }

  /** `get_restaurants`. */
  function GetRestaurants(table: seq<MenuItem>): seq<string> {
    SortedNames(table)
  }

  /**
    The names are sorted without duplicates, each is the restaurant of some
    row, and the restaurant of every row is among them.
  */
  lemma {:induction false} RestaurantsSortedDistinct(table: seq<MenuItem>)
    ensures StrictlyIncreasing(GetRestaurants(table))
    ensures forall i :: 0 <= i < |table| ==> table[i].restaurant in GetRestaurants(table)
    ensures forall x :: x in GetRestaurants(table) ==> exists i :: 0 <= i < |table| && table[i].restaurant == x
  {
    if table != [] {
      RestaurantsSortedDistinct(table[1..]);
      InsertNameKeepsOrder(table[0].restaurant, SortedNames(table[1..]));
    }
  }
}
