/**
  The menu item record that the PDF scraper produces and that `get_menu`
  reads from the table (restaurant, name, category, calories, fat, carbs,
  protein). The record has all seven fields, including the three macros
  that the declared table lacks. Calories are integers (`int(...)`); fat, carbs and protein come
  from `float(...)` and are kept as `real` values that no operation inspects.
*/
module Menu {

  datatype MenuItem = MenuItem(
    restaurant: string,
    name: string,
    category: string,
    calories: int,
    fat: real,
    carbs: real,
    protein: real)

  /** The JSON object `get_menu` replies with for one item: every field but the restaurant. */
  datatype MenuEntry = MenuEntry(
    name: string,
    calories: int,
    protein: real,
    carbs: real,
    fat: real,
    category: string)

  function EntryOf(item: MenuItem): MenuEntry {
    MenuEntry(item.name, item.calories, item.protein, item.carbs, item.fat, item.category)
  }
}
