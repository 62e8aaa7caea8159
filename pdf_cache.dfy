/**
  The row scanner of `parse_menu_pdf` (backend/pdf_cache.py). The PDF has
  already been turned into pages, each a list of tables; a page whose table
  list or first table is empty is skipped, and otherwise the column map of
  its first table is used for every table on it. The first row of each
  table is dropped, and every other row is classified: short rows are
  skipped, rows with no nutrition cell and a non-blank first cell set the
  current category, rows with a missing nutrition cell or a cell that does
  not parse are skipped, and the rest become menu items tagged with the
  most recent category.
*/
module PdfCache {
  import opened Wrappers
  import opened Text
  import opened Menu
  import opened PdfColumns

  /** The exceptions the scanner lets escape: none of them is caught. */
  datatype PyError =
    | KeyError(key: Macro)   // `col_map["..."]` on a macro no column matched
    | IndexError             // a mapped column past the end of a row, in `any` or `all`
    | AttributeError         // `row[0].strip()` on a missing first cell

  /** `int(...)` and `float(...)`: a parse either yields a number or raises `ValueError`. */
  datatype Parsers = Parsers(toInt: string -> Option<int>, toFloat: string -> Option<real>)

  datatype Nutrition = Nutrition(calories: int, fat: real, carbs: real, protein: real)

  /** What the loop body does with one row, when it raises nothing. */
  datatype RowKind =
    | Short                           // `not row or len(row) < 5`
    | Header(category: string)        // sets `last_category`
    | Incomplete                      // some nutrition cell is empty
    | Unparsable                      // `int`/`float` raised `ValueError`
    | Data(name: string, nutrition: Nutrition)

  /** `col_map.values()`, in the dictionary's order. */
  function Values(cm: ColMap): (idx: seq<nat>)
    ensures |idx| == |cm|
    ensures forall i :: 0 <= i < |cm| ==> idx[i] == cm[i].1
  {
    seq(|cm|, i requires 0 <= i < |cm| => cm[i].1)
  }

  predicate InRange(row: Row, idx: seq<nat>) {
    forall p :: 0 <= p < |idx| ==> idx[p] < |row|
  }

  /** The scan passes the first `p` indices: each lies in the row and its cell is empty. */
  predicate FirstPAbsent(row: Row, idx: seq<nat>, p: nat)
    requires p <= |idx|
  {
    forall q :: 0 <= q < p ==> idx[q] < |row| && !Present(row[idx[q]])
  }

  /** The scan passes the first `p` indices: each lies in the row and its cell is present. */
  predicate FirstPPresent(row: Row, idx: seq<nat>, p: nat)
    requires p <= |idx|
  {
    forall q :: 0 <= q < p ==> idx[q] < |row| && Present(row[idx[q]])
  }

  /**
    `any(row[i] for i in idx)`: it stops at the first present cell, and an
    index past the end of the row that it reaches first raises `IndexError`.
  */
  function AnyPresent(row: Row, idx: seq<nat>): (r: Result<bool, PyError>)
    ensures r.Failure? ==> r.error == IndexError
    ensures InRange(row, idx) ==> r == Success(exists p :: 0 <= p < |idx| && Present(row[idx[p]]))
    ensures r == Success(false) ==> InRange(row, idx)
  {
    if idx == [] then Success(false)
    else if idx[0] >= |row| then Failure(IndexError)
    else if Present(row[idx[0]]) then
      Success(true)
    else
      var r := AnyPresent(row, idx[1..]);
      assert forall p :: 1 <= p < |idx| ==> idx[p] == idx[1..][p - 1];
      r
  }

  /**
    `all(row[i] for i in idx)`: it stops at the first empty cell, and an
    index past the end of the row that it reaches first raises `IndexError`.
  */
  function AllPresent(row: Row, idx: seq<nat>): (r: Result<bool, PyError>)
    ensures r.Failure? ==> r.error == IndexError
    ensures InRange(row, idx) ==> r == Success(forall p :: 0 <= p < |idx| ==> Present(row[idx[p]]))
    ensures r == Success(true) ==> InRange(row, idx)
  {
    if idx == [] then Success(true)
    else if idx[0] >= |row| then Failure(IndexError)
    else if !Present(row[idx[0]]) then
      Success(false)
    else
      var r := AllPresent(row, idx[1..]);
      assert forall p :: 1 <= p < |idx| ==> idx[p] == idx[1..][p - 1];
      r
  }

  /** `any` raises exactly when it reaches an index past the end of the row, every cell before it being empty. */
  lemma {:induction false} AnyPresentRaises(row: Row, idx: seq<nat>)
    ensures AnyPresent(row, idx).Failure? <==>
      exists p :: 0 <= p < |idx| && idx[p] >= |row| && FirstPAbsent(row, idx, p)
  {
    if idx != [] && idx[0] >= |row| {
      assert FirstPAbsent(row, idx, 0);
    } else if idx != [] && !Present(row[idx[0]]) {
      var rest := idx[1..];
      AnyPresentRaises(row, rest);
      forall p | 0 <= p < |rest|
        ensures FirstPAbsent(row, idx, p + 1) <==> FirstPAbsent(row, rest, p)
      {
        assert forall q :: 0 < q <= p ==> idx[q] == rest[q - 1];
      }
      if exists p :: 0 <= p < |idx| && idx[p] >= |row| && FirstPAbsent(row, idx, p) {
        var p :| 0 <= p < |idx| && idx[p] >= |row| && FirstPAbsent(row, idx, p);
        assert rest[p - 1] == idx[p];
      }
    }
  }

  /** `all` raises exactly when it reaches an index past the end of the row, every cell before it being present. */
  lemma {:induction false} AllPresentRaises(row: Row, idx: seq<nat>)
    ensures AllPresent(row, idx).Failure? <==>
      exists p :: 0 <= p < |idx| && idx[p] >= |row| && FirstPPresent(row, idx, p)
  {
    if idx != [] && idx[0] >= |row| {
      assert FirstPPresent(row, idx, 0);
    } else if idx != [] && Present(row[idx[0]]) {
      var rest := idx[1..];
      AllPresentRaises(row, rest);
      forall p | 0 <= p < |rest|
        ensures FirstPPresent(row, idx, p + 1) <==> FirstPPresent(row, rest, p)
      {
        assert forall q :: 0 < q <= p ==> idx[q] == rest[q - 1];
      }
      if exists p :: 0 <= p < |idx| && idx[p] >= |row| && FirstPPresent(row, idx, p) {
        var p :| 0 <= p < |idx| && idx[p] >= |row| && FirstPPresent(row, idx, p);
        assert rest[p - 1] == idx[p];
      }
    }
  }

  /** Every column of the map lies inside the row and holds a non-empty string. */
  predicate MappedCellsPresent(cm: ColMap, row: Row) {
    forall i :: 0 <= i < |cm| ==> cm[i].1 < |row| && Present(row[cm[i].1])
  }

  /**
    `row[col_map[k]]`: nothing when no column is mapped to `k` (where Python
    raises `KeyError`), otherwise the non-empty text of the mapped cell.
  */
  function MappedCell(cm: ColMap, row: Row, k: Macro): (c: Option<string>)
    requires MappedCellsPresent(cm, row)
    ensures c.None? <==> !HasKey(cm, k)
    ensures c.Some? ==> c.value != ""
    ensures c.Some? ==> exists i :: 0 <= i < |cm| && cm[i].0 == k && row[cm[i].1] == Some(c.value)
  {
    LookupNone(cm, k);
    match Lookup(cm, k)
    case None => None
    case Some(i) =>
      LookupFound(cm, k);
      Some(row[i].value)
  }

  /** The cell mapped to `k` exists and `parse` accepts it, giving `v`. */
  predicate ParsesAs<T(==)>(cm: ColMap, row: Row, k: Macro, parse: string -> Option<T>, v: T)
    requires MappedCellsPresent(cm, row)
  {
    MappedCell(cm, row, k).Some? && parse(MappedCell(cm, row, k).value) == Some(v)
  }

  /**
    The `try` block: calories, fat, carbs and protein are read in that
    order, and the first lookup that fails or parse that raises ends it.
    A failure is always the `KeyError` of a macro with no column; a result is
    the four parsed cells, and when all four parse the result is theirs.
  */
  function ReadNutrition(cm: ColMap, row: Row, ps: Parsers): (r: Result<Option<Nutrition>, PyError>)
    requires MappedCellsPresent(cm, row)
    ensures r.Failure? ==> r.error.KeyError? && !HasKey(cm, r.error.key)
    ensures r.Success? && r.value.Some? ==>
      var n := r.value.value;
      && ParsesAs(cm, row, Calories, ps.toInt, n.calories)
      && ParsesAs(cm, row, Fat, ps.toFloat, n.fat)
      && ParsesAs(cm, row, Carbs, ps.toFloat, n.carbs)
      && ParsesAs(cm, row, Protein, ps.toFloat, n.protein)
    ensures forall n: Nutrition ::
      (&& ParsesAs(cm, row, Calories, ps.toInt, n.calories)
       && ParsesAs(cm, row, Fat, ps.toFloat, n.fat)
       && ParsesAs(cm, row, Carbs, ps.toFloat, n.carbs)
       && ParsesAs(cm, row, Protein, ps.toFloat, n.protein)) ==> r == Success(Some(n))
  {
    match MappedCell(cm, row, Calories)
    case None => Failure(KeyError(Calories))
    case Some(c0) =>
      match ps.toInt(c0)
      case None => Success(None)
      case Some(calories) =>
        match MappedCell(cm, row, Fat)
        case None => Failure(KeyError(Fat))
        case Some(c1) =>
          match ps.toFloat(c1)
          case None => Success(None)
          case Some(fat) =>
            match MappedCell(cm, row, Carbs)
            case None => Failure(KeyError(Carbs))
            case Some(c2) =>
              match ps.toFloat(c2)
              case None => Success(None)
              case Some(carbs) =>
                match MappedCell(cm, row, Protein)
                case None => Failure(KeyError(Protein))
                case Some(c3) =>
                  match ps.toFloat(c3)
                  case None => Success(None)
                  case Some(protein) => Success(Some(Nutrition(calories, fat, carbs, protein)))
  }

  /** `k` has a column and its cell parses: with `int` for calories, with `float` for the others. */
  predicate CellParses(cm: ColMap, row: Row, ps: Parsers, k: Macro)
    requires MappedCellsPresent(cm, row)
  {
    && MappedCell(cm, row, k).Some?
    && (if k == Calories then ps.toInt(MappedCell(cm, row, k).value).Some?
        else ps.toFloat(MappedCell(cm, row, k).value).Some?)
  }

  /** `k` is the first macro of the `try` block whose lookup or parse fails. */
  predicate FailsFirst(cm: ColMap, row: Row, ps: Parsers, k: Macro)
    requires MappedCellsPresent(cm, row)
  {
    !CellParses(cm, row, ps, k) && forall j :: j in Before(k) ==> CellParses(cm, row, ps, j)
  }

  /** When `k` is the first macro to fail, the `try` block raises `KeyError(k)` if it has no column and is skipped if it has one. */
  lemma ReadNutritionFails(cm: ColMap, row: Row, ps: Parsers, k: Macro)
    requires MappedCellsPresent(cm, row) && FailsFirst(cm, row, ps, k)
    ensures ReadNutrition(cm, row, ps) == if HasKey(cm, k) then Success(None) else Failure(KeyError(k))
  {
    match k
    case Calories =>
    case Fat =>
      assert CellParses(cm, row, ps, Calories);
    case Carbs =>
      assert CellParses(cm, row, ps, Calories);
      assert CellParses(cm, row, ps, Fat);
    case Protein =>
      assert CellParses(cm, row, ps, Calories);
      assert CellParses(cm, row, ps, Fat);
      assert CellParses(cm, row, ps, Carbs);
  }

  /** Unless every cell parses, exactly one macro is the first to fail. */
  lemma SomeFailsFirst(cm: ColMap, row: Row, ps: Parsers) returns (k: Macro)
    requires MappedCellsPresent(cm, row)
    requires ReadNutrition(cm, row, ps).Failure? || ReadNutrition(cm, row, ps) == Success(None)
    ensures FailsFirst(cm, row, ps, k)
  {
    if !CellParses(cm, row, ps, Calories) {
      k := Calories;
    } else if !CellParses(cm, row, ps, Fat) {
      k := Fat;
    } else if !CellParses(cm, row, ps, Carbs) {
      k := Carbs;
    } else {
      k := Protein;
    }
  }

  /** The `try` block raises `KeyError(k)` exactly when `k` is the first macro to fail and it has no column. */
  lemma ReadNutritionKeyError(cm: ColMap, row: Row, ps: Parsers, k: Macro)
    requires MappedCellsPresent(cm, row)
    ensures ReadNutrition(cm, row, ps) == Failure(KeyError(k)) <==> FailsFirst(cm, row, ps, k) && !HasKey(cm, k)
  {
    if ReadNutrition(cm, row, ps) == Failure(KeyError(k)) {
      var j := SomeFailsFirst(cm, row, ps);
      ReadNutritionFails(cm, row, ps, j);
    } else if FailsFirst(cm, row, ps, k) {
      ReadNutritionFails(cm, row, ps, k);
    }
  }

  /**
    A `ValueError` is caught (the row is skipped) exactly when the first
    macro to fail has a column, so that it is its parse that failed.
  */
  lemma ReadNutritionUnparsable(cm: ColMap, row: Row, ps: Parsers)
    requires MappedCellsPresent(cm, row)
    ensures ReadNutrition(cm, row, ps) == Success(None) <==> exists k :: FailsFirst(cm, row, ps, k) && HasKey(cm, k)
  {
    if ReadNutrition(cm, row, ps) == Success(None) {
      var k := SomeFailsFirst(cm, row, ps);
      ReadNutritionFails(cm, row, ps, k);
    }
    if exists k :: FailsFirst(cm, row, ps, k) && HasKey(cm, k) {
      var k :| FailsFirst(cm, row, ps, k) && HasKey(cm, k);
      ReadNutritionFails(cm, row, ps, k);
    }
  }

  /** The body of the row loop (lines 71-93), given the page's column map. */
  function ClassifyRow(cm: ColMap, row: Row, ps: Parsers): (r: Result<RowKind, PyError>)
    ensures r == Success(Short) <==> |row| < 5
  {
    if |row| < 5 then Success(Short)
    else
      var candidate := CellText(row[0]);
      match AnyPresent(row, Values(cm))
      case Failure(e) => Failure(e)
      case Success(anyPresent) =>
        if !anyPresent && candidate != [] then Success(Header(candidate))
        else ClassifyNonHeader(cm, row, ps)
  }

  /** Lines 82-93: a row that is not a header is skipped, raises, or is an item. */
  function ClassifyNonHeader(cm: ColMap, row: Row, ps: Parsers): (r: Result<RowKind, PyError>)
    requires row != []
    ensures r.Success? ==> !r.value.Short? && !r.value.Header?
  {
    match AllPresent(row, Values(cm))
    case Failure(e) => Failure(e)
    case Success(allPresent) =>
      if !allPresent then Success(Incomplete)
      else if row[0].None? then Failure(AttributeError)
      else
        ValuesAllPresent(cm, row);
        ReadItem(cm, row, ps)
  }

  /** Lines 86-93: the name, then the `try` block, whose `ValueError` skips the row. */
  function ReadItem(cm: ColMap, row: Row, ps: Parsers): (r: Result<RowKind, PyError>)
    requires MappedCellsPresent(cm, row) && row != [] && row[0].Some?
    ensures r.Success? ==> r.value.Unparsable? || r.value.Data?
  {
    var name := Strip(row[0].value);
    match ReadNutrition(cm, row, ps)
    case Failure(e) => Failure(e)
    case Success(None) => Success(Unparsable)
    case Success(Some(n)) => Success(Data(name, n))
  }

  lemma ValuesAllPresent(cm: ColMap, row: Row)
    requires AllPresent(row, Values(cm)) == Success(true)
    ensures MappedCellsPresent(cm, row)
  {
  }

  /** Every mapped column lies inside the row. */
  predicate MappedInRange(cm: ColMap, row: Row) {
    forall i :: 0 <= i < |cm| ==> cm[i].1 < |row|
  }

  lemma ValuesInRange(cm: ColMap, row: Row)
    ensures InRange(row, Values(cm)) <==> MappedInRange(cm, row)
  {
  }

  /** No mapped column holds a present cell. */
  predicate NoMappedPresent(cm: ColMap, row: Row)
    requires MappedInRange(cm, row)
  {
    forall i :: 0 <= i < |cm| ==> !Present(row[cm[i].1])
  }

  /** With every mapped column inside the row, `any` is true exactly when one of them is present. */
  lemma AnyPresentMapped(cm: ColMap, row: Row)
    requires MappedInRange(cm, row)
    ensures AnyPresent(row, Values(cm)) == Success(!NoMappedPresent(cm, row))
  {
  }

  /** With a mapped column past the end of the row, `any` is true or raises. */
  lemma AnyPresentOutside(cm: ColMap, row: Row)
    requires !MappedInRange(cm, row)
    ensures AnyPresent(row, Values(cm)) != Success(false)
  {
  }

  /**
    A row is a category header exactly when it has at least five cells,
    every mapped column is inside it and empty, and its first cell is not
    blank; the category is the stripped first cell.
  */
  lemma ClassifyHeader(cm: ColMap, row: Row, ps: Parsers)
    ensures var r := ClassifyRow(cm, row, ps);
      (r.Success? && r.value.Header?) <==>
        && |row| >= 5 && MappedInRange(cm, row) && NoMappedPresent(cm, row)
        && CellText(row[0]) != []
    ensures var r := ClassifyRow(cm, row, ps);
      r.Success? && r.value.Header? ==> r.value.category == CellText(row[0])
  {
    if |row| >= 5 {
      if MappedInRange(cm, row) {
        AnyPresentMapped(cm, row);
      } else {
        AnyPresentOutside(cm, row);
      }
    }
  }

  /** With every mapped column inside the row, `all` is true exactly when every one of them is present. */
  lemma AllPresentMapped(cm: ColMap, row: Row)
    requires MappedInRange(cm, row)
    ensures AllPresent(row, Values(cm)) == Success(MappedCellsPresent(cm, row))
  {
  }

  /**
    A row is an item exactly when it has at least five cells, every mapped
    column is inside it and present, its first cell exists and the four
    numbers parse; the name is the stripped first cell.
  */
  lemma ClassifyData(cm: ColMap, row: Row, ps: Parsers, name: string, n: Nutrition)
    ensures ClassifyRow(cm, row, ps) == Success(Data(name, n)) <==>
      && |row| >= 5 && MappedCellsPresent(cm, row) && row[0].Some?
      && name == Strip(row[0].value)
      && ReadNutrition(cm, row, ps) == Success(Some(n))
  {
    var r := ClassifyRow(cm, row, ps);
    if |row| >= 5 {
      if MappedInRange(cm, row) {
        AnyPresentMapped(cm, row);
        AllPresentMapped(cm, row);
        if MappedCellsPresent(cm, row) && row[0].Some? {
          if cm != [] {
            assert Present(row[cm[0].1]);
            assert r == ClassifyNonHeader(cm, row, ps) == ReadItem(cm, row, ps);
          } else {
            assert !HasKey(cm, Calories);
          }
        }
      } else {
        AnyPresentOutside(cm, row);
      }
    }
  }

  /**
    `IndexError` escapes exactly when a row of at least five cells has a
    mapped column past its end and the cells before the first such column
    are all empty (so `any` reaches it) or all present (so `all` does).
  */
  lemma ClassifyIndexError(cm: ColMap, row: Row, ps: Parsers)
    ensures ClassifyRow(cm, row, ps) == Failure(IndexError) <==>
      && |row| >= 5
      && exists p :: 0 <= p < |cm| && cm[p].1 >= |row| &&
           (FirstPAbsent(row, Values(cm), p) || FirstPPresent(row, Values(cm), p))
  {
    var idx := Values(cm);
    var r := ClassifyRow(cm, row, ps);
    if |row| >= 5 {
      AnyPresentRaises(row, idx);
      AllPresentRaises(row, idx);
      var a := AnyPresent(row, idx);
      if a == Success(true) {
        assert r == ClassifyNonHeader(cm, row, ps);
        var b := AllPresent(row, idx);
        if b == Success(true) {
          ValuesAllPresent(cm, row);
          if row[0].Some? {
            assert r == ReadItem(cm, row, ps);
          }
        }
        assert r == Failure(IndexError) <==> b.Failure?;
      } else if a == Success(false) {
        if CellText(row[0]) == [] {
          assert r == ClassifyNonHeader(cm, row, ps);
          var b := AllPresent(row, idx);
          if b == Success(true) {
            ValuesAllPresent(cm, row);
            if row[0].Some? {
              assert r == ReadItem(cm, row, ps);
            }
          }
        }
        assert forall p :: 0 <= p < |cm| ==> idx[p] < |row|;
      }
    }
  }

  /**
    `AttributeError` escapes exactly when a row of at least five cells has
    every mapped column present but no first cell, whose `strip` fails.
  */
  lemma ClassifyAttributeError(cm: ColMap, row: Row, ps: Parsers)
    ensures ClassifyRow(cm, row, ps) == Failure(AttributeError) <==>
      |row| >= 5 && MappedCellsPresent(cm, row) && row[0].None?
  {
  }

  /**
    `KeyError(k)` escapes exactly when a row of at least five cells, with
    every mapped column present and a first cell, is read as an item (it is
    no header: some column is mapped or the first cell is blank) and `k` is
    the first macro of the `try` block to fail, for want of a column.
  */
  lemma ClassifyKeyError(cm: ColMap, row: Row, ps: Parsers, k: Macro)
    ensures ClassifyRow(cm, row, ps) == Failure(KeyError(k)) <==>
      && |row| >= 5 && MappedCellsPresent(cm, row) && row[0].Some?
      && (cm != [] || CellText(row[0]) == [])
      && FailsFirst(cm, row, ps, k) && !HasKey(cm, k)
  {
    var r := ClassifyRow(cm, row, ps);
    if |row| >= 5 {
      if MappedInRange(cm, row) {
        AnyPresentMapped(cm, row);
        AllPresentMapped(cm, row);
        if MappedCellsPresent(cm, row) && row[0].Some? {
          ReadNutritionKeyError(cm, row, ps, k);
          if cm != [] {
            assert Present(row[cm[0].1]);
            assert r == ClassifyNonHeader(cm, row, ps) == ReadItem(cm, row, ps);
          } else if CellText(row[0]) == [] {
            assert r == ClassifyNonHeader(cm, row, ps) == ReadItem(cm, row, ps);
          }
        }
      } else {
        AnyPresentOutside(cm, row);
      }
    }
  }

  /** With a mapped column past the end of the row, `all` is false or raises. */
  lemma AllPresentOutside(cm: ColMap, row: Row)
    requires !MappedInRange(cm, row)
    ensures AllPresent(row, Values(cm)) != Success(true)
  {
  }

  /**
    A row is skipped as incomplete exactly when it has at least five cells,
    `any` returns, the row is not a header and `all` returns false (with
    every mapped column inside the row: some of them is empty); it is skipped
    as unparsable exactly when it could be an item but one of the four
    numbers does not parse.
  */
  lemma ClassifySkipped(cm: ColMap, row: Row, ps: Parsers)
    ensures ClassifyRow(cm, row, ps) == Success(Incomplete) <==>
      && |row| >= 5 && AnyPresent(row, Values(cm)).Success?
      && !(AnyPresent(row, Values(cm)) == Success(false) && CellText(row[0]) != [])
      && AllPresent(row, Values(cm)) == Success(false)
    ensures MappedInRange(cm, row) ==>
      (ClassifyRow(cm, row, ps) == Success(Incomplete) <==>
        && |row| >= 5 && !MappedCellsPresent(cm, row)
        && !(NoMappedPresent(cm, row) && CellText(row[0]) != []))
    ensures ClassifyRow(cm, row, ps) == Success(Unparsable) <==>
      && |row| >= 5 && MappedCellsPresent(cm, row) && row[0].Some?
      && ReadNutrition(cm, row, ps) == Success(None)
  {
    var r := ClassifyRow(cm, row, ps);
    if |row| >= 5 {
      if MappedInRange(cm, row) {
        AnyPresentMapped(cm, row);
        AllPresentMapped(cm, row);
        if MappedCellsPresent(cm, row) && row[0].Some? && ReadNutrition(cm, row, ps).Success? {
          assert HasKey(cm, Calories);
          assert !NoMappedPresent(cm, row);
        }
        if !(NoMappedPresent(cm, row) && CellText(row[0]) != []) {
          assert r == ClassifyNonHeader(cm, row, ps);
          if MappedCellsPresent(cm, row) && row[0].Some? {
            assert r == ReadItem(cm, row, ps);
          }
        }
      } else {
        AnyPresentOutside(cm, row);
        var a := AnyPresent(row, Values(cm));
        if a.Success? {
          assert r == ClassifyNonHeader(cm, row, ps);
          AllPresentOutside(cm, row);
        }
      }
    }
  }

  // ----- the document -----------------------------------------------------

  /** `page.extract_tables()`. */
  type Page = seq<Table>

  /** A row the loop body runs on, with the column map of its page. */
  datatype Step = Step(cm: ColMap, row: Row)

  /** `table[1:]`: every row but the first. */
  function Body(table: Table): (rows: seq<Row>)
    ensures |rows| == if table == [] then 0 else |table| - 1
    ensures forall i :: 0 <= i < |rows| ==> rows[i] == table[i + 1]
  {
    if table == [] then [] else table[1..]
  }

  function RowSteps(cm: ColMap, rows: seq<Row>): (s: seq<Step>)
    ensures |s| == |rows|
    ensures forall i :: 0 <= i < |rows| ==> s[i] == Step(cm, rows[i])
  {
    seq(|rows|, i requires 0 <= i < |rows| => Step(cm, rows[i]))
  }

  /** The parts, one after the other. */
  function Flatten(parts: seq<seq<Step>>): seq<Step> {
    if parts == [] then [] else Flatten(parts[..|parts| - 1]) + parts[|parts| - 1]
  }

  /** The part `f` gives for each element of `xs`. */
  function Parts<A>(xs: seq<A>, f: A -> seq<Step>): (parts: seq<seq<Step>>)
    ensures |parts| == |xs|
    ensures forall i :: 0 <= i < |xs| ==> parts[i] == f(xs[i])
  {
    seq(|xs|, i requires 0 <= i < |xs| => f(xs[i]))
  }

  lemma PartsSlice<A>(xs: seq<A>, f: A -> seq<Step>, i: nat)
    requires i <= |xs|
    ensures Parts(xs, f)[..i] == Parts(xs[..i], f)
    ensures Parts(xs, f)[i..] == Parts(xs[i..], f)
  {
  }

  /** The rows of a table but its first, with the column map of its page. */
  function TableSteps(cm: ColMap): Table -> seq<Step> {
    table => RowSteps(cm, Body(table))
  }

  /** The rows the inner loops visit for the tables of one page, in order. */
  function TablesSteps(cm: ColMap, tables: seq<Table>): seq<Step> {
    Flatten(Parts(tables, TableSteps(cm)))
  }

  /** A page with no tables or an empty first table contributes nothing. */
  function PageSteps(page: Page): seq<Step> {
    if page == [] || page[0] == [] then []
    else TablesSteps(ColumnMap(page[0]), page)
  }

  /** Every row the body of the loop runs on, in document order. */
  function DocSteps(pages: seq<Page>): seq<Step> {
    Flatten(Parts(pages, PageSteps))
  }

  /** What the body of the row loop makes of a row, as a value the scan is stated over. */
  type Classifier = Step -> Result<RowKind, PyError>

  /** The body of the row loop with the parsers `ps`, on a row and the column map of its page. */
  function Kind(ps: Parsers): Classifier {
    (s: Step) => ClassifyRow(s.cm, s.row, ps)
  }

  /** The exception that ends the scan of `steps`, if any: that of the first row that raises. */
  function FirstError(steps: seq<Step>, kind: Classifier): Option<PyError> {
    if steps == [] then None
    else match FirstError(steps[..|steps| - 1], kind)
      case Some(e) => Some(e)
      case None =>
        match kind(steps[|steps| - 1])
        case Failure(e) => Some(e)
        case Success(_) => None
  }

  /** The value of `last_category` after `steps`: the most recent header, if any. */
  function LastHeader(steps: seq<Step>, kind: Classifier): Option<string> {
    if steps == [] then None
    else match kind(steps[|steps| - 1])
      case Success(Header(c)) => Some(c)
      case _ => LastHeader(steps[..|steps| - 1], kind)
  }

  /** `last_category if 'last_category' in locals() else "unknown"`. */
  function Category(last: Option<string>): string {
    match last
    case Some(c) => c
    case None => "unknown"
  }

  function MakeItem(restaurant: string, name: string, n: Nutrition, category: string): MenuItem {
    MenuItem(restaurant, name, category, n.calories, n.fat, n.carbs, n.protein)
  }

  /** The items the scan of `steps` appends, when none of them raises. */
  function Emitted(restaurant: string, steps: seq<Step>, kind: Classifier): seq<MenuItem> {
    if steps == [] then []
    else
      var prefix := steps[..|steps| - 1];
      Emitted(restaurant, prefix, kind) +
        match kind(steps[|steps| - 1])
        case Success(Data(name, n)) => [MakeItem(restaurant, name, n, Category(LastHeader(prefix, kind)))]
        case _ => []
  }

  /** The locals `last_category` and `menu_items` while the scan goes on, or the exception that ended it. */
  datatype Scan = Going(last: Option<string>, items: seq<MenuItem>) | Raised(error: PyError)

  /** One execution of the body of the row loop. */
  function Next(restaurant: string, st: Scan, s: Step, kind: Classifier): Scan {
    match st
    case Raised(_) => st
    case Going(last, items) =>
      match kind(s)
      case Failure(e) => Raised(e)
      case Success(Header(c)) => Going(Some(c), items)
      case Success(Data(name, n)) => Going(last, items + [MakeItem(restaurant, name, n, Category(last))])
      case Success(_) => st
  }

  /** The scan of `steps`, one body execution after the other. */
  function Run(restaurant: string, steps: seq<Step>, kind: Classifier): Scan {
    if steps == [] then Going(None, [])
    else Next(restaurant, Run(restaurant, steps[..|steps| - 1], kind), steps[|steps| - 1], kind)
  }

  /**
    The scan ends in the exception of the first row that raises, and
    otherwise in the most recent header and the items of the data rows.
  */
  lemma {:induction false} RunResult(restaurant: string, steps: seq<Step>, kind: Classifier)
    ensures Run(restaurant, steps, kind) ==
      match FirstError(steps, kind)
      case Some(e) => Raised(e)
      case None => Going(LastHeader(steps, kind), Emitted(restaurant, steps, kind))
  {
    if steps != [] {
      RunResult(restaurant, steps[..|steps| - 1], kind);
    }
  }

  lemma RunStep(restaurant: string, steps: seq<Step>, s: Step, kind: Classifier)
    ensures Run(restaurant, steps + [s], kind) == Next(restaurant, Run(restaurant, steps, kind), s, kind)
  {
  }

  /** Once a prefix of the rows raises, the whole scan ends in the same exception. */
  lemma {:induction false} RaisedPrefix(restaurant: string, a: seq<Step>, c: seq<Step>, kind: Classifier)
    requires a <= c && Run(restaurant, a, kind).Raised?
    ensures Run(restaurant, c, kind) == Run(restaurant, a, kind)
    decreases |c|
  {
    if |c| > |a| {
      var c' := c[..|c| - 1];
      assert a <= c';
      RaisedPrefix(restaurant, a, c', kind);
    } else {
      assert a == c;
    }
  }

  /**
    `parse_menu_pdf` after the restaurant name is known: the loop over the
    pages. It raises the first exception a row raises, and otherwise returns
    the items of the data rows, each with the most recent category.
  */
  method ParseMenuPdf(restaurantName: string, pages: seq<Page>, ps: Parsers)
    returns (r: Result<seq<MenuItem>, PyError>)
    ensures FirstError(DocSteps(pages), Kind(ps)).Some? ==>
      r == Failure(FirstError(DocSteps(pages), Kind(ps)).value)
    ensures FirstError(DocSteps(pages), Kind(ps)).None? ==>
      r == Success(Emitted(restaurantName, DocSteps(pages), Kind(ps)))
  {
    RunResult(restaurantName, DocSteps(pages), Kind(ps));
    var menuItems: seq<MenuItem> := [];
    var lastCategory: Option<string> := None;
    ghost var done: seq<Step> := [];
    DocStepsEmpty(pages);
    var p := 0;
    while p < |pages|
      invariant 0 <= p <= |pages|
      invariant done == DocSteps(pages[..p])
      invariant Run(restaurantName, done, Kind(ps)) == Going(lastCategory, menuItems)
    {
      var tables := pages[p];
      DocStepsNext(pages, p);
      ghost var next := done + PageSteps(tables);
      if tables != [] && tables[0] != [] {
        var colMap := GetIndices(tables[0]);
        assert next == done + TablesSteps(colMap, tables);
        var err;
        err, lastCategory, menuItems :=
          ScanTables(restaurantName, colMap, tables, ps, lastCategory, menuItems, done);
        if err.Some? {
          DocRaised(restaurantName, pages, p, Kind(ps));
          return Failure(err.value);
        }
      } else {
        assert next == done;
      }
      done := next;
      p := p + 1;
    }
    assert pages[..|pages|] == pages;
    return Success(menuItems);
  }

  /**
    `for table in tables`, with the column map of the page: continuing the
    scan of the rows `seen` with the bodies of the tables.
  */
  method ScanTables(restaurantName: string, colMap: ColMap, tables: seq<Table>, ps: Parsers,
                    lastCategory0: Option<string>, menuItems0: seq<MenuItem>, ghost seen: seq<Step>)
    returns (err: Option<PyError>, lastCategory: Option<string>, menuItems: seq<MenuItem>)
    requires Run(restaurantName, seen, Kind(ps)) == Going(lastCategory0, menuItems0)
    ensures Run(restaurantName, seen + TablesSteps(colMap, tables), Kind(ps)) ==
      if err.Some? then Raised(err.value) else Going(lastCategory, menuItems)
  {
    lastCategory, menuItems := lastCategory0, menuItems0;
    ghost var done := seen;
    TablesStepsEmpty(colMap, tables);
    var t := 0;
    while t < |tables|
      invariant 0 <= t <= |tables|
      invariant done == seen + TablesSteps(colMap, tables[..t])
      invariant Run(restaurantName, done, Kind(ps)) == Going(lastCategory, menuItems)
    {
      ghost var here := RowSteps(colMap, Body(tables[t]));
      TablesStepsNext(colMap, tables, t);
      Assoc(seen, TablesSteps(colMap, tables[..t]), here);
      err, lastCategory, menuItems :=
        ScanRows(restaurantName, colMap, Body(tables[t]), ps, lastCategory, menuItems, done);
      done := done + here;
      if err.Some? {
        TablesRaised(restaurantName, seen, colMap, tables, t, Kind(ps));
        return;
      }
      t := t + 1;
    }
    assert tables[..|tables|] == tables;
    err := None;
  }

  /**
    `for row in table[1:]`: continuing the scan of the rows `seen` with
    `rows`, updating `last_category` and `menu_items` as the body does.
  */
  method ScanRows(restaurantName: string, colMap: ColMap, rows: seq<Row>, ps: Parsers,
                  lastCategory0: Option<string>, menuItems0: seq<MenuItem>, ghost seen: seq<Step>)
    returns (err: Option<PyError>, lastCategory: Option<string>, menuItems: seq<MenuItem>)
    requires Run(restaurantName, seen, Kind(ps)) == Going(lastCategory0, menuItems0)
    ensures Run(restaurantName, seen + RowSteps(colMap, rows), Kind(ps)) ==
      if err.Some? then Raised(err.value) else Going(lastCategory, menuItems)
  {
    lastCategory, menuItems := lastCategory0, menuItems0;
    ghost var done := seen;
    assert rows[..0] == [];
    var i := 0;
    while i < |rows|
      invariant 0 <= i <= |rows|
      invariant done == seen + RowSteps(colMap, rows[..i])
      invariant Run(restaurantName, done, Kind(ps)) == Going(lastCategory, menuItems)
    {
      var row := rows[i];
      var kind := ClassifyRow(colMap, row, ps);
      ghost var step := Step(colMap, row);
      assert Kind(ps)(step) == kind;
      RunStep(restaurantName, done, step, Kind(ps));
      RowStepsNext(colMap, rows, i);
      Assoc(seen, RowSteps(colMap, rows[..i]), [step]);
      done := done + [step];
      if kind.Failure? {
        RowStepsSplit(colMap, rows, i);
        Assoc(seen, RowSteps(colMap, rows[..i + 1]), RowSteps(colMap, rows[i + 1..]));
        RaisedPrefix(restaurantName, done, seen + RowSteps(colMap, rows), Kind(ps));
        return Some(kind.error), lastCategory, menuItems;
      }
      if kind.value.Header? {
        lastCategory := Some(kind.value.category);
      } else if kind.value.Data? {
        var item := MakeItem(restaurantName, kind.value.name, kind.value.nutrition, Category(lastCategory));
        menuItems := menuItems + [item];
      }
      i := i + 1;
    }
    assert rows[..|rows|] == rows;
    err := None;
  }

  lemma TablesStepsEmpty(cm: ColMap, tables: seq<Table>)
    ensures TablesSteps(cm, tables[..0]) == []
  {
  }

  lemma DocStepsEmpty(pages: seq<Page>)
    ensures DocSteps(pages[..0]) == []
  {
  }

  lemma Assoc<T>(a: seq<T>, b: seq<T>, c: seq<T>)
    ensures a + (b + c) == (a + b) + c
  {
  }

  lemma RowStepsNext(cm: ColMap, rows: seq<Row>, i: nat)
    requires i < |rows|
    ensures RowSteps(cm, rows[..i + 1]) == RowSteps(cm, rows[..i]) + [Step(cm, rows[i])]
  {
  }

  lemma {:induction false} FlattenCut(parts: seq<seq<Step>>, k: nat)
    requires k <= |parts|
    ensures Flatten(parts) == Flatten(parts[..k]) + Flatten(parts[k..])
    decreases |parts|
  {
    if k < |parts| {
      var front := parts[..|parts| - 1];
      FlattenCut(front, k);
      assert front[..k] == parts[..k];
      var back := parts[k..];
      assert back[..|back| - 1] == front[k..];
    } else {
      assert parts[..k] == parts;
    }
  }

  lemma FlattenSplit(parts: seq<seq<Step>>, i: nat)
    requires i < |parts|
    ensures Flatten(parts) == Flatten(parts[..i]) + parts[i] + Flatten(parts[i + 1..])
    ensures Flatten(parts[..i + 1]) == Flatten(parts[..i]) + parts[i]
  {
    FlattenCut(parts, i + 1);
    assert parts[..i + 1][..i] == parts[..i];
  }

  lemma DocStepsNext(pages: seq<Page>, p: nat)
    requires p < |pages|
    ensures DocSteps(pages[..p + 1]) == DocSteps(pages[..p]) + PageSteps(pages[p])
  {
    var parts := Parts(pages, PageSteps);
    FlattenSplit(parts, p);
    PartsSlice(pages, PageSteps, p);
    PartsSlice(pages, PageSteps, p + 1);
    assert parts[p] == PageSteps(pages[p]);
    assert Flatten(parts[..p]) == DocSteps(pages[..p]);
    assert Flatten(parts[..p + 1]) == DocSteps(pages[..p + 1]);
  }

  lemma DocStepsSplit(pages: seq<Page>, p: nat)
    requires p < |pages|
    ensures DocSteps(pages) == DocSteps(pages[..p]) + PageSteps(pages[p]) + DocSteps(pages[p + 1..])
  {
    var parts := Parts(pages, PageSteps);
    FlattenSplit(parts, p);
    PartsSlice(pages, PageSteps, p);
    PartsSlice(pages, PageSteps, p + 1);
    assert parts[p] == PageSteps(pages[p]);
    assert Flatten(parts[..p]) == DocSteps(pages[..p]);
    assert Flatten(parts[p + 1..]) == DocSteps(pages[p + 1..]);
  }

  lemma TablesStepsNext(cm: ColMap, tables: seq<Table>, t: nat)
    requires t < |tables|
    ensures TablesSteps(cm, tables[..t + 1]) == TablesSteps(cm, tables[..t]) + RowSteps(cm, Body(tables[t]))
  {
    var parts := Parts(tables, TableSteps(cm));
    FlattenSplit(parts, t);
    PartsSlice(tables, TableSteps(cm), t);
    PartsSlice(tables, TableSteps(cm), t + 1);
    assert parts[t] == RowSteps(cm, Body(tables[t]));
    assert Flatten(parts[..t]) == TablesSteps(cm, tables[..t]);
    assert Flatten(parts[..t + 1]) == TablesSteps(cm, tables[..t + 1]);
  }

  /** A scan that raises within page `p` raises the same exception over the whole document. */
  lemma DocRaised(restaurant: string, pages: seq<Page>, p: nat, kind: Classifier)
    requires p < |pages| && Run(restaurant, DocSteps(pages[..p]) + PageSteps(pages[p]), kind).Raised?
    ensures Run(restaurant, DocSteps(pages), kind) == Run(restaurant, DocSteps(pages[..p]) + PageSteps(pages[p]), kind)
  {
    DocStepsSplit(pages, p);
    Assoc(DocSteps(pages[..p]), PageSteps(pages[p]), DocSteps(pages[p + 1..]));
    RaisedPrefix(restaurant, DocSteps(pages[..p]) + PageSteps(pages[p]), DocSteps(pages), kind);
  }

  /** A scan that raises within table `t` raises the same exception over all the tables. */
  lemma TablesRaised(restaurant: string, seen: seq<Step>, cm: ColMap, tables: seq<Table>, t: nat, kind: Classifier)
    requires t < |tables| && Run(restaurant, seen + TablesSteps(cm, tables[..t + 1]), kind).Raised?
    ensures Run(restaurant, seen + TablesSteps(cm, tables), kind) == Run(restaurant, seen + TablesSteps(cm, tables[..t + 1]), kind)
  {
    TablesStepsNext(cm, tables, t);
    TablesStepsSplit(cm, tables, t);
    var done := seen + TablesSteps(cm, tables[..t + 1]);
    Assoc(seen, TablesSteps(cm, tables[..t + 1]), TablesSteps(cm, tables[t + 1..]));
    RaisedPrefix(restaurant, done, seen + TablesSteps(cm, tables), kind);
  }

  lemma TablesStepsSplit(cm: ColMap, tables: seq<Table>, t: nat)
    requires t < |tables|
    ensures TablesSteps(cm, tables) ==
      TablesSteps(cm, tables[..t]) + RowSteps(cm, Body(tables[t])) + TablesSteps(cm, tables[t + 1..])
  {
    var parts := Parts(tables, TableSteps(cm));
    FlattenSplit(parts, t);
    PartsSlice(tables, TableSteps(cm), t);
    PartsSlice(tables, TableSteps(cm), t + 1);
    assert parts[t] == RowSteps(cm, Body(tables[t]));
    assert Flatten(parts[..t]) == TablesSteps(cm, tables[..t]);
    assert Flatten(parts[t + 1..]) == TablesSteps(cm, tables[t + 1..]);
  }

  lemma RowStepsSplit(cm: ColMap, rows: seq<Row>, i: nat)
    requires i < |rows|
    ensures RowSteps(cm, rows) == RowSteps(cm, rows[..i + 1]) + RowSteps(cm, rows[i + 1..])
  {
  }

  // What the scan promises, stated without reference to the order of evaluation.

  /** The scan raises nothing exactly when no row raises. */
  lemma {:induction false} NoErrorIffAllRowsSucceed(steps: seq<Step>, kind: Classifier)
    ensures FirstError(steps, kind).None? <==> forall i :: 0 <= i < |steps| ==> kind(steps[i]).Success?
  {
    if steps != [] {
      var front := steps[..|steps| - 1];
      NoErrorIffAllRowsSucceed(front, kind);
      assert forall i :: 0 <= i < |front| ==> front[i] == steps[i];
    }
  }

  /** The exception of the scan is that of a row which every earlier row passes without raising. */
  lemma {:induction false} FirstErrorIsFirst(steps: seq<Step>, kind: Classifier)
    requires FirstError(steps, kind).Some?
    ensures exists i ::
      && 0 <= i < |steps|
      && kind(steps[i]) == Failure(FirstError(steps, kind).value)
      && forall j :: 0 <= j < i ==> kind(steps[j]).Success?
  {
    var front := steps[..|steps| - 1];
    assert forall i :: 0 <= i < |front| ==> front[i] == steps[i];
    if FirstError(front, kind).Some? {
      FirstErrorIsFirst(front, kind);
      var i :| 0 <= i < |front| && kind(front[i]) == Failure(FirstError(front, kind).value)
        && forall j :: 0 <= j < i ==> kind(front[j]).Success?;
      assert kind(steps[i]) == Failure(FirstError(steps, kind).value);
    } else {
      NoErrorIffAllRowsSucceed(front, kind);
      var i := |steps| - 1;
      assert kind(steps[i]) == Failure(FirstError(steps, kind).value);
    }
  }

  predicate IsHeader(s: Step, kind: Classifier) {
    kind(s).Success? && kind(s).value.Header?
  }

  /** `last_category` is unset exactly when no row so far was a header. */
  lemma {:induction false} NoHeaderYet(steps: seq<Step>, kind: Classifier)
    ensures LastHeader(steps, kind).None? <==> forall i :: 0 <= i < |steps| ==> !IsHeader(steps[i], kind)
  {
    if steps != [] {
      var front := steps[..|steps| - 1];
      NoHeaderYet(front, kind);
      assert forall i :: 0 <= i < |front| ==> front[i] == steps[i];
    }
  }

  /** `last_category`, once set, is the category of the most recent header row. */
  lemma {:induction false} LastHeaderIsMostRecent(steps: seq<Step>, kind: Classifier)
    requires LastHeader(steps, kind).Some?
    ensures exists i ::
      && 0 <= i < |steps|
      && kind(steps[i]) == Success(Header(LastHeader(steps, kind).value))
      && forall j :: i < j < |steps| ==> !IsHeader(steps[j], kind)
  {
    var front := steps[..|steps| - 1];
    var last := |steps| - 1;
    if IsHeader(steps[last], kind) {
      assert kind(steps[last]) == Success(Header(LastHeader(steps, kind).value));
    } else {
      LastHeaderIsMostRecent(front, kind);
      var i :| 0 <= i < |front| && kind(front[i]) == Success(Header(LastHeader(front, kind).value))
        && forall j :: i < j < |front| ==> !IsHeader(front[j], kind);
      assert front[i] == steps[i];
      assert forall j :: i < j < |front| ==> front[j] == steps[j];
    }
  }

  /** The items emitted after a prefix of the rows begin the items emitted after all of them. */
  lemma {:induction false} EmittedGrows(restaurant: string, steps: seq<Step>, k: nat, kind: Classifier)
    requires k <= |steps|
    ensures Emitted(restaurant, steps[..k], kind) <= Emitted(restaurant, steps, kind)
    decreases |steps|
  {
    if k < |steps| {
      var front := steps[..|steps| - 1];
      EmittedGrows(restaurant, front, k, kind);
      assert front[..k] == steps[..k];
    } else {
      assert steps[..k] == steps;
    }
  }

  /**
    Every emitted item comes from a data row, with the restaurant's name,
    the row's name and numbers, and the category of the most recent header
    before it ("unknown" when there is none).
  */
  lemma {:induction false} EmittedFromDataRows(restaurant: string, steps: seq<Step>, kind: Classifier, k: nat)
    requires k < |Emitted(restaurant, steps, kind)|
    ensures exists i, name, n ::
      && 0 <= i < |steps|
      && kind(steps[i]) == Success(Data(name, n))
      && Emitted(restaurant, steps, kind)[k] == MakeItem(restaurant, name, n, Category(LastHeader(steps[..i], kind)))
  {
    var front := steps[..|steps| - 1];
    var last := |steps| - 1;
    if k < |Emitted(restaurant, front, kind)| {
      EmittedFromDataRows(restaurant, front, kind, k);
      var i, name, n :| 0 <= i < |front| && kind(front[i]) == Success(Data(name, n))
        && Emitted(restaurant, front, kind)[k] == MakeItem(restaurant, name, n, Category(LastHeader(front[..i], kind)));
      assert front[i] == steps[i] && front[..i] == steps[..i];
    } else {
      var d := kind(steps[last]).value;
      assert Emitted(restaurant, steps, kind)[k] == MakeItem(restaurant, d.name, d.nutrition, Category(LastHeader(steps[..last], kind)));
    }
  }

  /** Every data row is emitted, with the category of the most recent header before it. */
  lemma DataRowsEmitted(restaurant: string, steps: seq<Step>, kind: Classifier, i: nat, name: string, n: Nutrition)
    requires i < |steps| && kind(steps[i]) == Success(Data(name, n))
    ensures MakeItem(restaurant, name, n, Category(LastHeader(steps[..i], kind))) in Emitted(restaurant, steps, kind)
  {
    EmittedGrows(restaurant, steps, i + 1, kind);
    var upTo := steps[..i + 1];
    assert upTo[..i] == steps[..i];
    assert upTo[i] == steps[i];
  }

  /** A row that is neither a header nor an item changes neither the category nor the items. */
  lemma SkippedRowsChangeNothing(restaurant: string, steps: seq<Step>, s: Step, kind: Classifier)
    requires kind(s).Success? && !kind(s).value.Header? && !kind(s).value.Data?
    ensures LastHeader(steps + [s], kind) == LastHeader(steps, kind)
    ensures Emitted(restaurant, steps + [s], kind) == Emitted(restaurant, steps, kind)
  {
  }

  /** A header row sets the category and emits nothing. */
  lemma HeaderRowsSetCategory(restaurant: string, steps: seq<Step>, s: Step, kind: Classifier, c: string)
    requires kind(s) == Success(Header(c))
    ensures LastHeader(steps + [s], kind) == Some(c)
    ensures Emitted(restaurant, steps + [s], kind) == Emitted(restaurant, steps, kind)
  {
  }

  lemma {:induction false} FlattenMember(parts: seq<seq<Step>>, x: Step)
    ensures x in Flatten(parts) <==> exists k :: 0 <= k < |parts| && x in parts[k]
  {
    if parts != [] {
      var front := parts[..|parts| - 1];
      FlattenMember(front, x);
      assert forall k :: 0 <= k < |front| ==> front[k] == parts[k];
    }
  }

  /** A page that the loop reads: it has a first table, and that table a header row. */
  predicate Scanned(page: Page) {
    page != [] && page[0] != []
  }

  lemma TableStepsApply(cm: ColMap, tables: seq<Table>, t: nat)
    requires t < |tables|
    ensures Parts(tables, TableSteps(cm))[t] == RowSteps(cm, Body(tables[t]))
  {
  }

  /** The rows the inner loops visit are the rows after the first of every table, with the page's column map. */
  lemma TablesStepsMembers(cm: ColMap, tables: seq<Table>, s: Step)
    ensures s in TablesSteps(cm, tables) <==>
      exists t, i :: 0 <= t < |tables| && 1 <= i < |tables[t]| && s == Step(cm, tables[t][i])
  {
    var parts := Parts(tables, TableSteps(cm));
    FlattenMember(parts, s);
    if s in TablesSteps(cm, tables) {
      var t :| 0 <= t < |parts| && s in parts[t];
      TableStepsApply(cm, tables, t);
      BodyMembers(cm, tables[t], s);
    }
    if exists t, i :: 0 <= t < |tables| && 1 <= i < |tables[t]| && s == Step(cm, tables[t][i]) {
      var t, i :| 0 <= t < |tables| && 1 <= i < |tables[t]| && s == Step(cm, tables[t][i]);
      TableStepsApply(cm, tables, t);
      BodyMembers(cm, tables[t], s);
    }
  }

  lemma BodyMembers(cm: ColMap, table: Table, s: Step)
    ensures s in RowSteps(cm, Body(table)) <==> exists i :: 1 <= i < |table| && s == Step(cm, table[i])
  {
  }

  /**
    The rows the body runs on are exactly the rows after the first of every
    table of every page that has a non-empty first table, each with the
    column map of that first table.
  */
  lemma DocStepsMembers(pages: seq<Page>, s: Step)
    ensures s in DocSteps(pages) <==>
      exists p, t, i :: ScannedRow(pages, p, t, i) && s == Step(ColumnMap(pages[p][0]), pages[p][t][i])
  {
    var parts := Parts(pages, PageSteps);
    FlattenMember(parts, s);
    if s in DocSteps(pages) {
      var p :| 0 <= p < |parts| && s in parts[p];
      PageMembers(pages, p, s);
    }
    if exists p, t, i :: ScannedRow(pages, p, t, i) && s == Step(ColumnMap(pages[p][0]), pages[p][t][i]) {
      var p, t, i :| ScannedRow(pages, p, t, i) && s == Step(ColumnMap(pages[p][0]), pages[p][t][i]);
      PageMembers(pages, p, s);
    }
  }

  /** Row `i` of table `t` of page `p` is one the body runs on: it is not a table's first row, on a page the loop reads. */
  predicate ScannedRow(pages: seq<Page>, p: int, t: int, i: int) {
    0 <= p < |pages| && Scanned(pages[p]) && 0 <= t < |pages[p]| && 1 <= i < |pages[p][t]|
  }

  lemma PageMembers(pages: seq<Page>, p: nat, s: Step)
    requires p < |pages|
    ensures s in Parts(pages, PageSteps)[p] <==>
      exists t, i :: ScannedRow(pages, p, t, i) && s == Step(ColumnMap(pages[p][0]), pages[p][t][i])
  {
    var page := pages[p];
    assert Parts(pages, PageSteps)[p] == PageSteps(page);
    if Scanned(page) {
      TablesStepsMembers(ColumnMap(page[0]), page, s);
    }
  }
}
