/**
  Column detection for the nutrition tables of a menu PDF (`get_indices` in
  backend/pdf_cache.py). The first table of a page is transposed; every
  column's cells are stripped, concatenated, lower-cased and freed of
  whitespace; and a column whose text contains one of four reversed header
  words ("seirolac", "taflatot", "setardyhobraclatot", "nietorp") is recorded
  as the column of the matching macro. The PDF renders those headers
  rotated, which is why the words come out reversed.
*/
module PdfColumns {
  import opened Wrappers
  import opened Text

  /** A table cell as the PDF extractor gives it: text, or nothing. */
  type Cell = Option<string>
  type Row = seq<Cell>
  type Table = seq<Row>

  datatype Macro = Calories | Fat | Carbs | Protein

  /**
    The dictionary `col_map` from macro to column index. A Python dict keeps
    its keys in the order they were first inserted, and that order decides
    which cell the row scanner reads first, so the map is an association list.
  */
  type ColMap = seq<(Macro, nat)>

  /** Python's truth value of a cell: a non-empty string. */
  predicate Present(c: Cell) {
    c.Some? && c.value != ""
  }

  /** The number of columns `zip(*table)` yields: the length of the shortest row. */
  function Width(table: Table): (w: nat)
    ensures forall i :: 0 <= i < |table| ==> w <= |table[i]|
    ensures table == [] ==> w == 0
    ensures table != [] ==> exists i :: 0 <= i < |table| && w == |table[i]|
  {
    if table == [] then 0
    else if |table| == 1 then |table[0]|
    else
      var w := Width(table[1..]);
      assert exists i :: 0 <= i < |table| - 1 && w == |table[1..][i]|;
      if |table[0]| <= w then |table[0]| else w
  }

  /** Column `j` of the table, top to bottom. */
  function Column(table: Table, j: nat): (col: seq<Cell>)
    requires j < Width(table)
    ensures |col| == |table|
    ensures forall i :: 0 <= i < |table| ==> col[i] == table[i][j]
  {
    seq(|table|, i requires 0 <= i < |table| => table[i][j])
  }

  /** `cell.strip() if cell else ""`. */
  function CellText(c: Cell): string {
    if Present(c) then Strip(c.value) else ""
  }

  /** `"".join(...)` over the texts of a column's cells. */
  function Join(col: seq<Cell>): string {
    if col == [] then "" else CellText(col[0]) + Join(col[1..])
  }

  /** The text a column is matched on: joined, lower-cased, whitespace removed. */
  function ColumnWord(col: seq<Cell>): string {
    RemoveSpaces(Lower(Join(col)))
  }

  /**
    The macros before `k` in the order calories, fat, carbs, protein: the
    order of the `if`/`elif` chain and of the reads in the row scanner.
  */
  function Before(k: Macro): seq<Macro> {
    match k
    case Calories => []
    case Fat => [Calories]
    case Carbs => [Calories, Fat]
    case Protein => [Calories, Fat, Carbs]
  }

  /** The reversed header word each macro's column is recognised by. */
  function HeaderWord(k: Macro): string {
    match k
    case Calories => "seirolac"
    case Fat => "taflatot"
    case Carbs => "setardyhobraclatot"
    case Protein => "nietorp"
  }

  /**
    The `if`/`elif` chain: a column is classed as the first macro, in the
    chain's order, whose header word its text contains, and as none when it
    contains no header word.
  */
  function Classify(word: string): (r: Option<Macro>)
    ensures r.Some? ==> Contains(word, HeaderWord(r.value))
    ensures r.Some? ==> forall j :: j in Before(r.value) ==> !Contains(word, HeaderWord(j))
    ensures r.None? <==> forall k :: !Contains(word, HeaderWord(k))
  {
    if Contains(word, "seirolac") then Some(Calories)
    else if Contains(word, "taflatot") then Some(Fat)
    else if Contains(word, "setardyhobraclatot") then Some(Carbs)
    else if Contains(word, "nietorp") then Some(Protein)
    else None
  }

  // ----- the dictionary ---------------------------------------------------

  /** `col_map.get(k)`. */
  function Lookup(m: ColMap, k: Macro): Option<nat> {
    if m == [] then None
    else if m[0].0 == k then Some(m[0].1)
    else Lookup(m[1..], k)
  }

  /** `k in col_map` fails exactly when no entry has key `k`. */
  lemma {:induction false} LookupNone(m: ColMap, k: Macro)
    ensures Lookup(m, k).None? <==> forall i :: 0 <= i < |m| ==> m[i].0 != k
  {
    if m != [] {
      LookupNone(m[1..], k);
    }
  }

  /** In a dictionary without repeated keys, every entry is what `Lookup` finds. */
  lemma {:induction false} LookupEntry(m: ColMap, i: nat)
    requires DistinctKeys(m) && i < |m|
    ensures Lookup(m, m[i].0) == Some(m[i].1)
  {
    if i > 0 {
      LookupEntry(m[1..], i - 1);
    }
  }

  /** What `Lookup` finds is the value of an entry with that key. */
  lemma {:induction false} LookupFound(m: ColMap, k: Macro)
    requires Lookup(m, k).Some?
    ensures exists i :: 0 <= i < |m| && m[i].0 == k && m[i].1 == Lookup(m, k).value
  {
    if m[0].0 != k {
      LookupFound(m[1..], k);
      var i :| 0 <= i < |m[1..]| && m[1..][i].0 == k && m[1..][i].1 == Lookup(m, k).value;
      assert m[i + 1] == m[1..][i];
    }
  }

  /** `k in col_map`. */
  predicate HasKey(m: ColMap, k: Macro) {
    exists i :: 0 <= i < |m| && m[i].0 == k
  }

  predicate DistinctKeys(m: ColMap) {
    forall i, j :: 0 <= i < j < |m| ==> m[i].0 != m[j].0
  }

  /**
    `col_map[k] = v`: the value of `k` becomes `v`, every other key keeps its
    value, an existing key keeps its place and a new key goes last.
  */
  function Put(m: ColMap, k: Macro, v: nat): (r: ColMap)
    ensures Lookup(m, k).None? ==> r == m + [(k, v)]
  {
    if m == [] then [(k, v)]
    else if m[0].0 == k then [(k, v)] + m[1..]
    else [m[0]] + Put(m[1..], k, v)
  }

  lemma {:induction false} LookupAfterPut(m: ColMap, k: Macro, v: nat, k': Macro)
    ensures Lookup(Put(m, k, v), k') == if k' == k then Some(v) else Lookup(m, k')
  {
    if m != [] && m[0].0 != k {
      LookupAfterPut(m[1..], k, v, k');
    }
  }

  /** Assigning to a key that is present leaves the keys and their order as they were. */
  lemma {:induction false} PutExisting(m: ColMap, k: Macro, v: nat)
    requires Lookup(m, k).Some?
    ensures |Put(m, k, v)| == |m| && forall i :: 0 <= i < |m| ==> Put(m, k, v)[i].0 == m[i].0
  {
    if m[0].0 != k {
      PutExisting(m[1..], k, v);
    }
  }

  lemma {:induction false} PutKeepsKeysDistinct(m: ColMap, k: Macro, v: nat)
    requires DistinctKeys(m)
    ensures DistinctKeys(Put(m, k, v))
  {
    if m != [] && m[0].0 != k {
      PutKeepsKeysDistinct(m[1..], k, v);
      LookupNone(m[1..], k);
      if Lookup(m[1..], k).Some? {
        PutExisting(m[1..], k, v);
      }
    } else if m != [] {
      LookupNone(m[1..], k);
    }
  }

  /** Assigning a value below `bound` keeps every value of the dictionary below it. */
  lemma {:induction false} PutBelow(m: ColMap, k: Macro, v: nat, bound: nat)
    requires v < bound && forall i :: 0 <= i < |m| ==> m[i].1 < bound
    ensures forall i :: 0 <= i < |Put(m, k, v)| ==> Put(m, k, v)[i].1 < bound
  {
    if m != [] && m[0].0 != k {
      PutBelow(m[1..], k, v, bound);
    }
  }

  predicate DistinctValues(m: ColMap) {
    forall i, j :: 0 <= i < j < |m| ==> m[i].1 != m[j].1
  }

  /** Assigning a value larger than every value present keeps the values distinct. */
  lemma {:induction false} PutFreshValue(m: ColMap, k: Macro, v: nat)
    requires DistinctValues(m) && forall i :: 0 <= i < |m| ==> m[i].1 < v
    ensures DistinctValues(Put(m, k, v))
  {
    if m != [] && m[0].0 != k {
      PutFreshValue(m[1..], k, v);
      PutAvoids(m[1..], k, v, m[0].1);
    }
  }

  /** A value that is neither assigned nor present does not appear after the assignment. */
  lemma {:induction false} PutAvoids(m: ColMap, k: Macro, v: nat, x: nat)
    requires x != v && forall i :: 0 <= i < |m| ==> m[i].1 != x
    ensures forall i :: 0 <= i < |Put(m, k, v)| ==> Put(m, k, v)[i].1 != x
  {
    if m != [] && m[0].0 != k {
      PutAvoids(m[1..], k, v, x);
    }
  }

  // ----- get_indices ------------------------------------------------------

  /** The macro (if any) that each column of the transposed table is classified as. */
  function ColumnClasses(table: Table): (cs: seq<Option<Macro>>)
    ensures |cs| == Width(table)
    ensures forall j :: 0 <= j < |cs| ==> cs[j] == Classify(ColumnWord(Column(table, j)))
  {
    seq(Width(table), j requires 0 <= j < Width(table) => Classify(ColumnWord(Column(table, j))))
  }

  /** The dictionary after the loop has visited the first `n` columns, given their classes. */
  function MapUpTo(cs: seq<Option<Macro>>, n: nat): ColMap
    requires n <= |cs|
  {
    if n == 0 then []
    else
      var m := MapUpTo(cs, n - 1);
      match cs[n - 1]
      case None => m
      case Some(k) => Put(m, k, n - 1)
  }

  lemma MapUpToStep(cs: seq<Option<Macro>>, n: nat)
    requires n < |cs|
    ensures MapUpTo(cs, n + 1) ==
      if cs[n].Some? then Put(MapUpTo(cs, n), cs[n].value, n) else MapUpTo(cs, n)
  {
  }

  /** The dictionary `get_indices` returns. */
  function ColumnMap(table: Table): ColMap {
    var cs := ColumnClasses(table);
    MapUpTo(cs, |cs|)
  }

  /** `get_indices(table)`: transpose, then one pass over the columns. */
  method GetIndices(table: Table) returns (colMap: ColMap)
    ensures colMap == ColumnMap(table)
    ensures DistinctKeys(colMap) && DistinctValues(colMap)
    ensures forall i, r :: 0 <= i < |colMap| && 0 <= r < |table| ==> colMap[i].1 < |table[r]|
  {
    var width := Width(table);
    var transposed := seq(width, j requires 0 <= j < width => Column(table, j));
    ghost var cs := ColumnClasses(table);
    assert |transposed| == width == |cs|;
    colMap := [];
    var colIndex := 0;
    while colIndex < |transposed|
      invariant 0 <= colIndex <= width
      invariant colMap == MapUpTo(cs, colIndex)
    {
      var col := transposed[colIndex];
      assert col == Column(table, colIndex);
      var word := ColumnWord(col);
      var macro := Classify(word);
      assert macro == cs[colIndex];
      MapUpToStep(cs, colIndex);
      if macro.Some? {
        colMap := Put(colMap, macro.value, colIndex);
      }
      colIndex := colIndex + 1;
    }
    ColumnMapInRange(cs, width);
  }

  /**
    Every key occurs once, no column is recorded under two keys, and every
    index names a column the loop visited;
    for the columns of a table that is below the length of every row, since
    `zip` stops at the shortest one.
  */
  lemma {:induction false} ColumnMapInRange(cs: seq<Option<Macro>>, n: nat)
    requires n <= |cs|
    ensures DistinctKeys(MapUpTo(cs, n))
    ensures forall i :: 0 <= i < |MapUpTo(cs, n)| ==> MapUpTo(cs, n)[i].1 < n
    ensures DistinctValues(MapUpTo(cs, n))
  {
    if n > 0 {
      var m := MapUpTo(cs, n - 1);
      ColumnMapInRange(cs, n - 1);
      match cs[n - 1]
      case None =>
        assert MapUpTo(cs, n) == m;
      case Some(k) =>
        assert MapUpTo(cs, n) == Put(m, k, n - 1);
        PutKeepsKeysDistinct(m, k, n - 1);
        PutBelow(m, k, n - 1, n);
        PutFreshValue(m, k, n - 1);
    }
  }

  /** The last of the first `n` columns classified as `k`, if any. */
  function LastMatch(cs: seq<Option<Macro>>, n: nat, k: Macro): Option<nat>
    requires n <= |cs|
  {
    if n == 0 then None
    else if cs[n - 1] == Some(k) then Some(n - 1)
    else LastMatch(cs, n - 1, k)
  }

  lemma {:induction false} LookupIsLastMatch(cs: seq<Option<Macro>>, n: nat, k: Macro)
    requires n <= |cs|
    ensures Lookup(MapUpTo(cs, n), k) == LastMatch(cs, n, k)
  {
    if n > 0 {
      var m := MapUpTo(cs, n - 1);
      LookupIsLastMatch(cs, n - 1, k);
      match cs[n - 1]
      case None =>
        assert MapUpTo(cs, n) == m;
      case Some(k0) =>
        assert MapUpTo(cs, n) == Put(m, k0, n - 1);
        LookupAfterPut(m, k0, n - 1, k);
    }
  }

  lemma {:induction false} LastMatchNone(cs: seq<Option<Macro>>, n: nat, k: Macro)
    requires n <= |cs|
    ensures LastMatch(cs, n, k).None? <==> forall j :: 0 <= j < n ==> cs[j] != Some(k)
  {
    if n > 0 {
      LastMatchNone(cs, n - 1, k);
    }
  }

  lemma {:induction false} LastMatchSome(cs: seq<Option<Macro>>, n: nat, k: Macro)
    requires n <= |cs| && LastMatch(cs, n, k).Some?
    ensures var j := LastMatch(cs, n, k).value;
      j < n && cs[j] == Some(k) && forall j' :: j < j' < n ==> cs[j'] != Some(k)
  {
    if cs[n - 1] != Some(k) {
      LastMatchSome(cs, n - 1, k);
    }
  }

  /**
    A macro is missing from the dictionary exactly when no column is
    classified as it; otherwise its index is such a column and no later
    column is (the last matching column wins).
  */
  lemma ColumnMapLastMatchWins(cs: seq<Option<Macro>>, n: nat, k: Macro)
    requires n <= |cs|
    ensures Lookup(MapUpTo(cs, n), k).None? <==> forall j :: 0 <= j < n ==> cs[j] != Some(k)
    ensures var r := Lookup(MapUpTo(cs, n), k);
      r.Some? ==> r.value < n && cs[r.value] == Some(k) &&
                  forall j :: r.value < j < n ==> cs[j] != Some(k)
  {
    LookupIsLastMatch(cs, n, k);
    LastMatchNone(cs, n, k);
    if LastMatch(cs, n, k).Some? {
      LastMatchSome(cs, n, k);
    }
  }

  /** The first of the first `n` columns that is classified as `k`, if any. */
  function FirstMatchBelow(cs: seq<Option<Macro>>, k: Macro, n: nat): (r: Option<nat>)
    requires n <= |cs|
    ensures r.Some? ==> r.value < n && cs[r.value] == Some(k)
  {
    if n == 0 then None
    else match FirstMatchBelow(cs, k, n - 1)
      case Some(j) => Some(j)
      case None => if cs[n - 1] == Some(k) then Some(n - 1) else None
  }

  /**
    `FirstMatchBelow` finds nothing exactly when no column matches, and what
    it finds has no matching column before it.
  */
  lemma {:induction false} FirstMatchBelowIsFirst(cs: seq<Option<Macro>>, k: Macro, n: nat)
    requires n <= |cs|
    ensures FirstMatchBelow(cs, k, n).None? <==> forall j :: 0 <= j < n ==> cs[j] != Some(k)
    ensures var r := FirstMatchBelow(cs, k, n);
      r.Some? ==> forall j :: 0 <= j < r.value ==> cs[j] != Some(k)
  {
    if n > 0 {
      FirstMatchBelowIsFirst(cs, k, n - 1);
    }
  }

  /**
    Every key of `m` has a matching column among the first `n`, and the keys
    stand in the order of their first matching columns.
  */
  predicate OrderedByFirstMatch(cs: seq<Option<Macro>>, m: ColMap, n: nat)
    requires n <= |cs|
  {
    && (forall p :: 0 <= p < |m| ==> FirstMatchBelow(cs, m[p].0, n).Some?)
    && (forall p, q :: 0 <= p < q < |m| ==>
          FirstMatchBelow(cs, m[p].0, n).value < FirstMatchBelow(cs, m[q].0, n).value)
  }

  /** The keys of the dictionary stand in the order in which their first matching columns appear. */
  lemma {:induction false} ColumnMapKeyOrder(cs: seq<Option<Macro>>, n: nat)
    requires n <= |cs|
    ensures OrderedByFirstMatch(cs, MapUpTo(cs, n), n)
  {
    if n > 0 {
      var m := MapUpTo(cs, n - 1);
      ColumnMapKeyOrder(cs, n - 1);
      match cs[n - 1]
      case None =>
        assert MapUpTo(cs, n) == m;
        OrderedOneMoreColumn(cs, m, n);
      case Some(k) =>
        assert MapUpTo(cs, n) == Put(m, k, n - 1);
        ColumnMapLastMatchWins(cs, n - 1, k);
        FirstMatchBelowIsFirst(cs, k, n - 1);
        if Lookup(m, k).None? {
          OrderedAppend(cs, m, k, n);
        } else {
          OrderedOneMoreColumn(cs, m, n);
          PutExisting(m, k, n - 1);
          OrderedSameKeys(cs, m, Put(m, k, n - 1), n);
        }
    }
  }

  lemma OrderedOneMoreColumn(cs: seq<Option<Macro>>, m: ColMap, n: nat)
    requires 0 < n <= |cs| && OrderedByFirstMatch(cs, m, n - 1)
    ensures OrderedByFirstMatch(cs, m, n)
    ensures forall p :: 0 <= p < |m| ==> FirstMatchBelow(cs, m[p].0, n) == FirstMatchBelow(cs, m[p].0, n - 1)
  {
  }

  lemma OrderedSameKeys(cs: seq<Option<Macro>>, m: ColMap, r: ColMap, n: nat)
    requires n <= |cs| && OrderedByFirstMatch(cs, m, n)
    requires |r| == |m| && forall p :: 0 <= p < |m| ==> r[p].0 == m[p].0
    ensures OrderedByFirstMatch(cs, r, n)
  {
  }

  lemma OrderedAppend(cs: seq<Option<Macro>>, m: ColMap, k: Macro, n: nat)
    requires 0 < n <= |cs| && OrderedByFirstMatch(cs, m, n - 1)
    requires cs[n - 1] == Some(k) && FirstMatchBelow(cs, k, n - 1).None?
    ensures OrderedByFirstMatch(cs, m + [(k, n - 1)], n)
  {
  }

  // ----- what a column is matched on --------------------------------------

  /** The raw string of a cell, `None` giving "". */
  function RawText(c: Cell): string {
    if c.Some? then c.value else ""
  }

  function RawJoin(col: seq<Cell>): string {
    if col == [] then "" else RawText(col[0]) + RawJoin(col[1..])
  }

  /**
    Matching ignores case and whitespace, and a missing cell contributes the
    empty string: a column's word is its raw cells, concatenated, with every
    whitespace character dropped and every ASCII letter lower-cased; the
    per-cell `strip()` changes nothing.
  */
  lemma {:induction false} ColumnWordIsNormalizedText(col: seq<Cell>)
    ensures ColumnWord(col) == Lower(RemoveSpaces(RawJoin(col)))
  {
    LowerRemoveSpacesCommute(Join(col));
    JoinMatchesRaw(col);
  }

  lemma {:induction false} JoinMatchesRaw(col: seq<Cell>)
    ensures RemoveSpaces(Join(col)) == RemoveSpaces(RawJoin(col))
  {
    if col != [] {
      JoinMatchesRaw(col[1..]);
      RemoveSpacesAppend(CellText(col[0]), Join(col[1..]));
      RemoveSpacesAppend(RawText(col[0]), RawJoin(col[1..]));
    }
  }

  lemma {:induction false} LowerRemoveSpacesCommute(s: string)
    ensures RemoveSpaces(Lower(s)) == Lower(RemoveSpaces(s))
  {
    if s != [] {
      assert Lower(s)[1..] == Lower(s[1..]);
      LowerRemoveSpacesCommute(s[1..]);
      var head := if IsSpace(s[0]) then [] else [s[0]];
      assert RemoveSpaces(s) == head + RemoveSpaces(s[1..]);
      assert Lower(head + RemoveSpaces(s[1..])) == Lower(head) + Lower(RemoveSpaces(s[1..]));
    }
  }
}
