/**
 * The meal-plan response parser inside `handleSubmit` of
 * app/components/MealGenerator.tsx: from the raw text of a model response it
 * builds the list of meals, either from markdown-table rows (an open meal
 * that each bold header flushes) or from bullet and numbered lines (three
 * fixed Breakfast/Lunch/Dinner slots), falls back to a fixed three-meal plan,
 * then sets each description and shares the aggregate macros out evenly.
 *
 * Each strategy is a method with a loop, proved equal to a fold
 * (`TableRun`, `LineRun`) whose contracts carry the invariants.
 */
module MealParser {
  import opened Text
  import opened Wrappers
  import opened MealPatterns

  datatype Meal = Meal(
    name: string,
    items: seq<string>,
    description: string,
    calories: nat,
    protein: nat,
    carbs: nat,
    fat: nat)

  function Blank(name: string): Meal {
    Meal(name, [], "", 0, 0, 0, 0)
  }

  // ---------------------------------------------------------------------
  // Item lists

  predicate NoDup(xs: seq<string>) {
    forall i, j :: 0 <= i < j < |xs| ==> xs[i] != xs[j]
  }

  /** Neither end of `s` is white space. */
  predicate Trimmed(s: string) {
    s == [] || (!IsSpace(s[0]) && !IsSpace(s[|s| - 1]))
  }

  /** `[...new Set(xs)]`: first occurrences, in order. */
  function Dedupe(xs: seq<string>): (r: seq<string>)
    ensures NoDup(r)
    ensures forall x :: x in r <==> x in xs
  {
    if xs == [] then []
    else
      var d := Dedupe(xs[..|xs| - 1]);
      var x := xs[|xs| - 1];
      assert forall y :: y in xs <==> y in xs[..|xs| - 1] || y == x;
      if x in d then d else d + [x]
  }

  lemma {:induction false} DedupeOfNoDup(xs: seq<string>)
    requires NoDup(xs)
    ensures Dedupe(xs) == xs
  {
    if xs != [] {
      var init := xs[..|xs| - 1];
      DedupeOfNoDup(init);
      assert xs == init + [xs[|xs| - 1]];
    }
  }

  /** Adding more input only ever appends to the deduplicated list. */
  lemma {:induction false} DedupeExtends(a: seq<string>, b: seq<string>)
    ensures |Dedupe(a)| <= |Dedupe(a + b)| && Dedupe(a + b)[..|Dedupe(a)|] == Dedupe(a)
  {
    if b == [] {
      assert a + b == a;
    } else {
      var b' := b[..|b| - 1];
      DedupeExtends(a, b');
      assert (a + b)[..|a + b| - 1] == a + b';
    }
  }

  /** `.slice(0, 3)` */
  function Take3(xs: seq<string>): (r: seq<string>)
    ensures |r| <= 3
    ensures |xs| <= 3 ==> r == xs
    ensures |xs| > 3 ==> r == xs[..3]
  {
    if |xs| <= 3 then xs else xs[..3]
  }

  /**
   * `[...new Set([...existing, ...incoming])].slice(0, 3)` of the table
   * strategy: no duplicates, at most three, the old items stay in front, and
   * a full list of three never changes.
   */
  function Merge(existing: seq<string>, incoming: seq<string>): (r: seq<string>)
    ensures |r| <= 3 && NoDup(r)
    ensures forall x :: x in r ==> x in existing || x in incoming
    ensures NoDup(existing) && |existing| <= 3 ==> |existing| <= |r| && r[..|existing|] == existing
    ensures NoDup(existing) && |existing| == 3 ==> r == existing
    ensures |r| < 3 ==> forall x :: x in existing || x in incoming ==> x in r
    ensures r == Take3(Dedupe(existing + incoming))
  {
    var d := Dedupe(existing + incoming);
    assert forall x :: x in existing || x in incoming <==> x in existing + incoming;
    if NoDup(existing) && |existing| <= 3 then
      DedupeOfNoDup(existing);
      DedupeExtends(existing, incoming);
      Take3(d)
    else Take3(d)
  }

  /** `.map(s => s.trim())` */
  function TrimEach(xs: seq<string>): (r: seq<string>)
    ensures |r| == |xs| && forall k :: 0 <= k < |xs| ==> r[k] == Trim(xs[k])
  {
    seq(|xs|, k requires 0 <= k < |xs| => Trim(xs[k]))
  }

  lemma TrimEachCons(xs: seq<string>)
    requires xs != []
    ensures TrimEach(xs) == [Trim(xs[0])] + TrimEach(xs[1..])
  {
    hide TrimEach, Trim;
    var l, r := TrimEach(xs), [Trim(xs[0])] + TrimEach(xs[1..]);
    forall k | 0 <= k < |l| ensures l[k] == r[k] {
      if k > 0 {
        assert xs[1..][k - 1] == xs[k];
      }
    }
  }

  /** Every character of a trimmed piece comes from one of the pieces it was trimmed from. */
  lemma TrimEachChars(xs: seq<string>, r: seq<string>)
    requires forall x :: x in r ==> x in TrimEach(xs)
    ensures forall x, c :: x in r && c in x ==> exists k :: 0 <= k < |xs| && c in xs[k]
  {
    forall x, c | x in r && c in x ensures exists k :: 0 <= k < |xs| && c in xs[k] {
      var k :| 0 <= k < |xs| && TrimEach(xs)[k] == x;
      assert c in xs[k];
    }
  }

  /** `.map(s => s.trim()).filter(s => s)` */
  function TrimmedNonEmpty(xs: seq<string>): (r: seq<string>)
    ensures forall x :: x in r ==> x != "" && Trimmed(x)
    ensures forall x, c :: x in r && c in x ==> exists k :: 0 <= k < |xs| && c in xs[k]
    ensures forall x :: x in r <==> x != "" && x in TrimEach(xs)
  {
    if xs == [] then []
    else
      var t := Trim(xs[0]);
      var rest := TrimmedNonEmpty(xs[1..]);
      TrimEachCons(xs);
      var r := (if t != "" then [t] else []) + rest;
      assert forall x :: x in r <==> (x == t && t != "") || x in rest;
      TrimEachChars(xs, r);
      r
  }

  /** One step of the filter: the head's trim is kept unless it is blank. */
  lemma TrimmedNonEmptyCons(xs: seq<string>)
    requires xs != []
    ensures TrimmedNonEmpty(xs) == (if Trim(xs[0]) != "" then [Trim(xs[0])] else []) + TrimmedNonEmpty(xs[1..])
  {
  }

  lemma StringsAssoc(x: seq<string>, y: seq<string>, z: seq<string>)
    ensures x + (y + z) == (x + y) + z
  {
  }

  /** Order is kept: the trimmed pieces of a concatenation are those of each part, in turn. */
  lemma {:induction false} TrimmedNonEmptyConcat(a: seq<string>, b: seq<string>)
    ensures TrimmedNonEmpty(a + b) == TrimmedNonEmpty(a) + TrimmedNonEmpty(b)
  {
    if a == [] {
      assert a + b == b;
    } else {
      hide TrimmedNonEmpty;
      var head := if Trim(a[0]) != "" then [Trim(a[0])] else [];
      assert (a + b)[0] == a[0] && (a + b)[1..] == a[1..] + b;
      TrimmedNonEmptyCons(a + b);
      TrimmedNonEmptyCons(a);
      TrimmedNonEmptyConcat(a[1..], b);
      StringsAssoc(head, TrimmedNonEmpty(a[1..]), TrimmedNonEmpty(b));
    }
  }

  /** The lines of the text: split on `\n`, trimmed, blank lines dropped. */
  function Lines(text: string): (r: seq<string>)
    ensures forall l :: l in r ==> l != "" && Trimmed(l) && '\n' !in l
    ensures forall l :: l in r <==> l != "" && l in TrimEach(Split(text, '\n'))
  {
    var pieces := Split(text, '\n');
    var r := TrimmedNonEmpty(pieces);
    assert forall l, c :: l in r && c in l ==> c != '\n' by {
      forall l, c | l in r && c in l ensures c != '\n' {
        var k :| 0 <= k < |pieces| && c in pieces[k];
      }
    }
    r
  }

  /** A single line gives itself, trimmed, unless it is blank. */
  lemma OneLine(s: string)
    requires '\n' !in s
    ensures Lines(s) == if Trim(s) == "" then [] else [Trim(s)]
  {
    SplitNoSeparator(s, '\n');
    assert [s][1..] == [];
    assert TrimmedNonEmpty([s]) == (if Trim(s) != "" then [Trim(s)] else []) + TrimmedNonEmpty([]);
  }

  /** The lines of two texts joined by a newline are the lines of the first, then those of the second. */
  lemma LinesConcat(a: string, b: string)
    ensures Lines(a + "\n" + b) == Lines(a) + Lines(b)
  {
    assert a + "\n" + b == a + ['\n'] + b;
    SplitConcat(a, b, '\n');
    TrimmedNonEmptyConcat(Split(a, '\n'), Split(b, '\n'));
  }

  /** An item as the parser may store it: non-empty, trimmed, and holding no `,` or `|`. */
  predicate CleanItem'(x: string) {
    x != "" && Trimmed(x) && ',' !in x && '|' !in x
  }

  predicate AllClean(xs: seq<string>) {
    forall x :: x in xs ==> CleanItem'(x)
  }

  /** Pieces cut at `seps` and trimmed contain none of `seps` and nothing `s` lacks. */
  lemma PiecesAvoid(s: string, seps: set<char>, banned: set<char>)
    requires forall c :: c in s ==> c !in banned
    ensures forall x :: x in TrimmedNonEmpty(SplitPieces(s, seps)) ==>
      x != "" && Trimmed(x) && forall c :: c in x ==> c !in seps && c !in banned
  {
    var ps := SplitPieces(s, seps);
    forall x, c | x in TrimmedNonEmpty(ps) && c in x ensures c !in seps && c !in banned {
      var k :| 0 <= k < |ps| && c in ps[k];
    }
  }

  // ---------------------------------------------------------------------
  // Table strategy (lines 131-186)

  /** `line.startsWith('|--') || line.startsWith('| Meal') || line === '|'` */
  predicate SkippedRow(line: string) {
    StartsWith(line, "|--") || StartsWith(line, "| Meal") || line == "|"
  }

  /** Cell text that the table strategy treats as table furniture. */
  predicate TableNoise(s: string) {
    Contains(s, "---") || Contains(s, "Meal") || Contains(s, "Food Type")
  }

  /** `.filter(item => item && !item.includes('---') && ...)`: the non-empty items that are not noise, in order. */
  function DropNoise(xs: seq<string>): (r: seq<string>)
    ensures forall x :: x in r <==> x in xs && x != "" && !TableNoise(x)
  {
    if xs == [] then []
    else
      assert forall x :: x in xs <==> x == xs[0] || x in xs[1..];
      (if xs[0] != "" && !TableNoise(xs[0]) then [xs[0]] else []) + DropNoise(xs[1..])
  }

  /** Order is kept: the filter of a concatenation is the filter of each part, in turn. */
  lemma {:induction false} DropNoiseConcat(a: seq<string>, b: seq<string>)
    ensures DropNoise(a + b) == DropNoise(a) + DropNoise(b)
  {
    if a == [] {
      assert a + b == b;
    } else {
      assert (a + b)[0] == a[0] && (a + b)[1..] == a[1..] + b;
      DropNoiseConcat(a[1..], b);
    }
  }

  /** The items of a header row's second cell: cut at `<br>`, `,`, `|`, trimmed, noise dropped. */
  function HeaderCellItems(cell: string): (r: seq<string>)
    ensures AllClean(r)
    ensures forall x :: x in r <==> x != "" && !TableNoise(x) && x in TrimEach(SplitPieces(cell, {',', '|'}))
  {
    var pieces := SplitPieces(cell, {',', '|'});
    PiecesAvoid(cell, {',', '|'}, {});
    var trimmed := TrimmedNonEmpty(pieces);
    DropNoise(trimmed)
  }

  /** The cells of a continuation row: cut at `|`, trimmed, and kept unless empty, `•` or noise. */
  function RowParts(line: string): (r: seq<string>)
    ensures forall p :: p in r ==> '|' !in p
    ensures forall p :: p in r <==> KeptPart(p) && p in TrimEach(Split(line, '|'))
  {
    var cells := Split(line, '|');
    var trimmed := TrimEach(cells);
    assert forall p :: p in trimmed ==> '|' !in p by {
      forall p | p in trimmed ensures '|' !in p {
        var k :| 0 <= k < |cells| && trimmed[k] == p;
      }
    }
    KeepParts(trimmed)
  }

  /** A continuation-row cell the table strategy keeps: not empty, not a lone `•`, not noise. */
  predicate KeptPart(x: string) {
    x != "" && x != "•" && !TableNoise(x)
  }

  function KeepParts(xs: seq<string>): (r: seq<string>)
    ensures forall x :: x in r <==> x in xs && KeptPart(x)
  {
    if xs == [] then []
    else
      assert forall x :: x in xs <==> x == xs[0] || x in xs[1..];
      (if KeptPart(xs[0]) then [xs[0]] else []) + KeepParts(xs[1..])
  }

  /** Order is kept: the cells kept from a concatenation are those kept from each part, in turn. */
  lemma {:induction false} KeepPartsConcat(a: seq<string>, b: seq<string>)
    ensures KeepParts(a + b) == KeepParts(a) + KeepParts(b)
  {
    if a == [] {
      assert a + b == b;
    } else {
      assert (a + b)[0] == a[0] && (a + b)[1..] == a[1..] + b;
      KeepPartsConcat(a[1..], b);
    }
  }

  /** The sub-items of one cell: cut at `<br>`, `,`, `•`, trimmed, blanks dropped. */
  function SubItems(part: string): (r: seq<string>)
    ensures '|' !in part ==> AllClean(r)
    ensures forall x :: x in r <==> x != "" && x in TrimEach(SplitPieces(part, {',', '•'}))
  {
    if '|' !in part then
      PiecesAvoid(part, {',', '•'}, {'|'});
      TrimmedNonEmpty(SplitPieces(part, {',', '•'}))
    else TrimmedNonEmpty(SplitPieces(part, {',', '•'}))
  }

  /** What the table strategy may hold in a meal. */
  predicate GoodTableMeal(m: Meal) {
    |m.items| <= 3 && NoDup(m.items) && AllClean(m.items)
  }

  /** One turn of the `items.forEach` over a continuation row's cells. */
  function AddPart(m: Meal, part: string): (r: Meal)
    ensures r.name == m.name
    ensures r.items == Merge(m.items, SubItems(part)) && r.description == Join(r.items, ", ")
    ensures r == m.(items := r.items, description := r.description)
    ensures NoDup(m.items) && |m.items| <= 3 ==> |m.items| <= |r.items| && r.items[..|m.items|] == m.items
  {
    var items := Merge(m.items, SubItems(part));
    m.(items := items, description := Join(items, ", "))
  }

  /** The whole `items.forEach`, as a fold over the cells. */
  function AddParts(m: Meal, parts: seq<string>): (r: Meal)
    ensures r.name == m.name
    ensures GoodTableMeal(m) && (forall p :: p in parts ==> '|' !in p) ==> GoodTableMeal(r)
    ensures NoDup(m.items) && |m.items| == 3 ==> r.items == m.items
  {
    if parts == [] then m
    else
      var last := parts[|parts| - 1];
      var r := AddPart(AddParts(m, parts[..|parts| - 1]), last);
      assert '|' !in last ==> AllClean(SubItems(last));
      r
  }

  datatype TableState = TableState(meals: seq<Meal>, current: Meal)

  /** Before the first line: no meals, and an open meal with no name. */
  const TableStart: TableState := TableState([], Blank(""))

  predicate TableInv(st: TableState) {
    GoodTableMeal(st.current)
    && (forall m :: m in st.meals ==> GoodTableMeal(m) && |m.items| >= 1)
  }

  /** The body of the `for (const line of lines)` loop of the table strategy. */
  function TableStep(st: TableState, line: string): (r: TableState)
    ensures TableInv(st) ==> TableInv(r)
    ensures SkippedRow(line) ==> r == st
    ensures !SkippedRow(line) && HeaderName(line).Some? ==>
              r.meals == st.meals + (if |st.current.items| > 0 then [st.current] else [])
              && r.current == Blank(HeaderName(line).value).(items :=
                   if HeaderItemCell(line).Some? && HeaderItemCell(line).value != ""
                   then Merge([], HeaderCellItems(HeaderItemCell(line).value)) else [])
    ensures !SkippedRow(line) && HeaderName(line).None? ==>
              r.meals == st.meals && r.current == AddParts(st.current, RowParts(line))
  {
    if SkippedRow(line) then st
    else
      match HeaderName(line)
      case Some(name) =>
        var meals := if |st.current.items| > 0 then st.meals + [st.current] else st.meals;
        var cell := HeaderItemCell(line);
        var items := if cell.Some? && cell.value != "" then Merge([], HeaderCellItems(cell.value)) else [];
        TableState(meals, Blank(name).(items := items))
      case None =>
        var parts := RowParts(line);
        TableState(st.meals, AddParts(st.current, parts))
  }

  function TableRun(st: TableState, lines: seq<string>): (r: TableState)
    ensures TableInv(st) ==> TableInv(r)
  {
    if lines == [] then st else TableStep(TableRun(st, lines[..|lines| - 1]), lines[|lines| - 1])
  }

  /** The meals flushed so far are never changed or dropped by later lines. */
  lemma {:induction false} TableRunKeepsMeals(st: TableState, lines: seq<string>)
    ensures |st.meals| <= |TableRun(st, lines).meals| && TableRun(st, lines).meals[..|st.meals|] == st.meals
  {
    if lines != [] {
      var init := lines[..|lines| - 1];
      TableRunKeepsMeals(st, init);
      var mid := TableRun(st, init);
      assert mid.meals[..|st.meals|] == st.meals;
      var r := TableStep(mid, lines[|lines| - 1]);
      assert |mid.meals| <= |r.meals| && r.meals[..|mid.meals|] == mid.meals;
      assert r.meals[..|st.meals|] == mid.meals[..|st.meals|];
    }
  }

  /** Lines without a header row flush nothing and keep the open meal's name. */
  lemma {:induction false} TableRunNoHeader(st: TableState, lines: seq<string>)
    requires forall l :: l in lines ==> HeaderName(l).None?
    ensures TableRun(st, lines).meals == st.meals && TableRun(st, lines).current.name == st.current.name
  {
    if lines != [] {
      var init := lines[..|lines| - 1];
      assert forall l :: l in init ==> l in lines;
      assert lines[|lines| - 1] in lines;
      TableRunNoHeader(st, init);
    }
  }

  /** After the loop the open meal is pushed when its trimmed name is not empty, even with no items. */
  function TableResult(lines: seq<string>): seq<Meal> {
    var st := TableRun(TableStart, lines);
    if Trim(st.current.name) != "" then st.meals + [st.current] else st.meals
  }

  /**
   * Table-strategy output: at most three distinct clean items per meal; every
   * meal but the last has an item, and a last meal without items has a name.
   */
  lemma TableResultShape(lines: seq<string>)
    ensures forall m :: m in TableResult(lines) ==> GoodTableMeal(m)
    ensures forall k :: 0 <= k < |TableResult(lines)| - 1 ==> |TableResult(lines)[k].items| >= 1
    ensures var r := TableResult(lines);
      |r| > 0 && r[|r| - 1].items == [] ==> Trim(r[|r| - 1].name) != ""
    ensures var st, r := TableRun(TableStart, lines), TableResult(lines);
      |st.meals| <= |r| && r[..|st.meals|] == st.meals
      && (|r| == |st.meals| + 1 <==> Trim(st.current.name) != "") && (|r| > |st.meals| ==> r[|r| - 1] == st.current)
  {
    assert TableInv(TableStart);
    var st := TableRun(TableStart, lines);
    assert (st.meals + [st.current])[..|st.meals|] == st.meals;
  }

  /** Running over `a + b` is running over `a`, then over `b`. */
  lemma {:induction false} TableRunConcat(st: TableState, a: seq<string>, b: seq<string>)
    ensures TableRun(st, a + b) == TableRun(TableRun(st, a), b)
    decreases |b|
  {
    if b == [] {
      assert a + b == a;
    } else {
      var init := b[..|b| - 1];
      assert (a + b)[..|a + b| - 1] == a + init;
      assert (a + b)[|a + b| - 1] == b[|b| - 1];
      TableRunConcat(st, a, init);
    }
  }

  /**
   * Rows before the first header row fill the initial meal, which has no
   * name. The first header row pushes it when it has items, so a table meal
   * can be nameless.
   */
  lemma NamelessMealPushed(first: string, header: string, rest: seq<string>)
    requires !SkippedRow(first) && HeaderName(first).None? && AddParts(Blank(""), RowParts(first)).items != []
    requires !SkippedRow(header) && HeaderName(header).Some?
    ensures var r := TableResult([first, header] + rest);
      |r| >= 1 && r[0] == AddParts(Blank(""), RowParts(first)) && r[0].name == "" && r[0].items != []
  {
    hide TableRun, TableStep, TableResult, AddParts, RowParts, HeaderName, SkippedRow, HeaderItemCell, HeaderCellItems, Merge, Trim;
    var lines := [first, header];
    HeaderPushesFirstMeal(first, header);
    TableRunConcat(TableStart, lines, rest);
    TableRunKeepsMeals(TableRun(TableStart, lines), rest);
    TableResultShape(lines + rest);
  }

  /** The two rows on their own: the header row pushes the meal the first row filled. */
  lemma HeaderPushesFirstMeal(first: string, header: string)
    requires !SkippedRow(first) && HeaderName(first).None? && AddParts(Blank(""), RowParts(first)).items != []
    requires !SkippedRow(header) && HeaderName(header).Some?
    ensures TableRun(TableStart, [first, header]).meals == [AddParts(Blank(""), RowParts(first))]
  {
    hide TableStep, AddParts, RowParts, HeaderName, SkippedRow, HeaderItemCell, HeaderCellItems, Merge;
    var s1 := TableStep(TableStart, first);
    var s2 := TableStep(s1, header);
    assert s1.meals == [] && s1.current == AddParts(Blank(""), RowParts(first));
    assert s2.meals == [s1.current];
    assert TableRun(TableStart, [first]) == s1 by {
      assert [first][..0] == [];
    }
    assert [first, header][..1] == [first];
  }

  /** A table with no header row gives no meals: the open meal never gets a name. */
  lemma TableNoHeaderNoMeals(lines: seq<string>)
    requires forall l :: l in lines ==> HeaderName(l).None?
    ensures TableResult(lines) == []
  {
    TableRunNoHeader(TableStart, lines);
    assert Trim("") == "";
  }

  /** The `items.forEach` of a continuation row, updating the open meal cell by cell. */
  method AddCells(open: Meal, parts: seq<string>) returns (current: Meal)
    ensures current == AddParts(open, parts)
  {
    current := open;
    for j := 0 to |parts|
      invariant current == AddParts(open, parts[..j])
    {
      assert parts[..j + 1][..j] == parts[..j];
      var subItems := SubItems(parts[j]);
      current := current.(items := Merge(current.items, subItems));
      current := current.(description := Join(current.items, ", "));
    }
    assert parts[..|parts|] == parts;
  }

  method TableStrategy(lines: seq<string>) returns (meals: seq<Meal>)
    ensures meals == TableResult(lines)
  {
    meals := [];
    var current := Blank("");
    for i := 0 to |lines|
      invariant TableState(meals, current) == TableRun(TableStart, lines[..i])
    {
      var line := lines[i];
      ghost var before := TableState(meals, current);
      assert lines[..i + 1][..i] == lines[..i];
      assert TableRun(TableStart, lines[..i + 1]) == TableStep(before, line);
      if SkippedRow(line) {
        continue;
      }
      var header := HeaderName(line);
      if header.Some? {
        if |current.items| > 0 {
          meals := meals + [current];
        }
        current := Blank(header.value);
        var cell := HeaderItemCell(line);
        if cell.Some? && cell.value != "" {
          current := current.(items := Merge(current.items, HeaderCellItems(cell.value)));
        }
      } else {
        var parts := RowParts(line);
        current := AddCells(current, parts);
      }
    }
    assert lines[..|lines|] == lines;
    if Trim(current.name) != "" {
      meals := meals + [current];
    }
  }

  // ---------------------------------------------------------------------
  // Line strategy (lines 187-255)

  const SlotNames: seq<string> := ["Breakfast", "Lunch", "Dinner"]

  /** The slot test of `findIndex`: equal names, or the slot's name inside the header, ignoring case. */
  predicate SlotMatches(name: string, k: nat)
    requires k < 3
  {
    ToLower(SlotNames[k]) == ToLower(name) || Contains(ToLower(name), ToLower(SlotNames[k]))
  }

  /** `defaultMeals.findIndex(...)`: the first matching slot, or -1. */
  function FindSlot(name: string): (k: int)
    ensures -1 <= k < 3
    ensures k >= 0 ==> SlotMatches(name, k) && forall j :: 0 <= j < k ==> !SlotMatches(name, j)
    ensures k == -1 ==> forall j :: 0 <= j < 3 ==> !SlotMatches(name, j)
  {
    if SlotMatches(name, 0) then 0
    else if SlotMatches(name, 1) then 1
    else if SlotMatches(name, 2) then 2
    else -1
  }

  /** An item the line strategy may store: clean, and without a `•`. */
  predicate LineItem(x: string) {
    CleanItem'(x) && '•' !in x
  }

  /** The sub-items of a cleaned item text: cut at `<br>`, `,`, `•`, trimmed, blanks dropped. */
  function LineSubItems(item: string): (r: seq<string>)
    requires '|' !in item
    ensures forall x :: x in r ==> LineItem(x)
    ensures forall x :: x in r <==> x != "" && x in TrimEach(SplitPieces(item, {',', '•'}))
  {
    PiecesAvoid(item, {',', '•'}, {'|'});
    TrimmedNonEmpty(SplitPieces(item, {',', '•'}))
  }

  datatype LineState = LineState(slots: seq<Meal>, index: int)

  /** The three empty slots and no current slot (`currentMealIndex = -1`). */
  const LineStart: LineState := LineState([Blank("Breakfast"), Blank("Lunch"), Blank("Dinner")], -1)

  /** Slot `k` keeps its name and holds at most three line items. */
  predicate SlotOk(m: Meal, k: nat)
    requires k < 3
  {
    m.name == SlotNames[k] && |m.items| <= 3 && forall x :: x in m.items ==> LineItem(x)
  }

  predicate LineInv(st: LineState) {
    |st.slots| == 3 && -1 <= st.index < 3 && forall k :: 0 <= k < 3 ==> SlotOk(st.slots[k], k)
  }

  /** Adds an item line's sub-items to the current slot, up to three. */
  function FillSlot(st: LineState, item: string): (r: LineState)
    requires LineInv(st) && st.index >= 0 && '|' !in item
    ensures LineInv(r) && r.index == st.index
    ensures var old_items := st.slots[st.index].items;
      r.slots[st.index] == st.slots[st.index].(items := Take3(old_items + LineSubItems(item)))
      && r.slots[st.index].items[..|old_items|] == old_items
    ensures forall k :: 0 <= k < 3 && k != st.index ==> r.slots[k] == st.slots[k]
  {
    var slot := st.slots[st.index];
    var slot' := slot.(items := Take3(slot.items + LineSubItems(item)));
    FilledSlotOk(slot, st.index, LineSubItems(item));
    SlotUpdateKeepsInv(st, st.index, slot');
    st.(slots := st.slots[st.index := slot'])
  }

  /** A slot topped up with line items, up to three, is still well-formed and keeps its old items in front. */
  lemma FilledSlotOk(slot: Meal, k: nat, sub: seq<string>)
    requires k < 3 && SlotOk(slot, k) && forall x :: x in sub ==> LineItem(x)
    ensures SlotOk(slot.(items := Take3(slot.items + sub)), k)
    ensures Take3(slot.items + sub)[..|slot.items|] == slot.items
  {
    var items := Take3(slot.items + sub);
    forall x | x in items ensures LineItem(x) {
      var i :| 0 <= i < |items| && items[i] == x;
      assert x == (slot.items + sub)[i];
    }
    assert items[..|slot.items|] == (slot.items + sub)[..|slot.items|];
  }

  /** Replacing one slot by a well-formed one keeps the line-strategy state well-formed. */
  lemma SlotUpdateKeepsInv(st: LineState, k: nat, m: Meal)
    requires LineInv(st) && k < 3 && SlotOk(m, k)
    ensures LineInv(st.(slots := st.slots[k := m]))
  {
    hide SlotOk;
    var slots := st.slots[k := m];
    forall j | 0 <= j < 3 ensures SlotOk(slots[j], j) {
      if j != k { assert slots[j] == st.slots[j]; }
    }
  }

  /** The body of the `for (const line of lines)` loop of the line strategy. */
  function LineStep(st: LineState, line: string): (r: LineState)
    requires LineInv(st)
    ensures LineInv(r)
    ensures Trim(line) == "" ==> r == st
    ensures Trim(line) != "" && MealHeader(Trim(line)).Some? ==> r == st.(index := FindSlot(MealHeader(Trim(line)).value))
    ensures Trim(line) != "" && MealHeader(Trim(line)).None? ==>
              r.index == st.index && (st.index == -1 || |st.slots[st.index].items| == 3 ==> r == st)
  {
    var trimmed := Trim(line);
    if trimmed == "" then st
    else
      match MealHeader(trimmed)
      case Some(name) => st.(index := FindSlot(name))
      case None =>
        if st.index >= 0 && |st.slots[st.index].items| < 3 then
          var item := CleanItem(line);
          if item != "" && !IsRule(item) then FillSlot(st, item) else st
        else st
  }

  function LineRun(st: LineState, lines: seq<string>): (r: LineState)
    requires LineInv(st)
    ensures LineInv(r)
  {
    if lines == [] then st else LineStep(LineRun(st, lines[..|lines| - 1]), lines[|lines| - 1])
  }

  /** `defaultMeals.filter(meal => meal.items.length > 0)` */
  function NonEmptyMeals(ms: seq<Meal>): (r: seq<Meal>)
    ensures forall m :: m in r ==> m in ms && |m.items| > 0
    ensures forall m :: m in ms && |m.items| > 0 ==> m in r
  {
    if ms == [] then []
    else (if |ms[0].items| > 0 then [ms[0]] else []) + NonEmptyMeals(ms[1..])
  }

  function LineResult(lines: seq<string>): seq<Meal> {
    NonEmptyMeals(LineRun(LineStart, lines).slots)
  }

  /** Position of a slot name in Breakfast, Lunch, Dinner. */
  function SlotRank(name: string): nat {
    if name == "Breakfast" then 0 else if name == "Lunch" then 1 else 2
  }

  function Keep(m: Meal): seq<Meal> {
    if |m.items| > 0 then [m] else []
  }

  /** Filtering the three named slots keeps them in slot order. */
  lemma FilterSlots(slots: seq<Meal>)
    requires |slots| == 3
    requires slots[0].name == "Breakfast" && slots[1].name == "Lunch" && slots[2].name == "Dinner"
    ensures var r := NonEmptyMeals(slots);
      |r| <= 3 && forall i, j :: 0 <= i < j < |r| ==> SlotRank(r[i].name) < SlotRank(r[j].name)
  {
    var a, b, c := slots[0], slots[1], slots[2];
    NonEmptyOfThree(slots);
    assert SlotRank(a.name) == 0 && SlotRank(b.name) == 1 && SlotRank(c.name) == 2;
    KeptInOrder(a, b, c);
  }

  lemma NonEmptyOfThree(slots: seq<Meal>)
    requires |slots| == 3
    ensures NonEmptyMeals(slots) == Keep(slots[0]) + (Keep(slots[1]) + Keep(slots[2]))
  {
    var a, b, c := slots[0], slots[1], slots[2];
    assert slots[1..] == [b, c];
    assert [b, c][1..] == [c];
    assert [c][1..] == [];
    assert NonEmptyMeals([c]) == Keep(c) + NonEmptyMeals([]) == Keep(c);
    assert NonEmptyMeals([b, c]) == Keep(b) + Keep(c);
  }

  /** Keeping some of three meals of increasing rank keeps the ranks increasing. */
  lemma KeptInOrder(a: Meal, b: Meal, c: Meal)
    requires SlotRank(a.name) < SlotRank(b.name) < SlotRank(c.name)
    ensures var r := Keep(a) + (Keep(b) + Keep(c));
      |r| <= 3 && forall i, j :: 0 <= i < j < |r| ==> SlotRank(r[i].name) < SlotRank(r[j].name)
  {
  }

  /**
   * Line-strategy output: the Breakfast, Lunch and Dinner slots that got an
   * item, in that order, each holding one to three clean items without `•`.
   */
  lemma LineResultShape(lines: seq<string>)
    ensures var r := LineResult(lines);
      |r| <= 3
      && (forall m :: m in r ==> (m.name in SlotNames && 1 <= |m.items| <= 3
            && forall x :: x in m.items ==> LineItem(x)))
      && (forall i, j :: 0 <= i < j < |r| ==> SlotRank(r[i].name) < SlotRank(r[j].name))
  {
    var slots := LineRun(LineStart, lines).slots;
    assert forall k :: 0 <= k < 3 ==> SlotOk(slots[k], k);
    assert SlotOk(slots[0], 0) && SlotOk(slots[1], 1) && SlotOk(slots[2], 2);
    FilterSlots(slots);
    var r := NonEmptyMeals(slots);
    forall m | m in r ensures m.name in SlotNames && 1 <= |m.items| <= 3 && forall x :: x in m.items ==> LineItem(x) {
      assert m in slots;
      var k :| 0 <= k < 3 && slots[k] == m;
      assert SlotOk(slots[k], k);
    }
  }

  /** Without a current slot, lines that are not headers change nothing: their items are dropped. */
  lemma {:induction false} ItemsWithoutSlotDropped(st: LineState, lines: seq<string>)
    requires LineInv(st) && st.index == -1
    requires forall l :: l in lines ==> MealHeader(Trim(l)).None?
    ensures LineRun(st, lines) == st
  {
    if lines != [] {
      var init := lines[..|lines| - 1];
      assert forall l :: l in init ==> l in lines;
      ItemsWithoutSlotDropped(st, init);
    }
  }

  /** Text with no header line gives the line strategy nothing. */
  lemma NoHeaderNoMeals(lines: seq<string>)
    requires forall l :: l in lines ==> MealHeader(Trim(l)).None?
    ensures LineResult(lines) == []
  {
    ItemsWithoutSlotDropped(LineStart, lines);
    assert NonEmptyMeals(LineStart.slots[2..]) == [];
    assert NonEmptyMeals(LineStart.slots[1..]) == [];
  }

  /** After a header that names no slot (a snack or a dessert, say), item lines are dropped until the next header. */
  lemma UnmatchedHeaderDropsItems(st: LineState, header: string, lines: seq<string>)
    requires LineInv(st)
    requires MealHeader(Trim(header)).Some? && FindSlot(MealHeader(Trim(header)).value) == -1
    requires forall l :: l in lines ==> MealHeader(Trim(l)).None?
    ensures LineRun(st, [header] + lines).slots == st.slots
  {
    var st' := LineStep(st, header);
    assert Trim(header) != "";
    assert st' == st.(index := -1);
    ItemsWithoutSlotDropped(st', lines);
    RunConcat(st, [header], lines);
    assert [header][..0] == [];
  }

  /** Running over `a + b` is running over `a`, then over `b`. */
  lemma {:induction false} RunConcat(st: LineState, a: seq<string>, b: seq<string>)
    requires LineInv(st)
    ensures LineRun(st, a + b) == LineRun(LineRun(st, a), b)
  {
    if b == [] {
      assert a + b == a;
    } else {
      var n := |b| - 1;
      assert (a + b)[..|a + b| - 1] == a + b[..n];
      RunConcat(st, a, b[..n]);
    }
  }

  /**
   * The line strategy does not remove repeats: while they fit, an item line's
   * pieces are appended as they are, whether or not the slot already holds them.
   */
  lemma LineItemsNotDeduplicated(st: LineState, line: string)
    requires LineInv(st) && st.index >= 0
    requires Trim(line) != "" && MealHeader(Trim(line)).None?
    requires CleanItem(line) != "" && !IsRule(CleanItem(line))
    requires |st.slots[st.index].items| + |LineSubItems(CleanItem(line))| <= 3
    ensures LineStep(st, line).slots[st.index].items
      == st.slots[st.index].items + LineSubItems(CleanItem(line))
    ensures LineStep(st, line).index == st.index
  {
    hide CleanItem, MealHeader, LineSubItems;
    var item := CleanItem(line);
    var trimmed := Trim(line);
    assert MealHeader(trimmed) == None;
    var xs := st.slots[st.index].items + LineSubItems(item);
    if |st.slots[st.index].items| < 3 {
      assert LineStep(st, line) == FillSlot(st, item);
      assert Take3(xs) == xs;
    } else {
      assert LineStep(st, line) == st;
      assert xs == st.slots[st.index].items;
    }
  }

  /** An item line read while a slot with room is selected: it fills the slot unless it cleans to nothing or a rule. */
  lemma LineStepItem(st: LineState, line: string)
    requires LineInv(st) && Trim(line) != "" && MealHeader(Trim(line)).None?
    requires st.index >= 0 && |st.slots[st.index].items| < 3
    ensures CleanItem(line) != "" && !IsRule(CleanItem(line)) ==> LineStep(st, line) == FillSlot(st, CleanItem(line))
    ensures CleanItem(line) == "" || IsRule(CleanItem(line)) ==> LineStep(st, line) == st
  {
  }

  /** The line strategy proper, with the three slots in an array updated in place. */
  method LineStrategy(lines: seq<string>) returns (meals: seq<Meal>)
    ensures meals == LineResult(lines)
  {
    var slots := new Meal[3];
    slots[0], slots[1], slots[2] := Blank("Breakfast"), Blank("Lunch"), Blank("Dinner");
    var index := -1;
    assert slots[..] == LineStart.slots;
    for i := 0 to |lines|
      invariant LineState(slots[..], index) == LineRun(LineStart, lines[..i])
    {
      var line := lines[i];
      ghost var before := LineState(slots[..], index);
      assert lines[..i + 1][..i] == lines[..i];
      assert LineRun(LineStart, lines[..i + 1]) == LineStep(before, line);
      var trimmed := Trim(line);
      if trimmed == "" {
        continue;
      }
      var header := MealHeader(trimmed);
      if header.Some? {
        index := FindSlot(header.value);
      } else if index >= 0 && |slots[index].items| < 3 {
        LineStepItem(before, line);
        var item := CleanItem(line);
        if item != "" && !IsRule(item) {
          var subItems := LineSubItems(item);
          slots[index] := slots[index].(items := Take3(slots[index].items + subItems));
          assert slots[..] == before.slots[index := slots[index]];
        }
      }
    }
    assert lines[..|lines|] == lines;
    meals := NonEmptyMeals(slots[..]);
  }

  // ---------------------------------------------------------------------
  // Fallback and post-processing (lines 259-274)

  const DefaultMeals: seq<Meal> := [
    Meal("Breakfast", ["Oatmeal with berries", "Greek yogurt", "Green smoothie"], "", 0, 0, 0, 0),
    Meal("Lunch", ["Grilled chicken salad", "Quinoa", "Fruit"], "", 0, 0, 0, 0),
    Meal("Dinner", ["Baked salmon", "Steamed vegetables", "Mixed salad"], "", 0, 0, 0, 0)
  ]

  /** The strategy the text selects, before the fallback. */
  function Strategy(text: string): seq<Meal> {
    var lines := Lines(text);
    if HasTableRow(text) then TableResult(lines) else LineResult(lines)
  }

  /** The meal list before post-processing: the strategy's meals, or the defaults when it found none. */
  function Parsed(text: string): seq<Meal> {
    var meals := Strategy(text);
    if |meals| == 0 then DefaultMeals else meals
  }

  /** `Math.round(a / n)` for a non-negative `a` and a positive `n`: the nearest integer, halves rounded up. */
  function RoundDiv(a: nat, n: nat): (r: nat)
    requires n > 0
    ensures n * (2 * r - 1) <= 2 * a < n * (2 * r + 1)
  {
    var q := (2 * a + n) / (2 * n);
    assert 2 * a + n == 2 * n * q + (2 * a + n) % (2 * n);
    q
  }

  /** The final `meals.map(...)`: description from the items, and each macro an even share of the aggregate. */
  function Enhance(meals: seq<Meal>, aggregate: Nutrition): (r: seq<Meal>)
    requires |meals| > 0
  {
    var n := |meals|;
    seq(n, k requires 0 <= k < n => meals[k].(
      description := Join(meals[k].items, ", "),
      calories := RoundDiv(aggregate.calories, n),
      protein := RoundDiv(aggregate.protein, n),
      carbs := RoundDiv(aggregate.carbs, n),
      fat := RoundDiv(aggregate.fat, n)))
  }

  /** What `handleSubmit` hands to `onMealGenerated` for this text and these aggregate figures. */
  function MealPlanOf(text: string, aggregate: Nutrition): seq<Meal> {
    Enhance(Parsed(text), aggregate)
  }

  /** Every meal the parser returns is as the caller is promised: at most three items, a matching description, even macros. */
  predicate Finished(meals: seq<Meal>, aggregate: Nutrition) {
    |meals| >= 1
    && forall m :: m in meals ==>
      |m.items| <= 3
      && m.description == Join(m.items, ", ")
      && m.calories == RoundDiv(aggregate.calories, |meals|)
      && m.protein == RoundDiv(aggregate.protein, |meals|)
      && m.carbs == RoundDiv(aggregate.carbs, |meals|)
      && m.fat == RoundDiv(aggregate.fat, |meals|)
  }

  /** Meals from either strategy, or the defaults, hold at most three items. */
  lemma ParsedBounded(text: string)
    ensures |Parsed(text)| >= 1
    ensures forall m :: m in Parsed(text) ==> |m.items| <= 3
  {
    hide TableResult, LineResult, Lines;
    var lines := Lines(text);
    var meals := Strategy(text);
    if |meals| == 0 {
      assert Parsed(text) == DefaultMeals;
      forall m | m in DefaultMeals ensures |m.items| <= 3 {
        assert m == DefaultMeals[0] || m == DefaultMeals[1] || m == DefaultMeals[2];
      }
    } else {
      assert Parsed(text) == meals;
      if HasTableRow(text) {
        assert meals == TableResult(lines);
        TableResultShape(lines);
      } else {
        assert meals == LineResult(lines);
        LineResultShape(lines);
      }
    }
  }

  /** The list is never empty, and post-processing keeps names and items and only sets descriptions and macros. */
  lemma MealPlanFinished(text: string, aggregate: Nutrition)
    ensures Finished(MealPlanOf(text, aggregate), aggregate)
    ensures var r, p := MealPlanOf(text, aggregate), Parsed(text);
      |r| == |p| && forall k :: 0 <= k < |r| ==> r[k].name == p[k].name && r[k].items == p[k].items
  {
    ParsedBounded(text);
    hide Parsed;
    var p := Parsed(text);
    var r := MealPlanOf(text, aggregate);
    forall m | m in r ensures |m.items| <= 3 {
      var k :| 0 <= k < |r| && r[k] == m;
      assert m.items == p[k].items && p[k] in p;
    }
  }

  /** The table strategy runs exactly when some line holds two `|`, header words or not. */
  lemma StrategyChoice(text: string)
    ensures (exists i, j :: PipePair(text, i, j)) ==> Strategy(text) == TableResult(Lines(text))
    ensures !(exists i, j :: PipePair(text, i, j)) ==> Strategy(text) == LineResult(Lines(text))
  {
    HasTableRowIff(text);
  }

  /** When neither strategy finds a meal, the result is the three fixed default meals, finished like any other. */
  lemma FallbackIsDefault(text: string, aggregate: Nutrition)
    requires Strategy(text) == []
    ensures var r := MealPlanOf(text, aggregate);
      |r| == 3
      && forall k :: 0 <= k < 3 ==>
        r[k].name == DefaultMeals[k].name && r[k].items == DefaultMeals[k].items
        && r[k].description == Join(DefaultMeals[k].items, ", ")
        && r[k].calories == RoundDiv(aggregate.calories, 3)
  {
    hide Strategy;
    assert Parsed(text) == DefaultMeals;
  }

  /** The parsing and post-processing body of `handleSubmit`, for a response text and the aggregate figures in force. */
  method ParseMealPlan(responseText: string, aggregate: Nutrition) returns (meals: seq<Meal>)
    ensures meals == MealPlanOf(responseText, aggregate)
    ensures Finished(meals, aggregate)
  {
    hide TableResult, LineResult, Lines, Enhance, Finished;
    var lines := Lines(responseText);
    var parsed: seq<Meal>;
    if HasTableRow(responseText) {
      parsed := TableStrategy(lines);
    } else {
      parsed := LineStrategy(lines);
    }
    if |parsed| == 0 {
      parsed := parsed + DefaultMeals;
    }
    assert parsed == Parsed(responseText);
    meals := Enhance(parsed, aggregate);
    MealPlanFinished(responseText, aggregate);
  }

  /** `data.response || ''` */
  function ResponseText(response: Option<string>): string {
    match response
    case Some(t) => t
    case None => ""
  }

  /** The figures the next submission sees: the matched ones, or zeros as reset at the start of this one. */
  function NextNutrition(text: string): Nutrition {
    match MatchNutrition(text)
    case Some(n) => n
    case None => Nutrition(0, 0, 0, 0)
  }

  /**
   * The figures `handleSubmit` divides are those of the render it was created
   * in, so a first submission shares out zeros even when its response states
   * a calorie total; sharing out the matched figures gives every meal a
   * positive share once the total is at least half the number of meals.
   */
  lemma StaleFiguresOnFirstSubmission(text: string)
    requires MatchNutrition(text).Some?
    requires 2 * MatchNutrition(text).value.calories >= |Parsed(text)|
    ensures forall m :: m in MealPlanOf(text, Nutrition(0, 0, 0, 0)) ==> m.calories == 0
    ensures forall m :: m in MealPlanOf(text, NextNutrition(text)) ==> m.calories >= 1
  {
    var zero, matched := Nutrition(0, 0, 0, 0), NextNutrition(text);
    MealPlanFinished(text, zero);
    MealPlanFinished(text, matched);
    var n := |Parsed(text)|;
    RoundDivBounds(0, n);
    RoundDivBounds(matched.calories, n);
  }

  /** A zero total gives zero shares, and a total of at least half the count gives every share at least one. */
  lemma RoundDivBounds(a: nat, n: nat)
    requires n > 0
    ensures a == 0 ==> RoundDiv(a, n) == 0
    ensures 2 * a >= n ==> RoundDiv(a, n) >= 1
  {
    var r: int := RoundDiv(a, n);
    if a == 0 {
      assert n * (2 * r - 1) <= 0;
      assert 2 * r - 1 <= 0;
    }
  }

  /**
   * The component's `nutritionInfo` state. A submission divides the figures
   * that were in force when it started; the figures it matches only take
   * effect for the next submission.
   */
  class MealGenerator {
    var nutritionInfo: Nutrition

    constructor ()
      ensures nutritionInfo == Nutrition(0, 0, 0, 0)
    {
      nutritionInfo := Nutrition(0, 0, 0, 0);
    }

    method HandleSubmit(response: Option<string>) returns (meals: seq<Meal>)
      modifies this
      ensures meals == MealPlanOf(ResponseText(response), old(nutritionInfo))
      ensures Finished(meals, old(nutritionInfo))
      ensures nutritionInfo == NextNutrition(ResponseText(response))
    {
      var responseText := ResponseText(response);
      var stale := nutritionInfo;
      nutritionInfo := Nutrition(0, 0, 0, 0);
      var matched := MatchNutrition(responseText);
      if matched.Some? {
        nutritionInfo := matched.value;
      }
      meals := ParseMealPlan(responseText, stale);
    }

    /** `handleSubmit` as evidently intended: the figures matched in this response are the ones shared out. */
    method HandleSubmitIntended(response: Option<string>) returns (meals: seq<Meal>)
      modifies this
      ensures nutritionInfo == NextNutrition(ResponseText(response))
      ensures meals == MealPlanOf(ResponseText(response), nutritionInfo)
      ensures Finished(meals, nutritionInfo)
    {
      var responseText := ResponseText(response);
      nutritionInfo := Nutrition(0, 0, 0, 0);
      var matched := MatchNutrition(responseText);
      if matched.Some? {
        nutritionInfo := matched.value;
      }
      meals := ParseMealPlan(responseText, nutritionInfo);
    }
  }
}
