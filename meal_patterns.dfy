/**
 * The regular expressions that the meal-plan parser of
 * app/components/MealGenerator.tsx applies, each written out as a string
 * function with JavaScript's matching rules: the leftmost start wins, `\s*`
 * and `\d+` take as much as they can (what follows them is never white space
 * or a digit, so giving characters back never helps), and a lazy `.*?` stops
 * at the first place where the rest of the pattern matches, never stepping
 * over a line terminator.
 */
module MealPatterns {
  import opened Text
  import opened Wrappers

  /** No line terminator in `s[a..b]`: the stretch a `.*` can cover. */
  predicate OnOneLine(s: string, a: int, b: int)
    requires 0 <= a && b <= |s|
  {
    forall k :: a <= k < b ==> !IsLineTerminator(s[k])
  }

  /** At a line terminator, or at the end, a `.*` starting there can cover nothing. */
  lemma LineStops(s: string, i: nat)
    requires i == |s| || (i < |s| && IsLineTerminator(s[i]))
    ensures forall j: nat :: i < j <= |s| ==> !OnOneLine(s, i, j)
  {
    forall j: nat | i < j <= |s| ensures !OnOneLine(s, i, j) {
      assert IsLineTerminator(s[i]);
    }
  }

  /** Past a character that ends no line, a `.*` covers the same stretches as one starting after it. */
  lemma LineGoesOn(s: string, i: nat)
    requires i < |s| && !IsLineTerminator(s[i])
    ensures forall j: nat :: i < j <= |s| ==> (OnOneLine(s, i, j) <==> OnOneLine(s, i + 1, j))
  {
    forall j: nat | i < j <= |s| ensures OnOneLine(s, i, j) <==> OnOneLine(s, i + 1, j) {
      if OnOneLine(s, i + 1, j) {
        forall k | i <= k < j ensures !IsLineTerminator(s[k]) {
          if k > i { assert i + 1 <= k < j; }
        }
      }
    }
  }

  // ---------------------------------------------------------------------
  // Table detection: /\|.*\|/

  /** A `|` at `i` and another at `j` on the same line. */
  predicate PipePair(s: string, i: int, j: int) {
    0 <= i < j < |s| && s[i] == '|' && s[j] == '|' && OnOneLine(s, i + 1, j)
  }

  /** Some `|` before index `k` is still on the line that index `k` is on. */
  predicate OpenPipe(s: string, k: int)
    requires 0 <= k <= |s|
  {
    exists i :: 0 <= i < k && s[i] == '|' && OnOneLine(s, i + 1, k)
  }

  /** Left-to-right scan; `open` says a `|` was already seen on the current line. */
  function PipeRowFrom(s: string, k: nat, open: bool): bool
    requires k <= |s|
    decreases |s| - k
  {
    if k == |s| then false
    else if s[k] == '|' then open || PipeRowFrom(s, k + 1, true)
    else if IsLineTerminator(s[k]) then PipeRowFrom(s, k + 1, false)
    else PipeRowFrom(s, k + 1, open)
  }

  /** `responseText.match(/\|.*\|/g)` is non-null. */
  function HasTableRow(s: string): bool {
    PipeRowFrom(s, 0, false)
  }

  lemma {:induction false} PipeRowFromCorrect(s: string, k: nat)
    requires k <= |s|
    ensures PipeRowFrom(s, k, OpenPipe(s, k)) <==> exists i, j :: k <= j && PipePair(s, i, j)
    decreases |s| - k
  {
    if k < |s| {
      PipeRowFromCorrect(s, k + 1);
      var open := OpenPipe(s, k);
      if s[k] == '|' {
        assert OpenPipe(s, k + 1) by { assert OnOneLine(s, k + 1, k + 1); }
        if open {
          var i :| 0 <= i < k && s[i] == '|' && OnOneLine(s, i + 1, k);
          assert PipePair(s, i, k);
        }
        if exists i, j :: k <= j && PipePair(s, i, j) {
          var i, j :| k <= j && PipePair(s, i, j);
          if j == k { assert OpenPipe(s, k); }
        }
      } else if IsLineTerminator(s[k]) {
        assert !OpenPipe(s, k + 1);
        if exists i, j :: k <= j && PipePair(s, i, j) {
          var i, j :| k <= j && PipePair(s, i, j);
          assert j != k;
        }
      } else {
        assert OpenPipe(s, k + 1) == open by {
          if open {
            var i :| 0 <= i < k && s[i] == '|' && OnOneLine(s, i + 1, k);
            assert OnOneLine(s, i + 1, k + 1);
          }
          if OpenPipe(s, k + 1) {
            var i :| 0 <= i < k + 1 && s[i] == '|' && OnOneLine(s, i + 1, k + 1);
            assert i < k && OnOneLine(s, i + 1, k);
          }
        }
        if exists i, j :: k <= j && PipePair(s, i, j) {
          var i, j :| k <= j && PipePair(s, i, j);
          assert j != k;
        }
      }
    }
  }

  /** The table strategy is chosen exactly when one line holds two `|`. */
  lemma HasTableRowIff(s: string)
    ensures HasTableRow(s) <==> exists i, j :: PipePair(s, i, j)
  {
    assert !OpenPipe(s, 0);
    PipeRowFromCorrect(s, 0);
  }

  // ---------------------------------------------------------------------
  // Numbers

  /** `parseInt` of a run of decimal digits. */
  function DigitsValue(d: string): nat {
    if d == [] then 0
    else
      var last := d[|d| - 1];
      DigitsValue(d[..|d| - 1]) * 10 + (if IsDigit(last) then last as int - '0' as int else 0)
  }

  // ---------------------------------------------------------------------
  // Nutrition: /Calories: (\d+).*?Protein: (\d+)g.*?Carbs: (\d+)g.*?Fat: (\d+)g/i

  datatype Nutrition = Nutrition(calories: nat, protein: nat, carbs: nat, fat: nat)

  /** The four labels of the pattern. */
  datatype Label = Calories | Protein | Carbs | Fat

  /** A label as the pattern spells it, in lower case, with the colon and space after it. */
  function Word(l: Label): (w: string)
    ensures w != [] && forall c :: c in w ==> !IsLineTerminator(c)
  {
    match l
    case Calories => "calories: "
    case Protein => "protein: "
    case Carbs => "carbs: "
    case Fat => "fat: "
  }

  /** One matched field: where its word starts, its number, and the index just after it. */
  datatype Field = Field(at: nat, value: nat, end: nat)

  /** The lower-case `word` occurs at `i`, compared without ASCII case. */
  predicate WordAt(s: string, i: nat, word: string) {
    i + |word| <= |s| && ToLower(s[i..i + |word|]) == word
  }

  /** A word without line terminators, found at `i`, lies on one line. */
  lemma WordOnOneLine(s: string, i: nat, word: string)
    requires WordAt(s, i, word)
    requires forall c :: c in word ==> !IsLineTerminator(c)
    ensures OnOneLine(s, i, i + |word|)
  {
    var t := s[i..i + |word|];
    forall k | i <= k < i + |word| ensures !IsLineTerminator(s[k]) {
      assert t[k - i] == s[k];
      assert ToLower(t)[k - i] == LowerChar(s[k]) == word[k - i];
      assert word[k - i] in word;
    }
  }

  /** The label's word and `(\d+)`, followed by `g` when `grams`, matched exactly at `i`; the value is the number the digits spell. */
  function FieldAt(s: string, i: nat, which: Label, grams: bool): (r: Option<Field>)
    ensures r.Some? <==>
      WordAt(s, i, Word(which)) && i + |Word(which)| < |s| && IsDigit(s[i + |Word(which)|])
      && (grams ==> DigitsEnd(s, i + |Word(which)|) < |s| && LowerChar(s[DigitsEnd(s, i + |Word(which)|)]) == 'g')
    ensures r.Some? ==>
              i + |Word(which)| < |s|
              && var d := i + |Word(which)|; var e := DigitsEnd(s, d);
              r.value.at == i && r.value.value == DigitsValue(s[d..e]) && r.value.end == (if grams then e + 1 else e)
    ensures r.Some? ==> i < r.value.end <= |s| && OnOneLine(s, i, r.value.end)
  {
    var word := Word(which);
    var d := i + |word|;
    if WordAt(s, i, word) && d < |s| && IsDigit(s[d]) then
      var e := DigitsEnd(s, d);
      FieldOnOneLine(s, i, which, e);
      if !grams then Some(Field(i, DigitsValue(s[d..e]), e))
      else if e < |s| && LowerChar(s[e]) == 'g' then Some(Field(i, DigitsValue(s[d..e]), e + 1))
      else None
    else None
  }

  /** The word, the digits after it and a letter after them lie on one line. */
  lemma FieldOnOneLine(s: string, i: nat, which: Label, e: nat)
    requires WordAt(s, i, Word(which)) && i + |Word(which)| <= e <= |s|
    requires forall k :: i + |Word(which)| <= k < e ==> IsDigit(s[k])
    ensures OnOneLine(s, i, e)
    ensures e < |s| && LowerChar(s[e]) == 'g' ==> OnOneLine(s, i, e + 1)
  {
    var word := Word(which);
    WordOnOneLine(s, i, word);
    forall k | i + |word| <= k < e ensures !IsLineTerminator(s[k]) {
      assert IsDigit(s[k]);
    }
  }

  /**
   * `.*?` followed by a field: the first start at or after `i` where the
   * field matches, without crossing a line terminator; `None` when no start
   * on the rest of the line has one.
   */
  function FindField(s: string, i: nat, which: Label, grams: bool): (r: Option<Field>)
    requires i <= |s|
    ensures r.Some? ==> i <= r.value.at && FieldAt(s, r.value.at, which, grams) == r && OnOneLine(s, i, r.value.end)
    ensures r.Some? ==> forall j :: i <= j < r.value.at ==> FieldAt(s, j, which, grams).None?
    ensures r.None? ==> forall j :: i <= j <= |s| && OnOneLine(s, i, j) ==> FieldAt(s, j, which, grams).None?
    decreases |s| - i
  {
    var here := FieldAt(s, i, which, grams);
    if here.Some? then here
    else if i == |s| || IsLineTerminator(s[i]) then
      FindFieldAtLineEnd(s, i, which, grams);
      None
    else
      var r := FindField(s, i + 1, which, grams);
      FindFieldSkip(s, i, which, grams, r);
      r
  }

  lemma FindFieldAtLineEnd(s: string, i: nat, which: Label, grams: bool)
    requires i == |s| || (i < |s| && IsLineTerminator(s[i]))
    requires FieldAt(s, i, which, grams).None?
    ensures forall j :: i <= j <= |s| && OnOneLine(s, i, j) ==> FieldAt(s, j, which, grams).None?
  {
    LineStops(s, i);
  }

  /** No field at `i`, inside the line: the search from `i + 1` answers for `i` too. */
  lemma FindFieldSkip(s: string, i: nat, which: Label, grams: bool, r: Option<Field>)
    requires i < |s| && !IsLineTerminator(s[i]) && FieldAt(s, i, which, grams).None?
    requires r.Some? ==> i + 1 <= r.value.at && FieldAt(s, r.value.at, which, grams) == r && OnOneLine(s, i + 1, r.value.end)
    requires r.Some? ==> forall j :: i + 1 <= j < r.value.at ==> FieldAt(s, j, which, grams).None?
    requires r.None? ==> forall j :: i + 1 <= j <= |s| && OnOneLine(s, i + 1, j) ==> FieldAt(s, j, which, grams).None?
    ensures r.Some? ==> i <= r.value.at && FieldAt(s, r.value.at, which, grams) == r && OnOneLine(s, i, r.value.end)
    ensures r.Some? ==> forall j :: i <= j < r.value.at ==> FieldAt(s, j, which, grams).None?
    ensures r.None? ==> forall j :: i <= j <= |s| && OnOneLine(s, i, j) ==> FieldAt(s, j, which, grams).None?
  {
    if r.Some? {
      FindFieldSkipFound(s, i, which, grams, r.value);
    } else {
      FindFieldSkipNone(s, i, which, grams);
    }
  }

  lemma FindFieldSkipFound(s: string, i: nat, which: Label, grams: bool, f: Field)
    requires i < |s| && !IsLineTerminator(s[i]) && FieldAt(s, i, which, grams).None?
    requires i + 1 <= f.at && FieldAt(s, f.at, which, grams) == Some(f) && OnOneLine(s, i + 1, f.end)
    requires forall j :: i + 1 <= j < f.at ==> FieldAt(s, j, which, grams).None?
    ensures OnOneLine(s, i, f.end)
    ensures forall j :: i <= j < f.at ==> FieldAt(s, j, which, grams).None?
  {
    assert f.at < f.end <= |s|;
    forall k | i <= k < f.end ensures !IsLineTerminator(s[k]) {
      if k > i { assert i + 1 <= k < f.end; }
    }
    forall j | i <= j < f.at ensures FieldAt(s, j, which, grams).None? {
      if j > i { assert i + 1 <= j < f.at; }
    }
  }

  lemma FindFieldSkipNone(s: string, i: nat, which: Label, grams: bool)
    requires i < |s| && !IsLineTerminator(s[i]) && FieldAt(s, i, which, grams).None?
    requires forall j :: i + 1 <= j <= |s| && OnOneLine(s, i + 1, j) ==> FieldAt(s, j, which, grams).None?
    ensures forall j :: i <= j <= |s| && OnOneLine(s, i, j) ==> FieldAt(s, j, which, grams).None?
  {
    forall j | i <= j <= |s| && OnOneLine(s, i, j) ensures FieldAt(s, j, which, grams).None? {
      if j > i {
        assert OnOneLine(s, i + 1, j) by {
          forall k | i + 1 <= k < j ensures !IsLineTerminator(s[k]) { assert i <= k < j; }
        }
      }
    }
  }

  /** The whole pattern tried with its match starting at `p`. */
  function NutritionAt(s: string, p: nat): (r: Option<Nutrition>)
    requires p <= |s|
  {
    var cal := FieldAt(s, p, Calories, false);
    if cal.None? then None
    else
      var pro := FindField(s, cal.value.end, Protein, true);
      if pro.None? then None
      else
        var carb := FindField(s, pro.value.end, Carbs, true);
        if carb.None? then None
        else
          var fat := FindField(s, carb.value.end, Fat, true);
          if fat.None? then None
          else Some(Nutrition(cal.value.value, pro.value.value, carb.value.value, fat.value.value))
  }

  /** Leftmost match start at or after `p`. */
  function NutritionFrom(s: string, p: nat): Option<Nutrition>
    requires p <= |s|
    decreases |s| - p
  {
    var here := NutritionAt(s, p);
    if here.Some? || p == |s| then here else NutritionFrom(s, p + 1)
  }

  /** `responseText.match(...)`, with each capture read by `parseInt(...) || 0`. */
  function MatchNutrition(s: string): Option<Nutrition> {
    NutritionFrom(s, 0)
  }

  /** The four fields of the pattern start at `a`, `b`, `c` and `d`, in this order, on one line. */
  predicate FieldsAt(s: string, a: nat, b: nat, c: nat, d: nat) {
    a < b < c < d <= |s| && OnOneLine(s, a, d)
    && FieldAt(s, a, Calories, false).Some? && FieldAt(s, b, Protein, true).Some?
    && FieldAt(s, c, Carbs, true).Some? && FieldAt(s, d, Fat, true).Some?
  }

  /**
   * Fields at `a`, `b`, `c` and `d` where each of the last three is the first
   * of its kind after the field before it ends: the places the lazy `.*?` reach.
   */
  predicate LazyFieldsAt(s: string, a: nat, b: nat, c: nat, d: nat) {
    FieldsAt(s, a, b, c, d)
    && (forall j :: FieldAt(s, a, Calories, false).value.end <= j < b ==> FieldAt(s, j, Protein, true).None?)
    && (forall j :: FieldAt(s, b, Protein, true).value.end <= j < c ==> FieldAt(s, j, Carbs, true).None?)
    && (forall j :: FieldAt(s, c, Carbs, true).value.end <= j < d ==> FieldAt(s, j, Fat, true).None?)
  }

  /** The numbers read at the four fields. */
  function FiguresAt(s: string, a: nat, b: nat, c: nat, d: nat): Nutrition
    requires FieldsAt(s, a, b, c, d)
  {
    Nutrition(FieldAt(s, a, Calories, false).value.value, FieldAt(s, b, Protein, true).value.value,
              FieldAt(s, c, Carbs, true).value.value, FieldAt(s, d, Fat, true).value.value)
  }

  /** The letters the four words start with. */
  predicate Initial(c: char) {
    c == 'c' || c == 'p' || c == 'f'
  }

  /** Each word starts with an initial and holds no other. */
  lemma WordInitials(l: Label)
    ensures Initial(Word(l)[0]) && forall k :: 1 <= k < |Word(l)| ==> !Initial(Word(l)[k])
  {
    match l
    case Calories =>
    case Protein =>
    case Carbs =>
    case Fat =>
  }

  /** Inside a field, after its first letter, no character is an initial. */
  lemma FieldInterior(s: string, x: nat, l: Label, grams: bool, y: nat)
    requires FieldAt(s, x, l, grams).Some? && x < y < FieldAt(s, x, l, grams).value.end
    ensures !Initial(LowerChar(s[y]))
  {
    WordInitials(l);
    var w := Word(l);
    var d := x + |w|;
    if y < d {
      assert s[x..d][y - x] == s[y];
      assert LowerChar(s[y]) == w[y - x];
    }
  }

  /** No word starts inside a field, so a field that starts before a word ends at or before it. */
  lemma FieldEndsBeforeWord(s: string, x: nat, l: Label, grams: bool, y: nat, l': Label)
    requires FieldAt(s, x, l, grams).Some? && x < y && WordAt(s, y, Word(l'))
    ensures FieldAt(s, x, l, grams).value.end <= y
  {
    WordInitials(l');
    if y < FieldAt(s, x, l, grams).value.end {
      FieldInterior(s, x, l, grams, y);
    }
  }

  /** Part of a stretch on one line is on one line. */
  lemma OnOneLineSub(s: string, a: nat, b: nat, x: nat, y: nat)
    requires a <= x <= y <= b <= |s| && OnOneLine(s, a, b)
    ensures OnOneLine(s, x, y)
  {
  }

  /** A field further along the line is found, at it or before it. */
  lemma FindFieldReaches(s: string, i: nat, which: Label, grams: bool, b: nat)
    requires i <= b <= |s| && OnOneLine(s, i, b) && FieldAt(s, b, which, grams).Some?
    ensures FindField(s, i, which, grams).Some? && FindField(s, i, which, grams).value.at <= b
  {
  }

  /** Four fields in order on one line make the pattern match at the first of them. */
  lemma NutritionAtComplete(s: string, a: nat, b: nat, c: nat, d: nat)
    requires FieldsAt(s, a, b, c, d)
    ensures NutritionAt(s, a).Some?
  {
    var cal := FieldAt(s, a, Calories, false).value;
    hide FieldAt, FindField, FieldsAt;
    FieldEndsBeforeWord(s, a, Calories, false, b, Protein);
    OnOneLineSub(s, a, d, cal.end, b);
    FindFieldReaches(s, cal.end, Protein, true, b);
    var pro := FindField(s, cal.end, Protein, true).value;
    FieldEndsBeforeWord(s, pro.at, Protein, true, c, Carbs);
    OnOneLineSub(s, a, d, pro.end, c);
    FindFieldReaches(s, pro.end, Carbs, true, c);
    var carb := FindField(s, pro.end, Carbs, true).value;
    FieldEndsBeforeWord(s, carb.at, Carbs, true, d, Fat);
    OnOneLineSub(s, a, d, carb.end, d);
    FindFieldReaches(s, carb.end, Fat, true, d);
  }

  /** The four labels appear in order on one line. */
  predicate LabelsInOrder(s: string, a: nat, b: nat, c: nat, d: nat) {
    a < b < c < d < |s|
    && WordAt(s, a, Word(Calories)) && WordAt(s, b, Word(Protein))
    && WordAt(s, c, Word(Carbs)) && WordAt(s, d, Word(Fat))
    && OnOneLine(s, a, d)
  }

  /** Two adjacent stretches on one line make one stretch on one line, and so does any part of it. */
  lemma OnOneLineJoin(s: string, a: nat, b: nat, c: nat, d: nat)
    requires a <= b <= c <= |s| && d <= c
    requires OnOneLine(s, a, b) && OnOneLine(s, b, c)
    ensures OnOneLine(s, a, d)
  {
    forall k | a <= k < d ensures !IsLineTerminator(s[k]) {
      if k < b {
        assert a <= k < b;
      } else {
        assert b <= k < c;
      }
    }
  }

  /** Four fields found one after another, each on the line where the previous one ended. */
  lemma FieldsInOrder(s: string, p: nat, cal: Field, pro: Field, carb: Field, fat: Field)
    requires cal.at == p < cal.end <= |s| && OnOneLine(s, p, cal.end) && WordAt(s, p, Word(Calories))
    requires cal.end <= pro.at < pro.end <= |s| && OnOneLine(s, cal.end, pro.end) && WordAt(s, pro.at, Word(Protein))
    requires pro.end <= carb.at < carb.end <= |s| && OnOneLine(s, pro.end, carb.end) && WordAt(s, carb.at, Word(Carbs))
    requires carb.end <= fat.at < fat.end <= |s| && OnOneLine(s, carb.end, fat.end) && WordAt(s, fat.at, Word(Fat))
    ensures LabelsInOrder(s, p, pro.at, carb.at, fat.at)
  {
    OnOneLineJoin(s, p, cal.end, pro.end, pro.end);
    OnOneLineJoin(s, p, pro.end, carb.end, carb.end);
    OnOneLineJoin(s, p, carb.end, fat.end, fat.at);
  }

  /**
   * A match starting at `p` reads its figures at four fields in order on one
   * line, each of the last three the first of its kind after the one before.
   */
  lemma NutritionAtSound(s: string, p: nat)
    requires p <= |s|
    requires NutritionAt(s, p).Some?
    ensures exists b, c, d :: LazyFieldsAt(s, p, b, c, d) && NutritionAt(s, p).value == FiguresAt(s, p, b, c, d)
  {
    hide FieldAt, FindField;
    var cal := FieldAt(s, p, Calories, false);
    assert cal.Some?;
    var pro := FindField(s, cal.value.end, Protein, true);
    assert pro.Some?;
    var carb := FindField(s, pro.value.end, Carbs, true);
    assert carb.Some?;
    var fat := FindField(s, carb.value.end, Fat, true);
    assert fat.Some?;
    FieldsInOrder(s, p, cal.value, pro.value, carb.value, fat.value);
    assert LazyFieldsAt(s, p, pro.value.at, carb.value.at, fat.value.at);
  }

  /**
   * The figures are taken only when Calories, Protein, Carbs and Fat appear
   * in this order on one line, each followed by its number: they are the
   * numbers at the leftmost such Calories and at the first Protein, Carbs
   * and Fat after it. Partial figures give nothing.
   */
  lemma {:induction false} MatchNutritionSound(s: string)
    ensures MatchNutrition(s).Some? ==> exists a, b, c, d ::
              LazyFieldsAt(s, a, b, c, d) && MatchNutrition(s).value == FiguresAt(s, a, b, c, d)
              && forall a', b', c', d' :: FieldsAt(s, a', b', c', d') ==> a <= a'
  {
    var p := FirstMatchStart(s, 0);
    if MatchNutrition(s).Some? {
      LeftmostMatchSound(s, p, MatchNutrition(s).value);
    }
  }

  /** Where the leftmost search from `q` stops: the first start with a match, or the end. */
  lemma {:induction false} FirstMatchStart(s: string, q: nat) returns (p: nat)
    requires q <= |s|
    ensures q <= p <= |s| && NutritionFrom(s, q) == NutritionAt(s, p)
    ensures forall r: nat :: q <= r < p ==> NutritionAt(s, r).None?
    decreases |s| - q
  {
    // Only the search order matters here, not what a match at one start is.
    hide NutritionAt;
    var here := NutritionAt(s, q);
    if here.Some? || q == |s| {
      p := q;
    } else {
      var q1: nat := q + 1;
      assert NutritionFrom(s, q) == NutritionFrom(s, q1);
      p := FirstMatchStart(s, q1);
      NoMatchExtends(s, q, q1, p);
    }
  }

  lemma NoMatchExtends(s: string, q: nat, q1: nat, p: nat)
    requires q1 == q + 1 && q1 <= p <= |s| && NutritionAt(s, q).None?
    requires forall r: nat :: q1 <= r < p ==> NutritionAt(s, r).None?
    ensures forall r: nat :: q <= r < p ==> NutritionAt(s, r).None?
  {
    forall r: nat | q <= r < p ensures NutritionAt(s, r).None? {
      if r != q { assert q1 <= r < p; }
    }
  }

  /** A match at `p`, with none before it, reads the figures at the leftmost four fields in order. */
  lemma LeftmostMatchSound(s: string, p: nat, v: Nutrition)
    requires p <= |s| && NutritionAt(s, p) == Some(v)
    requires forall q: nat :: 0 <= q < p ==> NutritionAt(s, q).None?
    ensures exists a, b, c, d ::
              LazyFieldsAt(s, a, b, c, d) && v == FiguresAt(s, a, b, c, d)
              && forall a', b', c', d' :: FieldsAt(s, a', b', c', d') ==> a <= a'
  {
    NutritionAtSound(s, p);
    var b, c, d :| LazyFieldsAt(s, p, b, c, d) && NutritionAt(s, p).value == FiguresAt(s, p, b, c, d);
    forall a', b', c', d' | FieldsAt(s, a', b', c', d') ensures p <= a' {
      NutritionAtComplete(s, a', b', c', d');
    }
  }

  /** A match somewhere is found by the leftmost search from any earlier start. */
  lemma {:induction false} NutritionFromReaches(s: string, p: nat, a: nat)
    requires p <= a <= |s| && NutritionAt(s, a).Some?
    ensures NutritionFrom(s, p).Some?
    decreases a - p
  {
    var here := NutritionAt(s, p);
    if p < a && here.None? {
      NutritionFromReaches(s, p + 1, a);
      assert NutritionFrom(s, p) == NutritionFrom(s, p + 1);
    }
  }

  /** Any line with the four labels in order, each with its number, gives figures. */
  lemma MatchNutritionComplete(s: string, a: nat, b: nat, c: nat, d: nat)
    requires FieldsAt(s, a, b, c, d)
    ensures MatchNutrition(s).Some?
  {
    NutritionAtComplete(s, a, b, c, d);
    NutritionFromReaches(s, 0, a);
  }

  // ---------------------------------------------------------------------
  // Table header cell: /\|\s*\*\*(.*?)\*\*\s*\|/ and /\|\s*\*\*.*?\*\*\s*\|\s*(.*?)\s*\|/

  /** `SkipSpaces` stops at the first character that is not white space. */
  lemma SkipSpacesStops(s: string, i: nat, w: nat)
    requires i <= w < |s| && !IsSpace(s[w]) && forall k :: i <= k < w ==> IsSpace(s[k])
    ensures SkipSpaces(s, i) == w
  {
  }

  /** A `|` at `p`, then white space up to a `**` at `w`: how a bold cell opens. */
  predicate OpensAt(L: string, p: nat, w: nat) {
    p < w && OccursAt(L, "**", w) && L[p] == '|' && forall k :: p < k < w ==> IsSpace(L[k])
  }

  /** `|\s*\*\*` matched at `p`: the index where the bold text starts, or `None` when no bold cell opens at `p`. */
  function BoldCellOpen(L: string, p: nat): (r: Option<nat>)
    ensures r.Some? ==> r.value >= 2 && OpensAt(L, p, r.value - 2)
    ensures r.None? ==> forall w: nat :: !OpensAt(L, p, w)
  {
    if p < |L| && L[p] == '|' then
      var w := SkipSpaces(L, p + 1);
      if OccursAt(L, "**", w) then Some(w + 2)
      else
        assert forall w': nat :: !OpensAt(L, p, w') by {
          forall w': nat | OpensAt(L, p, w') ensures false {
            assert L[w'..w' + 2][0] == L[w'];
            SkipSpacesStops(L, p + 1, w');
          }
        }
        None
    else None
  }

  /** A bold cell opens at `p` in one place at most. */
  lemma OpensAtUnique(L: string, p: nat, w: nat, w': nat)
    requires OpensAt(L, p, w) && OpensAt(L, p, w')
    ensures w == w'
  {
    assert L[w..w + 2][0] == L[w] && L[w'..w' + 2][0] == L[w'];
  }

  /** `\s*\|` from `c`: white space, then a `|`. */
  predicate EndsCellAt(L: string, c: nat)
    requires c <= |L|
  {
    var w := SkipSpaces(L, c); w < |L| && L[w] == '|'
  }

  /** `\*\*\s*\|` at `c`: where the lazy bold text may stop. */
  predicate ClosesCellAt(L: string, c: nat) {
    OccursAt(L, "**", c) && EndsCellAt(L, c + 2)
  }

  /** Index just after the `|` that closes the bold cell ending at `c`. */
  function AfterCellClose(L: string, c: nat): (e: nat)
    requires ClosesCellAt(L, c)
    ensures e <= |L|
  {
    SkipSpaces(L, c + 2) + 1
  }

  /**
   * The lazy bold text of a header cell: the first `c >= k` on the line
   * where it can stop, or `None` when no place on the rest of the line can.
   */
  function CellCloseFrom(L: string, k: nat): (r: Option<nat>)
    requires k <= |L|
    ensures r.Some? ==> k <= r.value && ClosesCellAt(L, r.value) && OnOneLine(L, k, r.value)
    ensures r.Some? ==> forall c: nat :: k <= c < r.value ==> !ClosesCellAt(L, c)
    ensures r.None? ==> forall c: nat :: k <= c <= |L| && OnOneLine(L, k, c) ==> !ClosesCellAt(L, c)
    decreases |L| - k
  {
    if ClosesCellAt(L, k) then Some(k)
    else if k == |L| || IsLineTerminator(L[k]) then
      assert forall c: nat :: k < c <= |L| ==> !OnOneLine(L, k, c) by {
        forall c: nat | k < c <= |L| ensures !OnOneLine(L, k, c) {
          assert IsLineTerminator(L[k]);
        }
      }
      None
    else
      var r := CellCloseFrom(L, k + 1);
      assert forall c: nat :: k < c <= |L| && OnOneLine(L, k, c) ==> OnOneLine(L, k + 1, c);
      assert r.Some? ==> OnOneLine(L, k, r.value) by {
        if r.Some? {
          forall m | k <= m < r.value ensures !IsLineTerminator(L[m]) {
            if m > k { assert k + 1 <= m < r.value; }
          }
        }
      }
      r
  }

  /** The header pattern with its `|` at `p`, its `**` at `w`, and its bold text stopping at `c`. */
  predicate HeaderAt(L: string, p: nat, w: nat, c: nat) {
    OpensAt(L, p, w) && w + 2 <= c && ClosesCellAt(L, c) && OnOneLine(L, w + 2, c)
  }

  /** The header match JavaScript picks from `q` on: the leftmost `|`, then the shortest bold text. */
  ghost predicate FirstHeaderFrom(L: string, q: nat, p: nat, w: nat, c: nat) {
    q <= p && HeaderAt(L, p, w, c)
    && forall p': nat, w': nat, c': nat :: q <= p' && HeaderAt(L, p', w', c') ==> p < p' || (p == p' && c <= c')
  }

  /** Leftmost header match at or after `p`: its capture. */
  function HeaderNameFrom(L: string, p: nat): Option<string>
    requires p <= |L|
    decreases |L| - p
  {
    var open := BoldCellOpen(L, p);
    if open.Some? && CellCloseFrom(L, open.value).Some? then
      Some(L[open.value..CellCloseFrom(L, open.value).value])
    else if p == |L| then None
    else HeaderNameFrom(L, p + 1)
  }

  /** `line.match(/\|\s*\*\*(.*?)\*\*\s*\|/)`, as its capture group. */
  function HeaderName(L: string): Option<string> {
    HeaderNameFrom(L, 0)
  }

  /** A header match with its `|` at `p` opens where the scan opens it. */
  lemma HeaderAtOpens(L: string, p: nat, w: nat, c: nat)
    requires HeaderAt(L, p, w, c)
    ensures BoldCellOpen(L, p) == Some(w + 2)
  {
    var open := BoldCellOpen(L, p);
    assert open.Some?;
    OpensAtUnique(L, p, w, open.value - 2);
  }

  /** A header match whose bold text starts at `w + 2` stops no earlier than the scan's stop. */
  lemma HeaderAtCloses(L: string, p: nat, w: nat, c: nat)
    requires HeaderAt(L, p, w, c)
    ensures CellCloseFrom(L, w + 2).Some? && CellCloseFrom(L, w + 2).value <= c
  {
    assert w + 2 <= c <= |L| && OnOneLine(L, w + 2, c) && ClosesCellAt(L, c);
  }

  /** The scan from `q` finds a header exactly when one matches from `q` on, and then the one JavaScript picks. */
  lemma {:induction false} HeaderNameFromCorrect(L: string, q: nat)
    requires q <= |L|
    ensures HeaderNameFrom(L, q).None? <==> forall p: nat, w: nat, c: nat :: q <= p ==> !HeaderAt(L, p, w, c)
    ensures HeaderNameFrom(L, q).Some? ==>
              exists p: nat, w: nat, c: nat :: FirstHeaderFrom(L, q, p, w, c) && HeaderNameFrom(L, q).value == L[w + 2..c]
    decreases |L| - q
  {
    hide BoldCellOpen, CellCloseFrom;
    var open := BoldCellOpen(L, q);
    if open.Some? && CellCloseFrom(L, open.value).Some? {
      HeaderFoundAt(L, q);
    } else {
      HeaderNotAt(L, q);
      if q < |L| {
        assert HeaderNameFrom(L, q) == HeaderNameFrom(L, q + 1);
        HeaderNameFromCorrect(L, q + 1);
        if HeaderNameFrom(L, q + 1).Some? {
          var p: nat, w: nat, c: nat :| FirstHeaderFrom(L, q + 1, p, w, c) && HeaderNameFrom(L, q + 1).value == L[w + 2..c];
          FirstHeaderShift(L, q, p, w, c);
        }
      } else {
        assert HeaderNameFrom(L, q).None?;
      }
    }
  }

  /** When the scan finds a header with its pipe at `q`, that match is JavaScript's. */
  lemma HeaderFoundAt(L: string, q: nat)
    requires q <= |L|
    requires BoldCellOpen(L, q).Some? && CellCloseFrom(L, BoldCellOpen(L, q).value).Some?
    ensures var open := BoldCellOpen(L, q);
      var c := CellCloseFrom(L, open.value).value;
      FirstHeaderFrom(L, q, q, open.value - 2, c) && HeaderNameFrom(L, q) == Some(L[open.value..c])
  {
    var open := BoldCellOpen(L, q);
    var w: nat, c := open.value - 2, CellCloseFrom(L, open.value).value;
    assert HeaderAt(L, q, w, c);
    forall p': nat, w': nat, c': nat | q <= p' && HeaderAt(L, p', w', c') ensures q < p' || (q == p' && c <= c') {
      if p' == q {
        HeaderAtOpens(L, p', w', c');
        HeaderAtCloses(L, p', w', c');
      }
    }
  }

  /** When the scan finds no header with its pipe at `q`, none matches there. */
  lemma HeaderNotAt(L: string, q: nat)
    requires q <= |L|
    requires !(BoldCellOpen(L, q).Some? && CellCloseFrom(L, BoldCellOpen(L, q).value).Some?)
    ensures forall w: nat, c: nat :: !HeaderAt(L, q, w, c)
  {
    forall w: nat, c: nat | HeaderAt(L, q, w, c) ensures false {
      HeaderAtOpens(L, q, w, c);
      HeaderAtCloses(L, q, w, c);
    }
  }

  /** With no header at `q`, JavaScript's match from `q + 1` is its match from `q`. */
  lemma FirstHeaderShift(L: string, q: nat, p: nat, w: nat, c: nat)
    requires forall w: nat, c: nat :: !HeaderAt(L, q, w, c)
    requires FirstHeaderFrom(L, q + 1, p, w, c)
    ensures FirstHeaderFrom(L, q, p, w, c)
  {
    forall p': nat, w': nat, c': nat | q <= p' && HeaderAt(L, p', w', c') ensures p < p' || (p == p' && c <= c') {
      assert p' != q;
    }
  }

  /**
   * A table line is a header row exactly when `|`, white space, `**`, text
   * on one line, `**`, white space and `|` occur in it; the name is the bold
   * text of the leftmost such `|`, cut at the first place the rest matches.
   */
  lemma HeaderNameIff(L: string)
    ensures HeaderName(L).None? <==> forall p: nat, w: nat, c: nat :: !HeaderAt(L, p, w, c)
    ensures HeaderName(L).Some? ==>
              exists p: nat, w: nat, c: nat :: FirstHeaderFrom(L, 0, p, w, c) && HeaderName(L).value == L[w + 2..c]
  {
    HeaderNameFromCorrect(L, 0);
  }

  /**
   * The lazy item text: the first `c >= k` on the line followed by white
   * space and a `|`, or `None` when no place on the rest of the line is.
   */
  function PlainCellEnd(L: string, k: nat): (r: Option<nat>)
    requires k <= |L|
    ensures r.Some? ==> k <= r.value <= |L| && EndsCellAt(L, r.value) && OnOneLine(L, k, r.value)
    ensures r.Some? ==> forall c: nat :: k <= c < r.value ==> !EndsCellAt(L, c)
    ensures r.None? ==> forall c: nat :: k <= c <= |L| && OnOneLine(L, k, c) ==> !EndsCellAt(L, c)
    decreases |L| - k
  {
    if EndsCellAt(L, k) then Some(k)
    else if k == |L| || IsLineTerminator(L[k]) then
      assert forall c: nat :: k < c <= |L| ==> !OnOneLine(L, k, c) by {
        forall c: nat | k < c <= |L| ensures !OnOneLine(L, k, c) {
          assert IsLineTerminator(L[k]);
        }
      }
      None
    else
      var r := PlainCellEnd(L, k + 1);
      assert forall c: nat :: k < c <= |L| && OnOneLine(L, k, c) ==> OnOneLine(L, k + 1, c);
      assert r.Some? ==> OnOneLine(L, k, r.value) by {
        if r.Some? {
          forall m | k <= m < r.value ensures !IsLineTerminator(L[m]) {
            if m > k { assert k + 1 <= m < r.value; }
          }
        }
      }
      r
  }

  /** `\s*(.*?)\s*\|` from index `e`: the text of the next cell. */
  function PlainCellAfter(L: string, e: nat): Option<string>
    requires e <= |L|
  {
    var a := SkipSpaces(L, e);
    var end := PlainCellEnd(L, a);
    if end.Some? then Some(L[a..end.value]) else None
  }

  /** The bold text stops at the first `c >= k` after which a whole second cell follows. */
  function ItemCellAfterBold(L: string, k: nat): Option<string>
    requires k <= |L|
    decreases |L| - k
  {
    if ClosesCellAt(L, k) && PlainCellAfter(L, AfterCellClose(L, k)).Some? then
      PlainCellAfter(L, AfterCellClose(L, k))
    else if k == |L| || IsLineTerminator(L[k]) then None
    else ItemCellAfterBold(L, k + 1)
  }

  function ItemCellFrom(L: string, p: nat): Option<string>
    requires p <= |L|
    decreases |L| - p
  {
    var open := BoldCellOpen(L, p);
    if open.Some? && ItemCellAfterBold(L, open.value).Some? then ItemCellAfterBold(L, open.value)
    else if p == |L| then None
    else ItemCellFrom(L, p + 1)
  }

  /** `line.match(/\|\s*\*\*.*?\*\*\s*\|\s*(.*?)\s*\|/)`, as its capture group. */
  function HeaderItemCell(L: string): Option<string> {
    ItemCellFrom(L, 0)
  }

  /** Where the item text starts: after the `|` that closes the bold cell at `k`, and the white space after it. */
  function CellStart(L: string, k: nat): (a: nat)
    requires ClosesCellAt(L, k)
    ensures a <= |L|
  {
    SkipSpaces(L, AfterCellClose(L, k))
  }

  /** From `k0` on the line, the bold text stops at `k`, and the next cell's text runs from `CellStart(L, k)` to `c`. */
  predicate CellAfterBoldAt(L: string, k0: nat, k: nat, c: nat) {
    k0 <= k && ClosesCellAt(L, k) && OnOneLine(L, k0, k)
    && CellStart(L, k) <= c <= |L| && OnOneLine(L, CellStart(L, k), c) && EndsCellAt(L, c)
  }

  /** The item-cell pattern with its `|` at `p`, its `**` at `w`, its bold text stopping at `k` and its item text at `c`. */
  predicate ItemCellAt(L: string, p: nat, w: nat, k: nat, c: nat) {
    OpensAt(L, p, w) && CellAfterBoldAt(L, w + 2, k, c)
  }

  /** `(k, c)` comes no later than `(k', c')`: the bold text first, then the item text, as short as they can be. */
  predicate NoLater(k: nat, c: nat, k': nat, c': nat) {
    k < k' || (k == k' && c <= c')
  }

  /** The item-cell match JavaScript picks from `q` on: the leftmost `|`, then the shortest bold text, then the shortest item text. */
  ghost predicate FirstItemCellFrom(L: string, q: nat, p: nat, w: nat, k: nat, c: nat) {
    q <= p && ItemCellAt(L, p, w, k, c)
    && forall p': nat, w': nat, k': nat, c': nat :: q <= p' && ItemCellAt(L, p', w', k', c') ==> p < p' || (p == p' && NoLater(k, c, k', c'))
  }

  /** With the bold text stopping at `k0`, the next cell's text is the first stop the lazy `(.*?)` finds. */
  lemma CellAfterBoldAtStart(L: string, k0: nat)
    requires ClosesCellAt(L, k0)
    ensures PlainCellAfter(L, AfterCellClose(L, k0)).None? <==> forall c: nat :: !CellAfterBoldAt(L, k0, k0, c)
    ensures PlainCellAfter(L, AfterCellClose(L, k0)).Some? ==>
              var c := PlainCellEnd(L, CellStart(L, k0)).value;
              CellAfterBoldAt(L, k0, k0, c) && PlainCellAfter(L, AfterCellClose(L, k0)).value == L[CellStart(L, k0)..c]
              && forall c': nat :: CellAfterBoldAt(L, k0, k0, c') ==> c <= c'
  {
    assert OnOneLine(L, k0, k0);
    var a := CellStart(L, k0);
    assert a == SkipSpaces(L, AfterCellClose(L, k0));
    var end := PlainCellEnd(L, a);
    if end.Some? {
      assert CellAfterBoldAt(L, k0, k0, end.value);
    } else {
      forall c: nat ensures !CellAfterBoldAt(L, k0, k0, c) {
        if a <= c <= |L| && OnOneLine(L, a, c) {
          assert !EndsCellAt(L, c);
        }
      }
    }
  }

  /** The stops JavaScript picks from `k0` on: the shortest bold text, then the shortest item text. */
  ghost predicate FirstCellAfterBold(L: string, k0: nat, k: nat, c: nat) {
    CellAfterBoldAt(L, k0, k, c) && forall k': nat, c': nat :: CellAfterBoldAt(L, k0, k', c') ==> NoLater(k, c, k', c')
  }

  /** The search for the end of the bold text, from `k0` on the line, finds the first place where a whole cell follows. */
  lemma {:induction false} ItemCellAfterBoldCorrect(L: string, k0: nat)
    requires k0 <= |L|
    ensures ItemCellAfterBold(L, k0).None? <==> forall k: nat, c: nat :: !CellAfterBoldAt(L, k0, k, c)
    ensures ItemCellAfterBold(L, k0).Some? ==>
              exists k: nat, c: nat :: FirstCellAfterBold(L, k0, k, c) && ItemCellAfterBold(L, k0).value == L[CellStart(L, k)..c]
    decreases |L| - k0
  {
    if ClosesCellAt(L, k0) && PlainCellAfter(L, AfterCellClose(L, k0)).Some? {
      var c := PlainCellEnd(L, CellStart(L, k0)).value;
      CellAfterBoldHere(L, k0);
      assert FirstCellAfterBold(L, k0, k0, c);
    } else if k0 == |L| || IsLineTerminator(L[k0]) {
      CellAfterBoldNone(L, k0);
    } else {
      assert ItemCellAfterBold(L, k0) == ItemCellAfterBold(L, k0 + 1);
      ItemCellAfterBoldCorrect(L, k0 + 1);
      CellAfterBoldShift(L, k0);
      if ItemCellAfterBold(L, k0 + 1).Some? {
        var k: nat, c: nat :| FirstCellAfterBold(L, k0 + 1, k, c) && ItemCellAfterBold(L, k0 + 1).value == L[CellStart(L, k)..c];
        assert FirstCellAfterBold(L, k0, k, c);
      }
    }
  }

  /** When a whole cell follows the bold text stopped at `k0`, that stop and the first cell end are the first. */
  lemma CellAfterBoldHere(L: string, k0: nat)
    requires ClosesCellAt(L, k0) && PlainCellAfter(L, AfterCellClose(L, k0)).Some?
    ensures var c := PlainCellEnd(L, CellStart(L, k0)).value;
      FirstCellAfterBold(L, k0, k0, c) && PlainCellAfter(L, AfterCellClose(L, k0)).value == L[CellStart(L, k0)..c]
  {
    CellAfterBoldAtStart(L, k0);
    var c := PlainCellEnd(L, CellStart(L, k0)).value;
    forall k': nat, c': nat | CellAfterBoldAt(L, k0, k', c') ensures NoLater(k0, c, k', c') {
    }
  }

  /** At the end of the line, with no whole cell after a stop at `k0`, the bold text cannot stop anywhere. */
  lemma CellAfterBoldNone(L: string, k0: nat)
    requires k0 <= |L| && (k0 == |L| || IsLineTerminator(L[k0]))
    requires !(ClosesCellAt(L, k0) && PlainCellAfter(L, AfterCellClose(L, k0)).Some?)
    ensures forall k: nat, c: nat :: !CellAfterBoldAt(L, k0, k, c)
  {
    if ClosesCellAt(L, k0) {
      CellAfterBoldAtStart(L, k0);
    }
    forall k: nat, c: nat | CellAfterBoldAt(L, k0, k, c) ensures k == k0 || (k0 < |L| && !IsLineTerminator(L[k0])) {
    }
  }

  /** With no whole cell after a stop at `k0`, and `k0` inside the line, the stops from `k0` are those from `k0 + 1`. */
  lemma CellAfterBoldShift(L: string, k0: nat)
    requires k0 < |L| && !IsLineTerminator(L[k0])
    requires !(ClosesCellAt(L, k0) && PlainCellAfter(L, AfterCellClose(L, k0)).Some?)
    ensures forall k: nat, c: nat :: CellAfterBoldAt(L, k0, k, c) <==> CellAfterBoldAt(L, k0 + 1, k, c)
  {
    if ClosesCellAt(L, k0) {
      CellAfterBoldAtStart(L, k0);
    }
    forall k: nat, c: nat ensures CellAfterBoldAt(L, k0, k, c) <==> CellAfterBoldAt(L, k0 + 1, k, c) {
      if k != k0 {
        CellAfterBoldStep(L, k0, k, c);
      }
    }
  }

  /** Past a character that ends no line, the bold text may stop at the same places. */
  lemma CellAfterBoldStep(L: string, k0: nat, k: nat, c: nat)
    requires k0 < |L| && !IsLineTerminator(L[k0]) && k != k0
    ensures CellAfterBoldAt(L, k0, k, c) <==> CellAfterBoldAt(L, k0 + 1, k, c)
  {
    if k0 < k && ClosesCellAt(L, k) {
      assert OnOneLine(L, k0, k) <==> OnOneLine(L, k0 + 1, k);
    }
  }

  /** The scan from `q` finds an item cell exactly when one matches from `q` on, and then the one JavaScript picks. */
  lemma {:induction false} ItemCellFromCorrect(L: string, q: nat)
    requires q <= |L|
    ensures ItemCellFrom(L, q).None? <==> forall p: nat, w: nat, k: nat, c: nat :: q <= p ==> !ItemCellAt(L, p, w, k, c)
    ensures ItemCellFrom(L, q).Some? ==>
              exists p: nat, w: nat, k: nat, c: nat :: FirstItemCellFrom(L, q, p, w, k, c) && ItemCellFrom(L, q).value == L[CellStart(L, k)..c]
    decreases |L| - q
  {
    var open := BoldCellOpen(L, q);
    if open.Some? && ItemCellAfterBold(L, open.value).Some? {
      ItemCellFoundAt(L, q);
    } else {
      ItemCellNotAt(L, q);
      if q < |L| {
        var q1: nat := q + 1;
        ItemCellFromCorrect(L, q1);
        ItemCellFromStep(L, q, q1);
      } else {
        assert ItemCellFrom(L, q).None?;
      }
    }
  }

  /** With no match at `q`, what the scan finds from `q` is what it finds from `q + 1`. */
  lemma ItemCellFromStep(L: string, q: nat, q1: nat)
    requires q < |L| && q1 == q + 1
    requires !(BoldCellOpen(L, q).Some? && ItemCellAfterBold(L, BoldCellOpen(L, q).value).Some?)
    requires forall w: nat, k: nat, c: nat :: !ItemCellAt(L, q, w, k, c)
    requires ItemCellFrom(L, q1).None? <==> forall p: nat, w: nat, k: nat, c: nat :: q1 <= p ==> !ItemCellAt(L, p, w, k, c)
    requires ItemCellFrom(L, q1).Some? ==>
               exists p: nat, w: nat, k: nat, c: nat :: FirstItemCellFrom(L, q1, p, w, k, c) && ItemCellFrom(L, q1).value == L[CellStart(L, k)..c]
    ensures ItemCellFrom(L, q).None? <==> forall p: nat, w: nat, k: nat, c: nat :: q <= p ==> !ItemCellAt(L, p, w, k, c)
    ensures ItemCellFrom(L, q).Some? ==>
              exists p: nat, w: nat, k: nat, c: nat :: FirstItemCellFrom(L, q, p, w, k, c) && ItemCellFrom(L, q).value == L[CellStart(L, k)..c]
  {
    assert ItemCellFrom(L, q) == ItemCellFrom(L, q1);
    if ItemCellFrom(L, q1).Some? {
      var p: nat, w: nat, k: nat, c: nat :| FirstItemCellFrom(L, q1, p, w, k, c) && ItemCellFrom(L, q1).value == L[CellStart(L, k)..c];
      FirstItemCellShift(L, q, p, w, k, c);
    } else {
      forall p: nat, w: nat, k: nat, c: nat | q <= p ensures !ItemCellAt(L, p, w, k, c) {
        if p != q {
          assert q1 <= p;
        }
      }
    }
  }

  /** When the bold cell opening at `q` is followed by a whole cell, the match starts at `q`. */
  lemma ItemCellFoundAt(L: string, q: nat)
    requires q <= |L|
    requires BoldCellOpen(L, q).Some? && ItemCellAfterBold(L, BoldCellOpen(L, q).value).Some?
    ensures ItemCellFrom(L, q).Some?
    ensures exists k: nat, c: nat :: FirstItemCellFrom(L, q, q, BoldCellOpen(L, q).value - 2, k, c) && ItemCellFrom(L, q).value == L[CellStart(L, k)..c]
  {
    hide BoldCellOpen, ItemCellAfterBold, FirstItemCellFrom, CellStart;
    var open := BoldCellOpen(L, q).value;
    var w: nat := open - 2;
    assert OpensAt(L, q, w) && open <= |L|;
    assert ItemCellFrom(L, q) == ItemCellAfterBold(L, open);
    hide ItemCellFrom, OpensAt;
    ItemCellAfterOpen(L, q, w);
  }

  /** With a bold cell opening at `q` and its `**` at `w`, the first cell after the bold text is the first match from `q`. */
  lemma ItemCellAfterOpen(L: string, q: nat, w: nat)
    requires OpensAt(L, q, w) && w + 2 <= |L| && ItemCellAfterBold(L, w + 2).Some?
    ensures exists k: nat, c: nat :: FirstItemCellFrom(L, q, q, w, k, c) && ItemCellAfterBold(L, w + 2).value == L[CellStart(L, k)..c]
  {
    ItemCellAfterBoldCorrect(L, w + 2);
    var k: nat, c: nat :| FirstCellAfterBold(L, w + 2, k, c) && ItemCellAfterBold(L, w + 2).value == L[CellStart(L, k)..c];
    FirstCellIsFirstItemCell(L, q, w, k, c);
  }

  /** A match whose `|` is at `q` and whose cell is the first after its bold text is the first match from `q`. */
  lemma FirstCellIsFirstItemCell(L: string, q: nat, w: nat, k: nat, c: nat)
    requires OpensAt(L, q, w) && FirstCellAfterBold(L, w + 2, k, c)
    ensures FirstItemCellFrom(L, q, q, w, k, c)
  {
    forall p': nat, w': nat, k': nat, c': nat | q <= p' && ItemCellAt(L, p', w', k', c')
      ensures q < p' || (q == p' && NoLater(k, c, k', c'))
    {
      if p' == q {
        OpensAtUnique(L, q, w', w);
      }
    }
  }

  /** Otherwise no match starts at `q`. */
  lemma ItemCellNotAt(L: string, q: nat)
    requires q <= |L|
    requires !(BoldCellOpen(L, q).Some? && ItemCellAfterBold(L, BoldCellOpen(L, q).value).Some?)
    ensures forall w: nat, k: nat, c: nat :: !ItemCellAt(L, q, w, k, c)
  {
    var open := BoldCellOpen(L, q);
    if open.Some? {
      NoCellAfterOpen(L, q, open.value);
    } else {
      NoOpenAt(L, q);
    }
  }

  lemma NoOpenAt(L: string, q: nat)
    requires BoldCellOpen(L, q).None?
    ensures forall w: nat, k: nat, c: nat :: !ItemCellAt(L, q, w, k, c)
  {
    forall w: nat, k: nat, c: nat | ItemCellAt(L, q, w, k, c) ensures false {
      ItemCellAtOpens(L, q, w, k, c);
    }
  }

  lemma NoCellAfterOpen(L: string, q: nat, o: nat)
    requires BoldCellOpen(L, q) == Some(o) && o <= |L| && ItemCellAfterBold(L, o).None?
    ensures forall w: nat, k: nat, c: nat :: !ItemCellAt(L, q, w, k, c)
  {
    ItemCellAfterBoldNone(L, o);
    forall w: nat, k: nat, c: nat | ItemCellAt(L, q, w, k, c) ensures false {
      ItemCellAtOpens(L, q, w, k, c);
    }
  }

  lemma ItemCellAfterBoldNone(L: string, k0: nat)
    requires k0 <= |L| && ItemCellAfterBold(L, k0).None?
    ensures forall k: nat, c: nat :: !CellAfterBoldAt(L, k0, k, c)
  {
    ItemCellAfterBoldCorrect(L, k0);
  }

  /** A match at `q` opens with the bold cell `BoldCellOpen` finds, and a whole cell follows its bold text. */
  lemma ItemCellAtOpens(L: string, q: nat, w: nat, k: nat, c: nat)
    requires ItemCellAt(L, q, w, k, c)
    ensures BoldCellOpen(L, q) == Some(w + 2) && CellAfterBoldAt(L, w + 2, k, c)
  {
    var open := BoldCellOpen(L, q);
    assert open.Some? && OpensAt(L, q, open.value - 2);
    OpensAtUnique(L, q, w, open.value - 2);
  }

  /** With no match at `q`, the first match from `q + 1` is the first from `q`. */
  lemma FirstItemCellShift(L: string, q: nat, p: nat, w: nat, k: nat, c: nat)
    requires forall w: nat, k: nat, c: nat :: !ItemCellAt(L, q, w, k, c)
    requires FirstItemCellFrom(L, q + 1, p, w, k, c)
    ensures FirstItemCellFrom(L, q, p, w, k, c)
  {
    forall p': nat, w': nat, k': nat, c': nat | q <= p' && ItemCellAt(L, p', w', k', c')
      ensures p < p' || (p == p' && NoLater(k, c, k', c'))
    {
      assert p' != q;
    }
  }

  /**
   * A header row has an item cell exactly when, after the bold cell, white
   * space, text on one line, white space and a `|` follow; the items are the
   * text of the first such cell after the shortest bold text that allows one.
   */
  lemma HeaderItemCellIff(L: string)
    ensures HeaderItemCell(L).None? <==> forall p: nat, w: nat, k: nat, c: nat :: !ItemCellAt(L, p, w, k, c)
    ensures HeaderItemCell(L).Some? ==>
              exists p: nat, w: nat, k: nat, c: nat :: FirstItemCellFrom(L, 0, p, w, k, c) && HeaderItemCell(L).value == L[CellStart(L, k)..c]
  {
    ItemCellFromCorrect(L, 0);
  }

  // ---------------------------------------------------------------------
  // Line-strategy headers: /\*\*(.*?)\*\*/ || /^(Breakfast|Lunch|Dinner|Snack|Dessert)/i

  /** The first `c >= k` on the line where `**` starts, or `None` when no place on the rest of the line has one. */
  function StarsFrom(L: string, k: nat): (r: Option<nat>)
    requires k <= |L|
    ensures r.Some? ==> k <= r.value && OccursAt(L, "**", r.value) && OnOneLine(L, k, r.value)
    ensures r.Some? ==> forall c: nat :: k <= c < r.value ==> !OccursAt(L, "**", c)
    ensures r.None? ==> forall c: nat :: k <= c <= |L| && OnOneLine(L, k, c) ==> !OccursAt(L, "**", c)
    decreases |L| - k
  {
    if OccursAt(L, "**", k) then Some(k)
    else if k == |L| || IsLineTerminator(L[k]) then
      assert forall c: nat :: k < c <= |L| ==> !OnOneLine(L, k, c) by {
        forall c: nat | k < c <= |L| ensures !OnOneLine(L, k, c) {
          assert IsLineTerminator(L[k]);
        }
      }
      None
    else
      var r := StarsFrom(L, k + 1);
      assert forall c: nat :: k < c <= |L| && OnOneLine(L, k, c) ==> OnOneLine(L, k + 1, c);
      assert r.Some? ==> OnOneLine(L, k, r.value) by {
        if r.Some? {
          forall m | k <= m < r.value ensures !IsLineTerminator(L[m]) {
            if m > k { assert k + 1 <= m < r.value; }
          }
        }
      }
      r
  }

  /** Leftmost `**…**` at or after `p`: the capture and the whole match. */
  function BoldFrom(L: string, p: nat): Option<(string, string)>
    requires p <= |L|
    decreases |L| - p
  {
    if OccursAt(L, "**", p) && StarsFrom(L, p + 2).Some? then
      var c := StarsFrom(L, p + 2).value;
      Some((L[p + 2..c], L[p..c + 2]))
    else if p == |L| then None
    else BoldFrom(L, p + 1)
  }

  /** `**` at `p` and another on the same line at `c`: a match of `\*\*(.*?)\*\*`. */
  predicate BoldAt(L: string, p: nat, c: nat) {
    p + 2 <= c && OccursAt(L, "**", p) && OccursAt(L, "**", c) && OnOneLine(L, p + 2, c)
  }

  /** The bold match JavaScript picks from `q` on: the leftmost opening `**`, then the nearest closing one. */
  ghost predicate FirstBoldFrom(L: string, q: nat, p: nat, c: nat) {
    q <= p && BoldAt(L, p, c) && forall p': nat, c': nat :: q <= p' && BoldAt(L, p', c') ==> p < p' || (p == p' && c <= c')
  }

  /** The scan from `q` finds a bold match exactly when one exists from `q` on, and then the one JavaScript picks. */
  lemma {:induction false} BoldFromCorrect(L: string, q: nat)
    requires q <= |L|
    ensures BoldFrom(L, q).None? <==> forall p: nat, c: nat :: q <= p ==> !BoldAt(L, p, c)
    ensures BoldFrom(L, q).Some? ==>
              exists p: nat, c: nat :: FirstBoldFrom(L, q, p, c) && BoldFrom(L, q).value == (L[p + 2..c], L[p..c + 2])
    decreases |L| - q
  {
    if OccursAt(L, "**", q) && StarsFrom(L, q + 2).Some? {
      BoldFoundAt(L, q);
    } else if q < |L| {
      BoldNotAt(L, q);
      var q1: nat := q + 1;
      BoldFromCorrect(L, q1);
      BoldFromStep(L, q, q1);
    }
  }

  /** An opening `**` at `q` with a closing one on its line: the match starts at `q` and closes at the nearest. */
  lemma BoldFoundAt(L: string, q: nat)
    requires q <= |L| && OccursAt(L, "**", q) && StarsFrom(L, q + 2).Some?
    ensures BoldFrom(L, q) == Some((L[q + 2..StarsFrom(L, q + 2).value], L[q..StarsFrom(L, q + 2).value + 2]))
    ensures FirstBoldFrom(L, q, q, StarsFrom(L, q + 2).value)
  {
    var c := StarsFrom(L, q + 2).value;
    assert BoldAt(L, q, c);
  }

  /** Otherwise no match starts at `q`. */
  lemma BoldNotAt(L: string, q: nat)
    requires q <= |L| && !(OccursAt(L, "**", q) && StarsFrom(L, q + 2).Some?)
    ensures forall c: nat :: !BoldAt(L, q, c)
  {
  }

  /** With no match at `q`, what the scan finds from `q` is what it finds from `q + 1`. */
  lemma BoldFromStep(L: string, q: nat, q1: nat)
    requires q < |L| && q1 == q + 1 && !(OccursAt(L, "**", q) && StarsFrom(L, q + 2).Some?)
    requires forall c: nat :: !BoldAt(L, q, c)
    requires BoldFrom(L, q1).None? <==> forall p: nat, c: nat :: q1 <= p ==> !BoldAt(L, p, c)
    requires BoldFrom(L, q1).Some? ==>
               exists p: nat, c: nat :: FirstBoldFrom(L, q1, p, c) && BoldFrom(L, q1).value == (L[p + 2..c], L[p..c + 2])
    ensures BoldFrom(L, q).None? <==> forall p: nat, c: nat :: q <= p ==> !BoldAt(L, p, c)
    ensures BoldFrom(L, q).Some? ==>
              exists p: nat, c: nat :: FirstBoldFrom(L, q, p, c) && BoldFrom(L, q).value == (L[p + 2..c], L[p..c + 2])
  {
    assert BoldFrom(L, q) == BoldFrom(L, q1);
    if BoldFrom(L, q1).Some? {
      var p: nat, c: nat :| FirstBoldFrom(L, q1, p, c) && BoldFrom(L, q1).value == (L[p + 2..c], L[p..c + 2]);
      forall p': nat, c': nat | q <= p' && BoldAt(L, p', c') ensures p < p' || (p == p' && c <= c') {
        assert p' != q;
      }
      assert FirstBoldFrom(L, q, p, c);
    } else {
      forall p: nat, c: nat | q <= p ensures !BoldAt(L, p, c) {
        if p != q {
          assert q1 <= p;
        }
      }
    }
  }

  const MealWords: seq<string> := ["breakfast", "lunch", "dinner", "snack", "dessert"]

  /**
   * `^(Breakfast|Lunch|Dinner|Snack|Dessert)` without case, trying the words
   * from `k` on: the first meal word the line starts with, in the line's own
   * case, or `None` when it starts with none of them.
   */
  function MealWordPrefix(L: string, k: nat): (r: Option<string>)
    requires k <= |MealWords|
    ensures r.None? <==> forall j :: k <= j < |MealWords| ==> !WordAt(L, 0, MealWords[j])
    ensures r.Some? ==> exists j :: k <= j < |MealWords| && WordAt(L, 0, MealWords[j]) && r.value == L[..|MealWords[j]|]
                                    && forall i :: k <= i < j ==> !WordAt(L, 0, MealWords[i])
    ensures r.Some? ==> ToLower(r.value) in MealWords
    decreases |MealWords| - k
  {
    if k == |MealWords| then None
    else if WordAt(L, 0, MealWords[k]) then Some(L[..|MealWords[k]|])
    else MealWordPrefix(L, k + 1)
  }

  /**
   * `mealMatch[1] || mealMatch[0]` of the line strategy: the bold text, or
   * the whole `**…**` when that text is empty, else the leading meal word.
   */
  function MealHeader(L: string): Option<string> {
    match BoldFrom(L, 0)
    case Some(m) => Some(if m.0 != "" then m.0 else m.1)
    case None => MealWordPrefix(L, 0)
  }

  /**
   * A line is a line-strategy header exactly when it holds a `**…**` on one
   * line or starts with a meal word. The name is the text of the leftmost
   * bold match (the whole match when that text is empty), else the meal word.
   */
  lemma MealHeaderIff(L: string)
    ensures MealHeader(L).None? <==>
              (forall p: nat, c: nat :: !BoldAt(L, p, c)) && forall j :: 0 <= j < |MealWords| ==> !WordAt(L, 0, MealWords[j])
    ensures (exists p: nat, c: nat :: BoldAt(L, p, c)) ==>
              exists p: nat, c: nat :: FirstBoldFrom(L, 0, p, c) && MealHeader(L) == Some(if p + 2 < c then L[p + 2..c] else L[p..c + 2])
    ensures (forall p: nat, c: nat :: !BoldAt(L, p, c)) ==> MealHeader(L) == MealWordPrefix(L, 0)
  {
    BoldFromCorrect(L, 0);
  }

  // ---------------------------------------------------------------------
  // Line-strategy item cleaning

  /** The line starts with a bullet, `•` or `-`. */
  predicate HasBullet(s: string) {
    s != [] && (s[0] == '•' || s[0] == '-')
  }

  /** `.replace(/^[•-]\s*\/, '')`: the rest of the line after the bullet and the white space that follows it. */
  function StripBullet(s: string): (r: string)
    ensures |r| <= |s| && r == s[|s| - |r|..]
    ensures !HasBullet(s) ==> r == s
    ensures HasBullet(s) ==> |r| < |s| && (forall k :: 1 <= k < |s| - |r| ==> IsSpace(s[k])) && (r == [] || !IsSpace(r[0]))
  {
    if HasBullet(s) then s[SkipSpaces(s, 1)..] else s
  }

  /** The line starts with a digit. */
  predicate HasOrdinal(s: string) {
    s != [] && IsDigit(s[0])
  }

  /**
   * `.replace(/^\d+[.)]?\s*\/, '')`: the rest of the line after all its
   * leading digits, then a `.` or `)` if one follows, then white space.
   */
  function StripOrdinal(s: string): (r: string)
    ensures |r| <= |s| && r == s[|s| - |r|..]
    ensures !HasOrdinal(s) ==> r == s
    ensures HasOrdinal(s) ==>
              var e, n := DigitsEnd(s, 0), |s| - |r|;
              var mark := e < |s| && (s[e] == '.' || s[e] == ')');
              (if mark then e < n else e <= n)
              && (forall k :: (if mark then e + 1 else e) <= k < n ==> IsSpace(s[k]))
              && (r == [] || !IsSpace(r[0]))
  {
    if HasOrdinal(s) then
      var e := DigitsEnd(s, 0);
      var e' := if e < |s| && (s[e] == '.' || s[e] == ')') then e + 1 else e;
      s[SkipSpaces(s, e')..]
    else s
  }

  /** `.replace(/\|/g, '')`: every character but `|` is kept, as often as it occurs. */
  function RemovePipes(s: string): (r: string)
    ensures '|' !in r
    ensures forall c :: c != '|' ==> multiset(r)[c] == multiset(s)[c]
    ensures '|' !in s ==> r == s
  {
    if s == [] then []
    else
      var rest := RemovePipes(s[1..]);
      assert s == [s[0]] + s[1..];
      (if s[0] == '|' then [] else [s[0]]) + rest
  }

  /** One step of the removal: the head is kept unless it is a pipe. */
  lemma RemovePipesCons(s: string)
    requires s != []
    ensures RemovePipes(s) == (if s[0] == '|' then [] else [s[0]]) + RemovePipes(s[1..])
  {
  }

  /** Pipes are removed piece by piece: the order of what is kept does not change. */
  lemma {:induction false} RemovePipesConcat(a: string, b: string)
    ensures RemovePipes(a + b) == RemovePipes(a) + RemovePipes(b)
  {
    hide RemovePipes;
    if a != [] {
      var head := if a[0] == '|' then [] else [a[0]];
      assert (a + b)[0] == a[0] && (a + b)[1..] == a[1..] + b;
      RemovePipesCons(a + b);
      RemovePipesCons(a);
      RemovePipesConcat(a[1..], b);
      assert head + (RemovePipes(a[1..]) + RemovePipes(b)) == (head + RemovePipes(a[1..])) + RemovePipes(b);
    } else {
      assert a + b == b;
    }
  }

  /**
   * The cleaned item text of a line-strategy item line: the line after a
   * leading bullet and ordinal, without pipes, trimmed. A plain line is
   * only trimmed.
   */
  function CleanItem(line: string): (r: string)
    ensures '|' !in r
    ensures r == [] || (!IsSpace(r[0]) && !IsSpace(r[|r| - 1]))
    ensures !HasBullet(line) && !HasOrdinal(line) && '|' !in line ==> r == Trim(line)
  {
    Trim(RemovePipes(StripOrdinal(StripBullet(line))))
  }

  /** The cleaned item is the rest of the line after the bullet, then the ordinal, are stripped, without pipes, trimmed. */
  lemma CleanItemStrips(line: string)
    ensures var rest := StripOrdinal(StripBullet(line));
      |rest| <= |line| && rest == line[|line| - |rest|..] && CleanItem(line) == Trim(RemovePipes(rest))
  {
    var b := StripBullet(line);
    var o := StripOrdinal(b);
    var nb, no := |line| - |b|, |b| - |o|;
    assert b == line[nb..] && o == b[no..];
    assert b[no..] == line[nb + no..];
  }

  /** `item.match(/^[-=*_]+$/)`: a non-empty rule made only of `-`, `=`, `*`, `_`. */
  predicate IsRule(s: string) {
    s != [] && forall c :: c in s ==> c in "-=*_"
  }
}
