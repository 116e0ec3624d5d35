/**
 * String primitives shared by the models: the white-space set that
 * JavaScript's `String.prototype.trim` and the regular-expression class `\s`
 * use, the line terminators that the regular-expression `.` refuses,
 * `split` on one character, `join`, substring search and ASCII case mapping.
 * Strings are sequences of characters.
 */
module Text {

  /** White space as JavaScript's `trim` and `\s` see it (WhiteSpace and LineTerminator). */
  predicate IsSpace(c: char) {
    c == '\t' || c == '\n' || c == '\U{000B}' || c == '\U{000C}' || c == '\r' || c == ' '
    || c == '\U{00A0}' || c == '\U{1680}' || ('\U{2000}' <= c <= '\U{200A}')
    || c == '\U{2028}' || c == '\U{2029}' || c == '\U{202F}' || c == '\U{205F}'
    || c == '\U{3000}' || c == '\U{FEFF}'
  }

  /** The characters a regular-expression `.` does not match. */
  predicate IsLineTerminator(c: char) {
    c == '\n' || c == '\r' || c == '\U{2028}' || c == '\U{2029}'
  }

  lemma LineTerminatorIsSpace(c: char)
    ensures IsLineTerminator(c) ==> IsSpace(c)
  {
  }

  predicate IsDigit(c: char) { '0' <= c <= '9' }

  /** End of the run of ASCII digits that starts at `i`. */
  function DigitsEnd(s: string, i: nat): (j: nat)
    requires i <= |s|
    ensures i <= j <= |s|
    ensures forall k :: i <= k < j ==> IsDigit(s[k])
    ensures j == |s| || !IsDigit(s[j])
    decreases |s| - i
  {
    if i == |s| || !IsDigit(s[i]) then i else DigitsEnd(s, i + 1)
  }

  predicate StartsWith(s: string, prefix: string) {
    |prefix| <= |s| && s[..|prefix|] == prefix
  }

  predicate EndsWith(s: string, suffix: string) {
    |suffix| <= |s| && s[|s| - |suffix|..] == suffix
  }

  /** `t` occurs in `s` starting at index `i`. */
  predicate OccursAt(s: string, t: string, i: nat) {
    i + |t| <= |s| && s[i..i + |t|] == t
  }

  /** `s.includes(t)`: `t` occurs at some position of `s`. */
  predicate Contains(s: string, t: string) {
    exists i :: 0 <= i <= |s| && OccursAt(s, t, i)
  }

  /** Every position of a slice of `s` lies inside `s`, so whatever `s` lacks, its slices lack. */
  lemma ContainsSlice(s: string, a: nat, b: nat, t: string)
    requires a <= b <= |s|
    ensures Contains(s[a..b], t) ==> Contains(s, t)
  {
    if Contains(s[a..b], t) {
      var i :| 0 <= i <= b - a && OccursAt(s[a..b], t, i);
      assert i + |t| <= b - a;
      var u, v := s[a + i..a + i + |t|], s[a..b][i..i + |t|];
      forall k | 0 <= k < |t| ensures u[k] == v[k] {
        assert s[a..b][i + k] == s[a + i + k];
      }
      assert u == v;
      assert OccursAt(s, t, a + i);
    }
  }

  /** First index at or after `i` that is not white space. */
  function SkipSpaces(s: string, i: nat): (j: nat)
    requires i <= |s|
    ensures i <= j <= |s|
    ensures forall k :: i <= k < j ==> IsSpace(s[k])
    ensures j == |s| || !IsSpace(s[j])
    decreases |s| - i
  {
    if i == |s| || !IsSpace(s[i]) then i else SkipSpaces(s, i + 1)
  }

  /** Least index `k <= j` such that `s[k..j]` is all white space. */
  function SkipSpacesBack(s: string, j: nat): (k: nat)
    requires j <= |s|
    ensures k <= j
    ensures forall m :: k <= m < j ==> IsSpace(s[m])
    ensures k == 0 || !IsSpace(s[k - 1])
  {
    if j == 0 || !IsSpace(s[j - 1]) then j else SkipSpacesBack(s, j - 1)
  }

  /** JavaScript `trim`: drops leading and trailing white space. */
  function Trim(s: string): (r: string)
    ensures |r| <= |s|
    ensures r == [] || (!IsSpace(r[0]) && !IsSpace(r[|r| - 1]))
    ensures forall c :: c in r ==> c in s
    ensures r == [] <==> forall k :: 0 <= k < |s| ==> IsSpace(s[k])
    ensures exists a, b ::
              0 <= a <= b <= |s| && r == s[a..b]
              && (forall k :: 0 <= k < a ==> IsSpace(s[k])) && (forall k :: b <= k < |s| ==> IsSpace(s[k]))
  {
    var a := SkipSpaces(s, 0);
    var b := SkipSpacesBack(s, |s|);
    if a < b then s[a..b]
    else
      assert forall k :: 0 <= k < |s| ==> IsSpace(s[k]) by {
        forall k | 0 <= k < |s| ensures IsSpace(s[k]) {
          if k >= a && k < b { assert false; }
        }
      }
      s[0..0]
  }

  /** A string without white space at either end is its own trim. */
  lemma TrimOfTrimmed(s: string)
    requires s == [] || (!IsSpace(s[0]) && !IsSpace(s[|s| - 1]))
    ensures Trim(s) == s
  {
    if s != [] {
      assert SkipSpaces(s, 0) == 0;
      assert SkipSpacesBack(s, |s|) == |s|;
    }
  }

  lemma TrimIdempotent(s: string)
    ensures Trim(Trim(s)) == Trim(s)
  {
    TrimOfTrimmed(Trim(s));
  }

  /** JavaScript `s.split(d)` for a one-character separator. */
  function Split(s: string, d: char): (r: seq<string>)
    ensures |r| >= 1
    ensures forall k :: 0 <= k < |r| ==> d !in r[k]
    ensures forall k, c :: 0 <= k < |r| && c in r[k] ==> c in s
  {
    if s == [] then [""]
    else
      var rest := Split(s[1..], d);
      assert forall c :: c in s[1..] ==> c in s;
      if s[0] == d then [""] + rest else [[s[0]] + rest[0]] + rest[1..]
  }

  /** JavaScript `xs.join(sep)`. */
  function Join(xs: seq<string>, sep: string): string {
    if |xs| == 0 then ""
    else if |xs| == 1 then xs[0]
    else xs[0] + sep + Join(xs[1..], sep)
  }

  /** Splitting on a character and joining with it again gives back the text. */
  lemma {:induction false} JoinSplit(s: string, d: char)
    ensures Join(Split(s, d), [d]) == s
  {
    if s != [] {
      var rest := Split(s[1..], d);
      JoinSplit(s[1..], d);
      if s[0] == d {
        assert Split(s, d) == [""] + rest;
        calc {
          Join([""] + rest, [d]);
          "" + [d] + Join(rest, [d]);
          { assert ([""] + rest)[1..] == rest; }
          [d] + s[1..];
        }
      } else {
        var h := [s[0]] + rest[0];
        assert Split(s, d) == [h] + rest[1..];
        if |rest| == 1 {
          assert Join(rest, [d]) == rest[0];
        } else {
          assert Join(rest, [d]) == rest[0] + [d] + Join(rest[1..], [d]);
          assert ([h] + rest[1..])[1..] == rest[1..];
        }
      }
    }
  }

  /** Splitting `s` on `d` after a separator that follows `a` splits `a` and `s` apart. */
  lemma {:induction false} SplitConcat(a: string, b: string, d: char)
    ensures Split(a + [d] + b, d) == Split(a, d) + Split(b, d)
  {
    if a == [] {
      assert a + [d] + b == [d] + b;
      assert ([d] + b)[1..] == b;
    } else {
      assert (a + [d] + b)[1..] == a[1..] + [d] + b;
      SplitConcat(a[1..], b, d);
    }
  }

  /** Text without the separator is a single piece. */
  lemma {:induction false} SplitNoSeparator(s: string, d: char)
    requires d !in s
    ensures Split(s, d) == [s]
  {
    if s != [] {
      SplitNoSeparator(s[1..], d);
      assert [s[0]] + s[1..] == s;
    }
  }

  /** The first piece runs up to the first separator, and the rest is split after it. */
  lemma SplitFirst(s: string, d: char, n: nat)
    requires n < |s| && s[n] == d && d !in s[..n]
    ensures Split(s, d) == [s[..n]] + Split(s[n + 1..], d)
  {
    SplitNoSeparator(s[..n], d);
    SplitConcat(s[..n], s[n + 1..], d);
    assert s[..n] + [d] + s[n + 1..] == s;
  }

  /** The first piece is the text up to the first separator; the other pieces split what follows it. */
  lemma {:induction false} SplitHead(s: string, d: char)
    ensures var r := Split(s, d);
      StartsWith(s, r[0]) && (|r| == 1 <==> |r[0]| == |s|)
      && (|r| > 1 ==> s[|r[0]|] == d && r[1..] == Split(s[|r[0]| + 1..], d))
  {
    if s != [] && s[0] != d {
      SplitHead(s[1..], d);
      var rest := Split(s[1..], d);
      assert s[1..][|rest[0]|..] == s[|rest[0]| + 1..];
      if |rest| > 1 {
        assert s[1..][|rest[0]| + 1..] == s[|rest[0]| + 2..];
      }
    }
  }

  /** `<br>` at the head of `[c] + p`, where `p` starts `t`, means `<br>` at the head of `[c] + t`. */
  lemma ConsNoBr(c: char, p: string, t: string)
    requires StartsWith(t, p) && !StartsWith([c] + t, "<br>") && !Contains(p, "<br>")
    ensures !Contains([c] + p, "<br>")
  {
    var q := [c] + p;
    forall i | 0 <= i <= |q| ensures !OccursAt(q, "<br>", i) {
      if i + 4 <= |q| {
        if i == 0 {
          assert q[..4] == ([c] + t)[..4];
        } else {
          assert !OccursAt(p, "<br>", i - 1);
          assert q[i..i + 4] == p[i - 1..i + 3];
        }
      }
    }
  }

  /**
   * JavaScript `s.split(/<br>|X|Y/)`: the separators are the four characters
   * `<br>` and every single character of `seps`, tried left to right. The
   * first piece is where `s` starts, and no piece holds a separator.
   */
  function SplitPieces(s: string, seps: set<char>): (r: seq<string>)
    ensures |r| >= 1 && StartsWith(s, r[0])
    ensures forall k, c :: 0 <= k < |r| && c in r[k] ==> c in s && c !in seps
    ensures forall k :: 0 <= k < |r| ==> !Contains(r[k], "<br>")
  {
    if s == [] then [""]
    else if StartsWith(s, "<br>") then
      assert forall c :: c in s[4..] ==> c in s;
      assert !Contains("", "<br>");
      [""] + SplitPieces(s[4..], seps)
    else if s[0] in seps then
      assert forall c :: c in s[1..] ==> c in s;
      assert !Contains("", "<br>");
      [""] + SplitPieces(s[1..], seps)
    else
      assert forall c :: c in s[1..] ==> c in s;
      var rest := SplitPieces(s[1..], seps);
      assert s == [s[0]] + s[1..];
      ConsNoBr(s[0], rest[0], s[1..]);
      assert StartsWith(s, [s[0]] + rest[0]) by {
        assert s[..1 + |rest[0]|] == [s[0]] + s[1..][..|rest[0]|];
      }
      [[s[0]] + rest[0]] + rest[1..]
  }

  /** The separators `SplitPieces` cuts at, in order. */
  function PieceSeparators(s: string, seps: set<char>): seq<string> {
    if s == [] then []
    else if StartsWith(s, "<br>") then ["<br>"] + PieceSeparators(s[4..], seps)
    else if s[0] in seps then [[s[0]]] + PieceSeparators(s[1..], seps)
    else PieceSeparators(s[1..], seps)
  }

  /** The pieces with the separators put back between them. */
  function Interleave(pieces: seq<string>, ds: seq<string>): string
    requires |pieces| == |ds| + 1
  {
    pieces[0] + Rejoin(pieces[1..], ds)
  }

  /** Each separator followed by the piece after it. */
  function Rejoin(pieces: seq<string>, ds: seq<string>): string
    requires |pieces| == |ds|
    decreases |ds|
  {
    if ds == [] then "" else ds[0] + pieces[0] + Rejoin(pieces[1..], ds[1..])
  }

  lemma {:induction false} PieceSeparatorsShape(s: string, seps: set<char>)
    ensures |SplitPieces(s, seps)| == |PieceSeparators(s, seps)| + 1
    ensures forall d :: d in PieceSeparators(s, seps) ==> d == "<br>" || (|d| == 1 && d[0] in seps)
    decreases |s|
  {
    if s != [] {
      if StartsWith(s, "<br>") {
        PieceSeparatorsShape(s[4..], seps);
      } else {
        PieceSeparatorsShape(s[1..], seps);
      }
    }
  }

  /** A text that starts with a separator: an empty piece, then the pieces of the rest. */
  lemma SplitPiecesAtSeparator(s: string, seps: set<char>, n: nat)
    requires s != [] && n == (if StartsWith(s, "<br>") then 4 else 1)
    requires StartsWith(s, "<br>") || s[0] in seps
    ensures n <= |s|
    ensures SplitPieces(s, seps) == [""] + SplitPieces(s[n..], seps)
    ensures PieceSeparators(s, seps) == [s[..n]] + PieceSeparators(s[n..], seps)
  {
    if StartsWith(s, "<br>") {
      assert s[..4] == "<br>";
    } else {
      assert s[..1] == [s[0]];
    }
  }

  /** A text that starts with any other character: it goes to the front of the first piece. */
  lemma SplitPiecesAtPlain(s: string, seps: set<char>)
    requires s != [] && !StartsWith(s, "<br>") && s[0] !in seps
    ensures SplitPieces(s, seps) == [[s[0]] + SplitPieces(s[1..], seps)[0]] + SplitPieces(s[1..], seps)[1..]
    ensures PieceSeparators(s, seps) == PieceSeparators(s[1..], seps)
  {
  }

  lemma InterleaveSeparator(d: string, r: seq<string>, ds: seq<string>)
    requires |r| == |ds| + 1
    ensures Interleave([""] + r, [d] + ds) == d + Interleave(r, ds)
  {
    var r0 := [""] + r;
    assert r0[1..] == r && r0[1..][1..] == r[1..] && ([d] + ds)[1..] == ds;
  }

  lemma InterleaveGlue(c: char, r: seq<string>, ds: seq<string>)
    requires |r| == |ds| + 1
    ensures Interleave([[c] + r[0]] + r[1..], ds) == [c] + Interleave(r, ds)
  {
    var r0 := [[c] + r[0]] + r[1..];
    assert r0[1..] == r[1..];
  }

  /** Putting the separators back between the pieces gives back the text, so no character is lost. */
  lemma {:induction false} SplitPiecesRoundTrip(s: string, seps: set<char>)
    ensures |SplitPieces(s, seps)| == |PieceSeparators(s, seps)| + 1
    ensures Interleave(SplitPieces(s, seps), PieceSeparators(s, seps)) == s
    decreases |s|
  {
    if s == [] {
      assert Interleave([""], []) == "";
    } else {
      if StartsWith(s, "<br>") || s[0] in seps {
        var n := if StartsWith(s, "<br>") then 4 else 1;
        SplitPiecesAtSeparator(s, seps, n);
        SplitPiecesRoundTrip(s[n..], seps);
        InterleaveSeparator(s[..n], SplitPieces(s[n..], seps), PieceSeparators(s[n..], seps));
        assert s == s[..n] + s[n..];
      } else {
        SplitPiecesAtPlain(s, seps);
        SplitPiecesRoundTrip(s[1..], seps);
        InterleaveGlue(s[0], SplitPieces(s[1..], seps), PieceSeparators(s[1..], seps));
        assert s == [s[0]] + s[1..];
      }
    }
  }

  function LowerChar(c: char): char {
    if 'A' <= c <= 'Z' then (c as int + 32) as char else c
  }

  function UpperChar(c: char): char {
    if 'a' <= c <= 'z' then (c as int - 32) as char else c
  }

  /** `toLowerCase` restricted to ASCII letters. */
  function ToLower(s: string): (r: string)
    ensures |r| == |s| && forall i :: 0 <= i < |s| ==> r[i] == LowerChar(s[i])
    ensures forall i :: 0 <= i < |r| ==> !('A' <= r[i] <= 'Z')
  {
    seq(|s|, i requires 0 <= i < |s| => LowerChar(s[i]))
  }

  /** Python `str.upper` restricted to ASCII letters. */
  function ToUpper(s: string): (r: string)
    ensures |r| == |s| && forall i :: 0 <= i < |s| ==> r[i] == UpperChar(s[i])
    ensures forall i :: 0 <= i < |r| ==> !('a' <= r[i] <= 'z')
  {
    seq(|s|, i requires 0 <= i < |s| => UpperChar(s[i]))
  }

  /** Lower-casing twice is lower-casing once: no letter is left for a second pass. */
  lemma ToLowerIdempotent(s: string)
    ensures ToLower(ToLower(s)) == ToLower(s)
  {
    var t := ToLower(s);
    forall i | 0 <= i < |t| ensures ToLower(t)[i] == t[i] {
      assert !('A' <= t[i] <= 'Z');
    }
  }
}
