/**
 * The global replacement `replace(/=s\d+(-c)?/g, rep)` used on Google
 * profile-picture URLs: scanning left to right, each size token `=s<digits>`
 * with an optional `-c` is replaced, and the scan resumes after it.
 */
module SizeTokens {
  import opened Text

  /** The size suffix Google profile pictures are requested with. */
  const Size96: string := "=s96-c"

  /**
   * Length of the size token at the start of `s`, or 0: `=s`, every digit
   * that follows (greedily), then `-c` when it comes next.
   */
  function TokenLen(s: string): (n: nat)
    ensures n > 0 <==> |s| >= 3 && s[0] == '=' && s[1] == 's' && IsDigit(s[2])
    ensures n <= |s|
    ensures n > 0 ==>
              exists e :: 3 <= e <= n && (forall k :: 2 <= k < e ==> IsDigit(s[k])) && (e == |s| || !IsDigit(s[e]))
                && (n == e + 2 <==> StartsWith(s[e..], "-c")) && (n == e || n == e + 2)
  {
    if |s| >= 3 && s[0] == '=' && s[1] == 's' && IsDigit(s[2]) then
      var e := DigitsEnd(s, 2);
      if e + 2 <= |s| && s[e] == '-' && s[e + 1] == 'c' then e + 2 else e
    else 0
  }

  /** `s.replace(/=s\d+(-c)?/g, rep)` */
  function Replace(s: string, rep: string): string
    decreases |s|
  {
    if s == [] then []
    else
      var n := TokenLen(s);
      if n > 0 then rep + Replace(s[n..], rep) else [s[0]] + Replace(s[1..], rep)
  }

  /** Some size token starts somewhere in `s`. */
  predicate HasToken(s: string) {
    exists i :: 0 <= i < |s| && TokenLen(s[i..]) > 0
  }

  /** Text without a size token is left as it is. */
  lemma {:induction false} NoTokenUnchanged(s: string, rep: string)
    requires !HasToken(s)
    ensures Replace(s, rep) == s
  {
    if s != [] {
      assert TokenLen(s[0..]) == 0 by { assert s[0..] == s; }
      assert !HasToken(s[1..]) by {
        forall i | 0 <= i < |s[1..]| ensures TokenLen(s[1..][i..]) == 0 {
          assert s[1..][i..] == s[i + 1..];
        }
      }
      NoTokenUnchanged(s[1..], rep);
    }
  }

  /** A prefix without `=` holds no token start, so it passes through untouched. */
  lemma {:induction false} PrefixUntouched(p: string, t: string, rep: string)
    requires '=' !in p
    ensures Replace(p + t, rep) == p + Replace(t, rep)
    decreases |p|
  {
    if p != [] {
      var s := p + t;
      assert s[0] == p[0] && s[1..] == p[1..] + t;
      PlainStep(s, rep);
      assert '=' !in p[1..] by { assert forall c :: c in p[1..] ==> c in p; }
      PrefixUntouched(p[1..], t, rep);
      assert p == [p[0]] + p[1..];
    } else {
      assert p + t == t;
    }
  }

  /** A character other than `=` is copied and the scan moves on. */
  lemma PlainStep(s: string, rep: string)
    requires s != [] && s[0] != '='
    ensures Replace(s, rep) == [s[0]] + Replace(s[1..], rep)
  {
    assert TokenLen(s) == 0;
  }

  /** The replacement token is itself exactly one whole token. */
  lemma Size96IsToken(u: string)
    ensures TokenLen(Size96 + u) == |Size96|
  {
    var s := Size96 + u;
    assert s[0] == '=' && s[1] == 's' && s[2] == '9' && s[3] == '6' && s[4] == '-' && s[5] == 'c';
    assert DigitsEnd(s, 4) == 4;
    assert DigitsEnd(s, 3) == 4;
    assert DigitsEnd(s, 2) == 4;
  }

  /** What the output of a replacement with `Size96` starts with. */
  lemma ReplaceHead(x: string)
    ensures x == [] ==> Replace(x, Size96) == []
    ensures TokenLen(x) > 0 ==> |Replace(x, Size96)| >= 1 && Replace(x, Size96)[0] == '='
    ensures x != [] && TokenLen(x) == 0 ==> Replace(x, Size96) == [x[0]] + Replace(x[1..], Size96)
  {
  }

  /** Output of a replacement with `Size96` is left as it is by another one. */
  lemma {:induction false} ReplacedIsFixed(s: string)
    ensures Replace(Replace(s, Size96), Size96) == Replace(s, Size96)
    decreases |s|
  {
    if s != [] {
      var n := TokenLen(s);
      if n > 0 {
        var u' := Replace(s[n..], Size96);
        ReplacedIsFixed(s[n..]);
        Size96IsToken(u');
        assert (Size96 + u')[|Size96|..] == u';
      } else {
        var u' := Replace(s[1..], Size96);
        ReplacedIsFixed(s[1..]);
        var c := s[0];
        var u := [c] + u';
        assert TokenLen(u) == 0 by {
          if c == '=' && |u'| >= 2 {
            var x := s[1..];
            ReplaceHead(x);
            if TokenLen(x) == 0 {
              assert u'[0] == s[1];
              if s[1] == 's' {
                var y := x[1..];
                ReplaceHead(y);
                assert u'[1..] == Replace(y, Size96);
                if TokenLen(y) == 0 {
                  assert y != [];
                  assert u'[1] == s[2];
                }
              }
            }
          }
        }
        assert u[1..] == u';
      }
    }
  }
}
