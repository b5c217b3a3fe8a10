/** Suffixes and substring search. */
module Texts {

  predicate EndsWith(s: string, t: string) {
    |t| <= |s| && s[|s| - |t|..] == t
  }

  // What ends with t is something followed by t.
  lemma EndsWithIff(s: string, t: string)
    ensures EndsWith(s, t) <==> exists k :: 0 <= k <= |s| && s == s[..k] + t
  {
    if EndsWith(s, t) {
      assert s == s[..|s| - |t|] + t;
    }
    if k :| 0 <= k <= |s| && s == s[..k] + t {
      assert s[|s| - |t|..] == t;
    }
  }

  ghost predicate At(s: string, i: nat, x: string) {
    i + |x| <= |s| && s[i..i + |x|] == x
  }

  // Python's `x in s`.
  predicate Contains(s: string, x: string) {
    x <= s || (s != "" && Contains(s[1..], x))
  }

  lemma {:induction false} ContainsAt(s: string, x: string, i: nat)
    requires At(s, i, x)
    ensures Contains(s, x)
  {
    if i > 0 {
      assert s[1..][i - 1..i - 1 + |x|] == x;
      ContainsAt(s[1..], x, i - 1);
    }
  }

  lemma {:induction false} WhereContained(s: string, x: string) returns (i: nat)
    requires Contains(s, x)
    ensures At(s, i, x)
  {
    if x <= s {
      i := 0;
    } else {
      var j := WhereContained(s[1..], x);
      assert s[1..][j..j + |x|] == s[j + 1..j + 1 + |x|];
      i := j + 1;
    }
  }

  // What a part contains, the whole contains.
  lemma PartContains(a: string, b: string, c: string, x: string)
    requires Contains(b, x)
    ensures Contains(a + b + c, x)
  {
    var i := WhereContained(b, x);
    var s := a + b + c;
    assert s[|a|..|a| + |b|] == b;
    assert s[|a| + i..|a| + i + |x|] == b[i..i + |x|];
    ContainsAt(s, x, |a| + i);
  }
}
