/** Code-point order of strings, sorted listings, and how the order of "<version>.sql" file names
    relates to the order of the versions. */
module Versions {

  predicate LexLess(a: string, b: string) {
    |b| > 0 && (|a| == 0 || a[0] < b[0] || (a[0] == b[0] && LexLess(a[1..], b[1..])))
  }

  lemma {:induction false} LexTrichotomy(a: string, b: string)
    ensures LexLess(a, b) || LexLess(b, a) || a == b
    ensures !(LexLess(a, b) && LexLess(b, a))
    ensures !LexLess(a, a)
  {
    if |a| > 0 {
      LexTrichotomy(a[1..], if |b| > 0 then b[1..] else a[1..]);
      assert |b| > 0 && a[0] == b[0] && a[1..] == b[1..] ==> a == [a[0]] + a[1..] == b;
    }
  }

  lemma {:induction false} LexTransitive(a: string, b: string, c: string)
    requires LexLess(a, b) && LexLess(b, c)
    ensures LexLess(a, c)
  {
    if |a| > 0 && a[0] == b[0] == c[0] {
      LexTransitive(a[1..], b[1..], c[1..]);
    }
  }

  // At k the texts first differ, and a has the smaller character, or ends.
  ghost predicate DiffersAt(a: string, b: string, k: nat) {
    k <= |a| && k < |b| && a[..k] == b[..k] && (k == |a| || a[k] < b[k])
  }

  lemma FirstAgrees(a: string, b: string, k: nat)
    ensures DiffersAt(a, b, k) && k > 0 ==> a != "" && b != "" && a[0] == b[0]
  {
    if DiffersAt(a, b, k) && k > 0 {
      assert a[..k][0] == b[..k][0];
    }
  }

  /** Code-point order: the first difference decides, and a prefix comes first. */
  lemma {:induction false} LexLessIff(a: string, b: string)
    ensures LexLess(a, b) <==> exists k: nat :: DiffersAt(a, b, k)
  {
    if a == "" || b == "" || a[0] != b[0] {
      if k: nat :| DiffersAt(a, b, k) {
        FirstAgrees(a, b, k);
      }
      assert LexLess(a, b) ==> DiffersAt(a, b, 0);
    } else {
      LexLessIff(a[1..], b[1..]);
      assert a == [a[0]] + a[1..] && b == [b[0]] + b[1..];
      if k: nat :| DiffersAt(a[1..], b[1..], k) {
        assert a[..k + 1] == [a[0]] + a[1..][..k] && b[..k + 1] == [b[0]] + b[1..][..k];
        assert DiffersAt(a, b, k + 1);
      }
      if k: nat :| DiffersAt(a, b, k) {
        assert k > 0 && a[1..][..k - 1] == a[..k][1..] && b[1..][..k - 1] == b[..k][1..];
        assert DiffersAt(a[1..], b[1..], k - 1);
      }
    }
  }

  ghost predicate StrictlySorted(s: seq<string>) {
    forall i, j | 0 <= i < j < |s| :: LexLess(s[i], s[j])
  }

  function Elements(s: seq<string>): set<string> {
    set x | x in s
  }

  lemma SameMembers(a: seq<string>, b: seq<string>)
    requires Elements(a) == Elements(b)
    ensures (a != [] ==> a[0] in b) && (b != [] ==> b[0] in a)
  {
    assert forall x :: x in a <==> x in Elements(a);
    assert forall x :: x in b <==> x in Elements(b);
  }

  /** A set has only one strictly sorted listing. */
  lemma {:induction false} SortedListingUnique(a: seq<string>, b: seq<string>)
    requires StrictlySorted(a) && StrictlySorted(b) && Elements(a) == Elements(b)
    ensures a == b
  {
    SameMembers(a, b);
    if a != [] && b != [] {
      LexTrichotomy(a[0], b[0]);
      assert a[0] == b[0];
      TailElements(a);
      TailElements(b);
      SortedListingUnique(a[1..], b[1..]);
      assert a == [a[0]] + a[1..] && b == [b[0]] + b[1..];
    }
  }

  lemma TailElements(s: seq<string>)
    requires StrictlySorted(s) && s != []
    ensures Elements(s[1..]) == Elements(s) - {s[0]}
  {
    LexTrichotomy(s[0], s[0]);
    assert s == [s[0]] + s[1..];
    forall x | x in s && x != s[0] ensures x in s[1..] {
    }
    forall x | x in s[1..] ensures x != s[0] {
      var i :| 1 <= i < |s| && s[i] == x;
    }
  }

  lemma {:induction false} LeastExists(s: set<string>) returns (least: string)
    requires s != {}
    ensures least in s && forall x | x in s :: x == least || LexLess(least, x)
  {
    var y :| y in s;
    least := y;
    if s - {y} != {} {
      var m := LeastExists(s - {y});
      LexTrichotomy(m, y);
      least := if LexLess(m, y) then m else y;
      forall x | x in s ensures x == least || LexLess(least, x) {
        if x != y && least == y && x != m {
          LexTransitive(y, m, x);
        }
      }
    } else {
      assert s == {y};
    }
  }

  lemma AppendSorted(rows: seq<string>, x: string)
    requires StrictlySorted(rows) && forall y | y in rows :: LexLess(y, x)
    ensures StrictlySorted(rows + [x]) && Elements(rows + [x]) == Elements(rows) + {x}
  {
  }

  /** sorted(...) of a directory's names, and the database's ORDER BY on a primary key. */
  method ListSorted(s: set<string>) returns (rows: seq<string>)
    ensures StrictlySorted(rows) && Elements(rows) == s
  {
    rows := [];
    var rest := s;
    while rest != {}
      invariant StrictlySorted(rows) && rest <= s && Elements(rows) == s - rest
      invariant forall x, y | x in rows && y in rest :: LexLess(x, y)
      decreases |rest|
    {
      ghost var _ := LeastExists(rest);
      var least :| least in rest && forall x | x in rest :: x == least || LexLess(least, x);
      AppendSorted(rows, least);
      rows := rows + [least];
      rest := rest - {least};
    }
  }

  // ----- file names against versions -----

  const EXTENSION := ".sql"

  // For different stems, the files are in the other order than the stems only when the later stem is
  // a proper prefix of the earlier one.
  lemma {:induction false} FileOrder(a: string, b: string)
    requires LexLess(a + EXTENSION, b + EXTENSION)
    ensures LexLess(a, b) || (b < a)
  {
    if |a| > 0 && |b| > 0 {
      assert (a + EXTENSION)[1..] == a[1..] + EXTENSION && (b + EXTENSION)[1..] == b[1..] + EXTENSION;
      if a[0] == b[0] {
        FileOrder(a[1..], b[1..]);
        assert b[1..] < a[1..] ==> b < a;
      }
    } else if |a| == 0 && |b| == 0 {
      LexTrichotomy(a + EXTENSION, b + EXTENSION);
    }
  }

  lemma {:induction false} PrefixIsLess(b: string, a: string)
    requires b < a
    ensures LexLess(b, a)
  {
    if |b| > 0 {
      assert b[0] == a[0] && b[1..] < a[1..];
      PrefixIsLess(b[1..], a[1..]);
    }
  }

  function FileNames(versions: seq<string>): (names: seq<string>)
    ensures |names| == |versions| && forall i | 0 <= i < |versions| :: names[i] == versions[i] + EXTENSION
  {
    seq(|versions|, i requires 0 <= i < |versions| => versions[i] + EXTENSION)
  }

  /** Files in sorted order give versions in sorted order exactly when no later version is a prefix
      of an earlier one. */
  lemma VersionOrderIff(versions: seq<string>)
    requires StrictlySorted(FileNames(versions))
    ensures StrictlySorted(versions) <==> forall i, j | 0 <= i < j < |versions| :: !(versions[j] < versions[i])
  {
    forall i, j | 0 <= i < j < |versions|
      ensures LexLess(versions[i], versions[j]) <==> !(versions[j] < versions[i])
    {
      assert LexLess(FileNames(versions)[i], FileNames(versions)[j]);
      LaterFile(versions[i], versions[j]);
    }
  }

  // Every other version is less than the last one.
  ghost predicate LastIsGreatest(versions: seq<string>)
    requires versions != []
  {
    forall i | 0 <= i < |versions| - 1 :: LexLess(versions[i], versions[|versions| - 1])
  }

  // Some earlier version goes on where the last one ends.
  ghost predicate LastIsPrefix(versions: seq<string>)
    requires versions != []
  {
    exists i :: 0 <= i < |versions| - 1 && versions[|versions| - 1] < versions[i]
  }

  /** With the files in sorted order, the last version is the greatest exactly when it is not a proper
      prefix of an earlier one; the order of the others does not matter. */
  lemma LastIsGreatestIff(versions: seq<string>)
    requires versions != [] && StrictlySorted(FileNames(versions))
    ensures LastIsGreatest(versions) <==> !LastIsPrefix(versions)
  {
    var n := |versions| - 1;
    forall i | 0 <= i < n ensures LexLess(versions[i], versions[n]) <==> !(versions[n] < versions[i]) {
      assert LexLess(FileNames(versions)[i], FileNames(versions)[n]);
      LaterFile(versions[i], versions[n]);
    }
  }

  lemma LaterFile(a: string, b: string)
    requires LexLess(a + EXTENSION, b + EXTENSION)
    ensures LexLess(a, b) <==> !(b < a)
  {
    FileOrder(a, b);
    LexTrichotomy(a, b);
    if b < a {
      PrefixIsLess(b, a);
    }
  }

  // A file whose stem goes on after a prefix with a character above '.' sorts after the prefix's file.
  lemma {:induction false} LongerFileLater(b: string, a: string)
    requires b < a && a[|b|] > '.'
    ensures LexLess(b + EXTENSION, a + EXTENSION)
  {
    if |b| > 0 {
      assert (a + EXTENSION)[1..] == a[1..] + EXTENSION && (b + EXTENSION)[1..] == b[1..] + EXTENSION;
      LongerFileLater(b[1..], a[1..]);
    }
  }

  /** So with every character of every version above '.', as in the shipped names, the plan is
      strictly increasing and its last entry is the greatest version. */
  lemma HeadIsGreatest(versions: seq<string>)
    requires StrictlySorted(FileNames(versions)) && versions != []
    requires forall i, k | 0 <= i < |versions| && 0 <= k < |versions[i]| :: versions[i][k] > '.'
    ensures StrictlySorted(versions)
    ensures forall v | v in versions :: v == versions[|versions| - 1] || LexLess(v, versions[|versions| - 1])
  {
    forall i, j | 0 <= i < j < |versions| ensures !(versions[j] < versions[i]) {
      if versions[j] < versions[i] {
        LongerFileLater(versions[j], versions[i]);
        assert LexLess(FileNames(versions)[i], FileNames(versions)[j]);
        LexTrichotomy(versions[i] + EXTENSION, versions[j] + EXTENSION);
      }
    }
    VersionOrderIff(versions);
  }

  /** A version with a '-' can break this: the plan then ends in a version that is not the greatest. */
  lemma HyphenMisordersHead()
    ensures var versions := ["0001-a", "0001"];
            && StrictlySorted(FileNames(versions))
            && LexLess(versions[1], versions[0]) && !StrictlySorted(versions)
  {
    var versions := ["0001-a", "0001"];
    var common := "0001";
    assert versions[0] + EXTENSION == common + ("-a" + EXTENSION);
    CommonPrefix(common, "-a" + EXTENSION, EXTENSION);
    PrefixIsLess(versions[1], versions[0]);
    LexTrichotomy(versions[0], versions[1]);
    assert !LexLess(versions[0], versions[1]);
  }

  lemma {:induction false} CommonPrefix(p: string, a: string, b: string)
    ensures LexLess(p + a, p + b) <==> LexLess(a, b)
  {
    if |p| > 0 {
      assert (p + a)[1..] == p[1..] + a && (p + b)[1..] == p[1..] + b;
      CommonPrefix(p[1..], a, b);
    } else {
      assert p + a == a && p + b == b;
    }
  }
}
