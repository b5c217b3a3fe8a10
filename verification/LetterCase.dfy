/** str.upper() and str.lower(), as far as ASCII letters come out of them. */
module LetterCase {
  import opened Texts

  // str.upper() of one character, where that has an ASCII letter. The others stay outside ASCII, whatever
  // they become, and are kept.
  function UpperOf(c: char): string {
    match c
    case '\U{DF}' => "SS"
    case '\U{131}' => "I"
    case '\U{149}' => "\U{2BC}N"
    case '\U{17F}' => "S"
    case '\U{1F0}' => "J\U{30C}"
    case '\U{1E96}' => "H\U{331}"
    case '\U{1E97}' => "T\U{308}"
    case '\U{1E98}' => "W\U{30A}"
    case '\U{1E99}' => "Y\U{30A}"
    case '\U{1E9A}' => "A\U{2BE}"
    case '\U{FB00}' => "FF"
    case '\U{FB01}' => "FI"
    case '\U{FB02}' => "FL"
    case '\U{FB03}' => "FFI"
    case '\U{FB04}' => "FFL"
    case '\U{FB05}' => "ST"
    case '\U{FB06}' => "ST"
    case _ => if 'a' <= c <= 'z' then [c - ' '] else [c]
  }

  function Upper(s: string): string {
    if s == "" then "" else UpperOf(s[0]) + Upper(s[1..])
  }

  // str.lower() of one character, where that has an ASCII letter. The others stay outside ASCII, whatever
  // they become, and are kept.
  function LowerOf(c: char): string {
    match c
    case '\U{130}' => "i\U{307}"
    case '\U{212A}' => "k"
    case _ => if 'A' <= c <= 'Z' then [c + ' '] else [c]
  }

  function Lower(s: string): string {
    if s == "" then "" else LowerOf(s[0]) + Lower(s[1..])
  }

  predicate IsAscii(s: string) {
    forall i | 0 <= i < |s| :: s[i] < '\U{80}'
  }

  // ----- texts of ASCII characters -----

  /** Of an ASCII text, upper() changes the letters a to z, each to its capital, and nothing else. */
  lemma {:induction false} UpperAscii(s: string)
    requires IsAscii(s)
    ensures |Upper(s)| == |s|
    ensures forall i | 0 <= i < |s| :: Upper(s)[i] == if 'a' <= s[i] <= 'z' then s[i] - ' ' else s[i]
  {
    if s != "" {
      UpperAscii(s[1..]);
      assert |UpperOf(s[0])| == 1;
    }
  }

  /** And lower() the letters A to Z. */
  lemma {:induction false} LowerAscii(s: string)
    requires IsAscii(s)
    ensures |Lower(s)| == |s|
    ensures forall i | 0 <= i < |s| :: Lower(s)[i] == if 'A' <= s[i] <= 'Z' then s[i] + ' ' else s[i]
  {
    if s != "" {
      LowerAscii(s[1..]);
      assert |LowerOf(s[0])| == 1;
    }
  }

  // ----- words in any letter case -----

  // A word to look for: capitals and underscores.
  predicate IsCapitals(w: string) {
    forall i | 0 <= i < |w| :: 'A' <= w[i] <= 'Z' || w[i] == '_'
  }

  predicate SameLetter(c: char, capital: char) {
    c == capital || ('A' <= capital <= 'Z' && c == capital + ' ')
  }

  // The word stands at position i, each letter of it in either case.
  ghost predicate SpellsAt(s: string, i: nat, w: string) {
    i + |w| <= |s| && forall k | 0 <= k < |w| :: SameLetter(s[i + k], w[k])
  }

  ghost predicate Spells(s: string, w: string) {
    exists i :: SpellsAt(s, i, w)
  }

  ghost predicate EndsSpelling(s: string, w: string) {
    |w| <= |s| && SpellsAt(s, |s| - |w|, w)
  }

  lemma {:induction false} UpperJoin(a: string, b: string)
    ensures Upper(a + b) == Upper(a) + Upper(b)
  {
    if a == "" {
      assert a + b == b;
    } else {
      assert (a + b)[1..] == a[1..] + b;
      UpperJoin(a[1..], b);
    }
  }

  lemma UpperLetter(c: char, capital: char)
    requires ('A' <= capital <= 'Z' || capital == '_') && SameLetter(c, capital)
    ensures UpperOf(c) == [capital]
  {
  }

  lemma {:induction false} UpperWord(s: string, w: string)
    requires IsCapitals(w) && |s| == |w| && forall k | 0 <= k < |w| :: SameLetter(s[k], w[k])
    ensures Upper(s) == w
  {
    if s != "" {
      UpperWord(s[1..], w[1..]);
      UpperLetter(s[0], w[0]);
    }
  }

  // Where the word stands, whatever is around it, upper() shows it.
  lemma UpperShows(s: string, i: nat, w: string)
    requires IsCapitals(w) && SpellsAt(s, i, w)
    ensures Contains(Upper(s), w)
    ensures i + |w| == |s| ==> EndsWith(Upper(s), w)
  {
    var a, m, b := s[..i], s[i..i + |w|], s[i + |w|..];
    assert s == (a + m) + b;
    UpperJoin(a + m, b);
    UpperJoin(a, m);
    UpperWord(m, w);
    PartContains(Upper(a), w, Upper(b), w);
    if i + |w| == |s| {
      assert Upper(b) == "";
      assert (Upper(a) + w)[|Upper(a)|..] == w;
    }
  }

  lemma ShownMeansSpelled(s: string, i: nat, w: string)
    requires IsAscii(s) && IsCapitals(w) && At(Upper(s), i, w)
    ensures SpellsAt(s, i, w)
  {
    UpperAscii(s);
    forall k | 0 <= k < |w| ensures SameLetter(s[i + k], w[k]) {
      assert Upper(s)[i..i + |w|][k] == Upper(s)[i + k];
    }
  }

  /** upper() shows a word wherever it stands in any letter case; in an ASCII text, only there. */
  lemma UpperContainsIff(s: string, w: string)
    requires IsCapitals(w)
    ensures Spells(s, w) ==> Contains(Upper(s), w)
    ensures IsAscii(s) && Contains(Upper(s), w) ==> Spells(s, w)
  {
    if i :| SpellsAt(s, i, w) {
      UpperShows(s, i, w);
    }
    if IsAscii(s) && Contains(Upper(s), w) {
      var i := WhereContained(Upper(s), w);
      ShownMeansSpelled(s, i, w);
    }
  }

  lemma UpperEndsIff(s: string, w: string)
    requires IsCapitals(w)
    ensures EndsSpelling(s, w) ==> EndsWith(Upper(s), w)
    ensures IsAscii(s) && EndsWith(Upper(s), w) ==> EndsSpelling(s, w)
  {
    if EndsSpelling(s, w) {
      UpperShows(s, |s| - |w|, w);
    }
    if IsAscii(s) && EndsWith(Upper(s), w) {
      UpperAscii(s);
      SuffixAt(Upper(s), w);
      ShownMeansSpelled(s, |s| - |w|, w);
    }
  }

  lemma SuffixAt(s: string, w: string)
    requires EndsWith(s, w)
    ensures At(s, |s| - |w|, w)
  {
  }
}
