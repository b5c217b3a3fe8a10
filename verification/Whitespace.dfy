/** str.split() at blanks, and the text with its words joined by single spaces. */
module Whitespace {

  // The characters at which Python's str.split splits.
  predicate IsBlank(c: char) {
    || '\t' <= c <= '\r' || '\U{1C}' <= c <= ' ' || c == '\U{85}' || c == '\U{A0}' || c == '\U{1680}'
    || '\U{2000}' <= c <= '\U{200A}' || c == '\U{2028}' || c == '\U{2029}' || c == '\U{202F}'
    || c == '\U{205F}' || c == '\U{3000}'
  }

  // The code points of these characters.
  lemma BlankCodes(c: char)
    ensures IsBlank(c) <==>
            c as int in {0x9, 0xA, 0xB, 0xC, 0xD, 0x1C, 0x1D, 0x1E, 0x1F, 0x20, 0x85, 0xA0, 0x1680,
                         0x2000, 0x2001, 0x2002, 0x2003, 0x2004, 0x2005, 0x2006, 0x2007, 0x2008, 0x2009, 0x200A,
                         0x2028, 0x2029, 0x202F, 0x205F, 0x3000}
  {
  }

  function FirstWord(s: string): (w: string)
    ensures w <= s && forall i | 0 <= i < |w| :: !IsBlank(w[i])
    ensures |w| < |s| ==> IsBlank(s[|w|])
  {
    if s == "" || IsBlank(s[0]) then "" else [s[0]] + FirstWord(s[1..])
  }

  function Words(s: string): seq<string>
    decreases |s|
  {
    if s == "" then []
    else if IsBlank(s[0]) then Words(s[1..])
    else [FirstWord(s)] + Words(s[|FirstWord(s)|..])
  }

  function JoinWords(words: seq<string>): string {
    if words == [] then "" else if |words| == 1 then words[0] else words[0] + " " + JoinWords(words[1..])
  }

  function Collapse(s: string): string {
    JoinWords(Words(s))
  }

  // ----- what the words are -----

  ghost predicate IsWord(w: string) {
    w != "" && forall i | 0 <= i < |w| :: !IsBlank(w[i])
  }

  ghost predicate AllWords(words: seq<string>) {
    forall i | 0 <= i < |words| :: IsWord(words[i])
  }

  ghost predicate AllBlank(gap: string) {
    forall i | 0 <= i < |gap| :: IsBlank(gap[i])
  }

  // Gaps before, between and behind so many words: blanks, and at least one between two words.
  ghost predicate AreGaps(gaps: seq<string>, words: nat) {
    && |gaps| == words + 1
    && forall i | 0 <= i <= words :: AllBlank(gaps[i]) && (0 < i < words ==> gaps[i] != "")
  }

  function Weave(gaps: seq<string>, words: seq<string>): string
    requires |gaps| == |words| + 1
  {
    if words == [] then gaps[0] else gaps[0] + words[0] + Weave(gaps[1..], words[1..])
  }

  lemma WordFirst(w: string, gaps: seq<string>, words: seq<string>)
    requires IsWord(w) && AllWords(words) && AreGaps(gaps, |words|)
    requires gaps[0] == "" ==> words == []
    ensures AllWords([w] + words) && AreGaps([""] + gaps, |words| + 1)
    ensures Weave([""] + gaps, [w] + words) == w + Weave(gaps, words)
  {
    assert ([""] + gaps)[1..] == gaps && ([w] + words)[1..] == words;
    assert "" + w == w;
  }

  /** A text is its words with blanks around and between them; the words hold none. */
  lemma {:induction false} WordsAre(s: string) returns (gaps: seq<string>)
    ensures AllWords(Words(s)) && AreGaps(gaps, |Words(s)|) && Weave(gaps, Words(s)) == s
    ensures s != "" && !IsBlank(s[0]) ==> gaps[0] == ""
    ensures s != "" && IsBlank(s[0]) ==> gaps[0] != ""
    decreases |s|
  {
    if s == "" {
      gaps := [""];
    } else if IsBlank(s[0]) {
      var rest := WordsAre(s[1..]);
      gaps := [[s[0]] + rest[0]] + rest[1..];
      WiderGap(s[0], rest, Words(s));
    } else {
      var w, tail := FirstWord(s), s[|FirstWord(s)|..];
      var rest := WordsAre(tail);
      WordFirst(w, rest, Words(tail));
      gaps := [""] + rest;
    }
  }

  lemma WiderGap(c: char, gaps: seq<string>, words: seq<string>)
    requires IsBlank(c) && AreGaps(gaps, |words|)
    ensures var wider := [[c] + gaps[0]] + gaps[1..];
            AreGaps(wider, |words|) && Weave(wider, words) == [c] + Weave(gaps, words)
  {
    var wider := [[c] + gaps[0]] + gaps[1..];
    assert wider[1..] == gaps[1..];
    if words != [] {
      assert ([c] + gaps[0]) + words[0] + Weave(gaps[1..], words[1..]) ==
             [c] + (gaps[0] + words[0] + Weave(gaps[1..], words[1..]));
    }
  }

  // ----- what collapsing does -----

  // Blanks are single spaces, and stand inside.
  ghost predicate IsCompact(c: string) {
    forall i | 0 <= i < |c| && IsBlank(c[i]) ::
      c[i] == ' ' && 0 < i < |c| - 1 && !IsBlank(c[i - 1]) && !IsBlank(c[i + 1])
  }

  // The characters that are not blank, in order.
  function Solid(s: string): string {
    if s == "" then "" else (if IsBlank(s[0]) then "" else [s[0]]) + Solid(s[1..])
  }

  lemma {:induction false} SolidJoin(a: string, b: string)
    ensures Solid(a + b) == Solid(a) + Solid(b)
  {
    if a == "" {
      assert a + b == b;
    } else {
      assert (a + b)[1..] == a[1..] + b;
      SolidJoin(a[1..], b);
    }
  }

  lemma {:induction false} SolidWord(w: string)
    requires forall i | 0 <= i < |w| :: !IsBlank(w[i])
    ensures Solid(w) == w
  {
    if w != "" {
      SolidWord(w[1..]);
    }
  }

  lemma {:induction false} WordsWord(w: string, rest: string)
    requires IsWord(w) && (rest == "" || IsBlank(rest[0]))
    ensures Words(w + rest) == [w] + Words(rest)
  {
    FirstWordEnds(w, rest);
    assert (w + rest)[|w|..] == rest;
  }

  lemma {:induction false} FirstWordEnds(w: string, rest: string)
    requires forall i | 0 <= i < |w| :: !IsBlank(w[i])
    requires rest == "" || IsBlank(rest[0])
    ensures FirstWord(w + rest) == w
  {
    if w == "" {
      assert w + rest == rest;
    } else {
      assert (w + rest)[1..] == w[1..] + rest;
      FirstWordEnds(w[1..], rest);
    }
  }

  lemma {:induction false} JoinedWords(words: seq<string>)
    requires AllWords(words)
    ensures IsCompact(JoinWords(words)) && Words(JoinWords(words)) == words
    ensures words != [] ==> JoinWords(words) != "" && !IsBlank(JoinWords(words)[0])
  {
    if |words| == 1 {
      WordsWord(words[0], "");
      assert words[0] + "" == words[0] && words == [words[0]];
    } else if |words| > 1 {
      JoinedWords(words[1..]);
      assert words == [words[0]] + words[1..];
      JoinedMore(words[0], words[1..], JoinWords(words[1..]));
    }
  }

  lemma JoinedMore(w: string, words: seq<string>, rest: string)
    requires IsWord(w) && IsCompact(rest) && rest != "" && !IsBlank(rest[0]) && Words(rest) == words
    ensures var joined := w + " " + rest;
            IsCompact(joined) && Words(joined) == [w] + words && !IsBlank(joined[0])
  {
    WordsWord(w, " " + rest);
    assert (" " + rest)[1..] == rest;
    assert w + " " + rest == w + (" " + rest);
    CompactJoin(w, rest);
  }

  lemma CompactJoin(w: string, rest: string)
    requires IsWord(w) && IsCompact(rest) && rest != "" && !IsBlank(rest[0])
    ensures IsCompact(w + " " + rest)
  {
    var c := w + " " + rest;
    forall i | 0 <= i < |c| && IsBlank(c[i])
      ensures c[i] == ' ' && 0 < i < |c| - 1 && !IsBlank(c[i - 1]) && !IsBlank(c[i + 1])
    {
      var k := i - |w| - 1;
      assert i >= |w|;
      if i > |w| {
        assert c[i] == rest[k] && k > 0 && c[i - 1] == rest[k - 1] && c[i + 1] == rest[k + 1];
      }
    }
  }

  lemma {:induction false} SolidWords(s: string)
    ensures Solid(JoinWords(Words(s))) == Solid(s)
    decreases |s|
  {
    if s != "" {
      if IsBlank(s[0]) {
        SolidWords(s[1..]);
      } else {
        var w, tail := FirstWord(s), s[|FirstWord(s)|..];
        assert s == w + tail;
        SolidWords(tail);
        SolidJoin(w, tail);
        JoinSolid(w, Words(tail));
      }
    }
  }

  lemma JoinSolid(w: string, words: seq<string>)
    requires IsWord(w)
    ensures Solid(JoinWords([w] + words)) == Solid(w) + Solid(JoinWords(words))
  {
    if words == [] {
      assert [w] + words == [w];
      assert JoinWords([w]) == w;
    } else {
      assert ([w] + words)[0] == w && ([w] + words)[1..] == words;
      var rest := JoinWords(words);
      assert JoinWords([w] + words) == w + " " + rest;
      SolidJoin(w + " ", rest);
      SolidJoin(w, " ");
      assert Solid(" ") == "" && Solid(w) + "" == Solid(w);
    }
  }

  /** Collapsing keeps the words, and so the characters that are not blank, in order, and leaves no blank
      but single spaces between two words. */
  lemma CollapseMeans(s: string)
    ensures IsCompact(Collapse(s)) && Words(Collapse(s)) == Words(s) && Solid(Collapse(s)) == Solid(s)
  {
    var gaps := WordsAre(s);
    JoinedWords(Words(s));
    SolidWords(s);
  }
}
