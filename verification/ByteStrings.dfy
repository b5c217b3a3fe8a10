/** Byte strings, and the text of a digest sidecar. */
module ByteStrings {

  newtype Byte = b: int | 0 <= b < 256

  type Bytes = seq<Byte>

  const NEWLINE: Byte := 10

  // The ASCII characters that Python's str.strip removes.
  predicate IsSpace(b: Byte) {
    9 <= b <= 13 || 28 <= b <= 32
  }

  function StripLeft(s: Bytes): Bytes {
    if |s| > 0 && IsSpace(s[0]) then StripLeft(s[1..]) else s
  }

  function StripRight(s: Bytes): Bytes {
    if |s| > 0 && IsSpace(s[|s| - 1]) then StripRight(s[..|s| - 1]) else s
  }

  function Strip(s: Bytes): Bytes {
    StripRight(StripLeft(s))
  }

  // Tab, line feed, vertical tab, form feed, carriage return, the four separators and the space.
  ghost predicate IsWhite(b: Byte) {
    b in {9, 10, 11, 12, 13, 28, 29, 30, 31, 32}
  }

  ghost predicate AllWhite(s: Bytes) {
    forall i | 0 <= i < |s| :: IsWhite(s[i])
  }

  lemma {:induction false} StripLeftMeans(s: Bytes) returns (front: Bytes)
    ensures s == front + StripLeft(s) && AllWhite(front)
    ensures StripLeft(s) != [] ==> !IsWhite(StripLeft(s)[0])
  {
    front := [];
    if |s| > 0 && IsSpace(s[0]) {
      var rest := StripLeftMeans(s[1..]);
      front := [s[0]] + rest;
    }
  }

  lemma {:induction false} StripRightMeans(s: Bytes) returns (back: Bytes)
    ensures s == StripRight(s) + back && AllWhite(back)
    ensures StripRight(s) <= s && (StripRight(s) != [] ==> !IsWhite(StripRight(s)[|StripRight(s)| - 1]))
  {
    back := [];
    if |s| > 0 && IsSpace(s[|s| - 1]) {
      var init, last := s[..|s| - 1], [s[|s| - 1]];
      assert s == init + last;
      var rest := StripRightMeans(init);
      back := rest + last;
      Associates(StripRight(init), rest, last);
    }
  }

  lemma Associates(a: Bytes, b: Bytes, c: Bytes)
    ensures (a + b) + c == a + (b + c)
  {
  }

  /** Stripping takes away the white space around a text, and all of it. */
  lemma StripMeans(s: Bytes) returns (front: Bytes, back: Bytes)
    ensures s == front + Strip(s) + back && AllWhite(front) && AllWhite(back)
    ensures Strip(s) != [] ==> !IsWhite(Strip(s)[0]) && !IsWhite(Strip(s)[|Strip(s)| - 1])
  {
    front := StripLeftMeans(s);
    back := StripRightMeans(StripLeft(s));
  }

  predicate IsAscii(s: Bytes) {
    forall i | 0 <= i < |s| :: s[i] < 128
  }

  // What hexdigest() of SHA-256 returns: 64 lower-case hexadecimal digits.
  predicate IsHexDigest(d: Bytes) {
    && |d| == 64
    && forall i | 0 <= i < |d| :: 48 <= d[i] <= 57 || 97 <= d[i] <= 102
  }

  ghost predicate HexValued(h: Bytes -> Bytes) {
    forall m :: IsHexDigest(h(m))
  }

  // The text a sidecar holds.
  function DigestLine(d: Bytes): Bytes {
    d + [NEWLINE]
  }

  // Reading a sidecar back gives the digest that was written to it.
  lemma StripDigestLine(d: Bytes)
    requires IsHexDigest(d)
    ensures DigestLine(d) == d + [10] && IsAscii(DigestLine(d)) && Strip(DigestLine(d)) == d
  {
    var line := DigestLine(d);
    assert StripLeft(line) == line by { assert line[0] == d[0]; }
    assert line[..|line| - 1] == d;
    assert StripRight(d) == d;
  }
}
