/** WAL file names, and the four families of file names the archiver creates in the archive root. */
module WalNames {
  import opened Options
  import opened Texts

  // ----- the names WAL_NAME accepts -----

  predicate IsHex(c: char) {
    '0' <= c <= '9' || 'A' <= c <= 'F'
  }

  predicate AllHex(s: string) {
    forall i | 0 <= i < |s| :: IsHex(s[i])
  }

  predicate IsSegmentName(s: string) {
    |s| == 24 && AllHex(s)
  }

  predicate IsHistoryName(s: string) {
    |s| == 16 && AllHex(s[..8]) && s[8..] == ".history"
  }

  predicate IsBackupName(s: string) {
    |s| == 40 && AllHex(s[..24]) && s[24] == '.' && AllHex(s[25..33]) && s[33..] == ".backup"
  }

  predicate IsWalName(s: string) {
    IsSegmentName(s) || IsHistoryName(s) || IsBackupName(s)
  }

  // ----- which names these are -----

  function HexDigit(d: nat): char
    requires d < 16
  {
    "0123456789ABCDEF"[d]
  }

  // The last `width` hexadecimal digits of n.
  function HexText(n: nat, width: nat): (s: string)
    ensures |s| == width
  {
    if width == 0 then "" else HexText(n / 16, width - 1) + [HexDigit(n % 16)]
  }

  lemma {:induction false} HexTextIsHex(n: nat, width: nat)
    ensures AllHex(HexText(n, width))
  {
    if width > 0 {
      HexTextIsHex(n / 16, width - 1);
    }
  }

  lemma {:induction false} HexNumber(s: string) returns (n: nat)
    requires AllHex(s)
    ensures HexText(n, |s|) == s
  {
    if s == "" {
      n := 0;
    } else {
      var most := HexNumber(s[..|s| - 1]);
      var d := if s[|s| - 1] <= '9' then s[|s| - 1] as int - '0' as int else s[|s| - 1] as int - 'A' as int + 10;
      n := most * 16 + d;
      assert n / 16 == most && n % 16 == d;
      assert s == s[..|s| - 1] + [s[|s| - 1]];
    }
  }

  lemma AllHexIff(s: string)
    ensures AllHex(s) <==> exists n :: s == HexText(n, |s|)
  {
    if AllHex(s) {
      var n := HexNumber(s);
    }
    if n :| s == HexText(n, |s|) {
      HexTextIsHex(n, |s|);
    }
  }

  /** The accepted names are those of segments, timeline histories and backup labels: hexadecimal numbers
      of 24, of 8, and of 24 and 8 capital digits. */
  lemma WalNameIff(s: string)
    ensures IsSegmentName(s) <==> exists n :: s == HexText(n, 24)
    ensures IsHistoryName(s) <==> exists n :: s == HexText(n, 8) + ".history"
    ensures IsBackupName(s) <==> exists n, m :: s == HexText(n, 24) + "." + HexText(m, 8) + ".backup"
    ensures IsWalName(s) <==> IsSegmentName(s) || IsHistoryName(s) || IsBackupName(s)
  {
    AllHexIff(s);
    HistoryNameIff(s);
    BackupNameIff(s);
  }

  lemma HistoryNameIff(s: string)
    ensures IsHistoryName(s) <==> exists n :: s == HexText(n, 8) + ".history"
  {
    if IsHistoryName(s) {
      var n := HexNumber(s[..8]);
      assert s == HexText(n, 8) + ".history";
    }
    if n :| s == HexText(n, 8) + ".history" {
      HexTextIsHex(n, 8);
      assert s[..8] == HexText(n, 8) && s[8..] == ".history";
    }
  }

  lemma BackupNameIff(s: string)
    ensures IsBackupName(s) <==> exists n, m :: s == HexText(n, 24) + "." + HexText(m, 8) + ".backup"
  {
    if IsBackupName(s) {
      var n := HexNumber(s[..24]);
      var m := HexNumber(s[25..33]);
      assert s == s[..24] + [s[24]] + s[25..33] + s[33..];
      assert s == HexText(n, 24) + "." + HexText(m, 8) + ".backup";
    }
    if n, m :| s == HexText(n, 24) + "." + HexText(m, 8) + ".backup" {
      HexTextIsHex(n, 24);
      HexTextIsHex(m, 8);
      assert s[..24] == HexText(n, 24) && s[24] == '.' && s[25..33] == HexText(m, 8) && s[33..] == ".backup";
    }
  }

  // ----- decimal process ids -----

  predicate IsDigit(c: char) {
    '0' <= c <= '9'
  }

  predicate AllDigits(s: string) {
    forall i | 0 <= i < |s| :: IsDigit(s[i])
  }

  function Decimal(n: nat): (s: string)
    ensures |s| > 0 && AllDigits(s)
  {
    var last := ['0' + (n % 10) as char];
    if n < 10 then last else Decimal(n / 10) + last
  }

  function Number(s: string): nat
    requires AllDigits(s)
  {
    if |s| == 0 then 0 else 10 * Number(s[..|s| - 1]) + (s[|s| - 1] as int - '0' as int)
  }

  lemma NumberReads(s: string, d: nat)
    requires AllDigits(s) && d < 10
    ensures Number(s + ["0123456789"[d]]) == 10 * Number(s) + d && Number("") == 0
  {
    assert (s + ["0123456789"[d]])[..|s|] == s;
  }

  lemma {:induction false} NumberOfDecimal(n: nat)
    ensures Number(Decimal(n)) == n
  {
    var s := Decimal(n);
    if n < 10 {
      assert s[..|s| - 1] == [];
    } else {
      NumberOfDecimal(n / 10);
      assert s[..|s| - 1] == Decimal(n / 10);
    }
  }

  // ----- pathlib's suffix arithmetic -----

  // The index of the last dot, or |s| when there is none.
  function LastDot(s: string): (i: nat)
    ensures i <= |s|
    ensures i < |s| ==> s[i] == '.' && forall j | i < j < |s| :: s[j] != '.'
    ensures i == |s| ==> forall j | 0 <= j < |s| :: s[j] != '.'
  {
    if |s| == 0 then 0
    else if s[|s| - 1] == '.' then |s| - 1
    else
      var i := LastDot(s[..|s| - 1]);
      if i == |s| - 1 then |s| else i
  }

  function Suffix(name: string): string {
    var i := LastDot(name);
    if 0 < i && i + 1 < |name| then name[i..] else ""
  }

  function WithSuffix(name: string, suffix: string): string {
    name[..|name| - |Suffix(name)|] + suffix
  }

  // The archiver forms the sidecar name with with_suffix, the restorer by appending: the same name.
  lemma SidecarNamesAgree(name: string)
    ensures WithSuffix(name, Suffix(name) + ".sha256") == name + ".sha256"
  {
    var suf := Suffix(name);
    var stem := name[..|name| - |suf|];
    assert stem + suf == name;
    assert stem + (suf + ".sha256") == (stem + suf) + ".sha256";
  }

  // ----- the archive root's namespace -----

  datatype ArchivePath =
    | Segment(name: string)
    | Sidecar(name: string)
    | CopyPartial(name: string, pid: nat)
    | SidecarPartial(name: string)

  function Render(p: ArchivePath): string {
    match p
    case Segment(n) => n
    case Sidecar(n) => SidecarName(n)
    case CopyPartial(n, pid) => "." + (n + "." + Decimal(pid)) + ".partial"
    case SidecarPartial(n) => "." + SidecarName(n) + ".partial"
  }

  function SidecarName(n: string): string {
    WithSuffix(n, Suffix(n) + ".sha256")
  }

  /** The file names of the four families. */
  lemma RenderIs(n: string, pid: nat)
    ensures Render(Segment(n)) == n
    ensures Render(Sidecar(n)) == n + ".sha256"
    ensures Render(CopyPartial(n, pid)) == "." + n + "." + Decimal(pid) + ".partial"
    ensures Render(SidecarPartial(n)) == "." + n + ".sha256.partial"
  {
    SidecarNamesAgree(n);
    assert "." + (n + ".sha256") + ".partial" == "." + n + ".sha256.partial";
    assert "." + (n + "." + Decimal(pid)) + ".partial" == "." + n + "." + Decimal(pid) + ".partial";
  }

  // A partial's name is a body between a leading dot and ".partial".
  lemma ParseWrapped(body: string)
    ensures var s := "." + body + ".partial";
            s[0] == '.' && EndsWith(s, ".partial") && s[1..|s| - 8] == body
  {
    var s := "." + body + ".partial";
    assert s[|s| - 8..] == ".partial" && s[1..|s| - 8] == body;
  }

  // Reads a file name back as the path it renders.
  function Parse(s: string): Option<ArchivePath> {
    if |s| > 9 && s[0] == '.' && EndsWith(s, ".partial") then
      var body := s[1..|s| - 8];
      if EndsWith(body, ".sha256") then Some(SidecarPartial(body[..|body| - 7]))
      else
        var i := LastDot(body);
        if i < |body| && AllDigits(body[i + 1..]) then Some(CopyPartial(body[..i], Number(body[i + 1..])))
        else None
    else if EndsWith(s, ".sha256") then Some(Sidecar(s[..|s| - 7]))
    else if IsWalName(s) then Some(Segment(s))
    else None
  }

  lemma EndsWithAt(s: string, t: string, k: nat)
    requires k < |t|
    ensures EndsWith(s, t) ==> s[|s| - |t| + k] == t[k]
  {
    assert |t| <= |s| ==> s[|s| - |t|..][k] == s[|s| - |t| + k];
  }

  lemma WalNameShape(n: string)
    requires IsWalName(n)
    ensures |n| >= 16 && n[0] != '.' && !EndsWith(n, ".sha256") && n[|n| - 6] != 's'
  {
    if IsSegmentName(n) {
      assert IsHex(n[18]);
    } else if IsHistoryName(n) {
      assert n[..8][0] == n[0];
      assert n[8..][2] == n[10];
    } else {
      assert n[..24][0] == n[0];
      assert n[33..][1] == n[34];
    }
    EndsWithAt(n, ".sha256", 1);
  }

  lemma ParseSidecar(n: string)
    requires IsWalName(n)
    ensures Parse(Render(Sidecar(n))) == Some(Sidecar(n))
  {
    WalNameShape(n);
    SidecarNamesAgree(n);
    var s := n + ".sha256";
    assert s[0] == n[0];
    assert s[|s| - 7..] == ".sha256" && s[..|s| - 7] == n;
  }

  lemma ParseSidecarPartial(n: string)
    requires IsWalName(n)
    ensures Parse(Render(SidecarPartial(n))) == Some(SidecarPartial(n))
  {
    SidecarNamesAgree(n);
    var inner := n + ".sha256";
    ParseWrapped(inner);
    assert inner[|inner| - 7..] == ".sha256" && inner[..|inner| - 7] == n;
  }

  lemma {:induction false} LastDotBeforeDigits(n: string, digits: string)
    requires AllDigits(digits)
    ensures LastDot(n + "." + digits) == |n|
  {
    var body := n + "." + digits;
    if digits == "" {
      assert body[|body| - 1] == '.';
    } else {
      var init := digits[..|digits| - 1];
      LastDotBeforeDigits(n, init);
      assert body[..|body| - 1] == n + "." + init;
      assert body[|body| - 1] == digits[|digits| - 1];
    }
  }

  // ".sha256" cannot end a name whose last dot is followed by digits only.
  lemma DigitsAreNoSidecar(n: string, digits: string)
    requires AllDigits(digits) && |digits| > 0
    ensures !EndsWith(n + "." + digits, ".sha256")
  {
    var body := n + "." + digits;
    assert body[|n|] == '.';
    forall j | |n| < j < |body| ensures IsDigit(body[j]) {
      assert body[j] == digits[j - |n| - 1];
    }
    EndsWithAt(body, ".sha256", 0);
    EndsWithAt(body, ".sha256", 3);
    if |body| - 7 <= |n| {
      EndsWithAt(body, ".sha256", |n| - (|body| - 7));
    }
  }

  lemma ParseCopyPartial(n: string, pid: nat)
    requires IsWalName(n)
    ensures Parse(Render(CopyPartial(n, pid))) == Some(CopyPartial(n, pid))
  {
    WalNameShape(n);
    var digits := Decimal(pid);
    var body := n + "." + digits;
    LastDotBeforeDigits(n, digits);
    DigitsAreNoSidecar(n, digits);
    NumberOfDecimal(pid);
    ParseWrapped(body);
    assert body[..|n|] == n && body[|n| + 1..] == digits;
  }

  /** Every file name the archiver uses can be read back: the family, the segment and the
      process id are all recovered from the name alone. */
  lemma ParseInvertsRender(p: ArchivePath)
    requires IsWalName(p.name)
    ensures Parse(Render(p)) == Some(p)
  {
    match p
    case Segment(n) => WalNameShape(n);
    case Sidecar(n) => ParseSidecar(n);
    case CopyPartial(n, pid) => ParseCopyPartial(n, pid);
    case SidecarPartial(n) => ParseSidecarPartial(n);
  }

  /** Hence the four families are disjoint, and injective in the segment name and process id. */
  lemma RenderInjective(p: ArchivePath, q: ArchivePath)
    requires IsWalName(p.name) && IsWalName(q.name)
    ensures Render(p) == Render(q) <==> p == q
  {
    ParseInvertsRender(p);
    ParseInvertsRender(q);
  }
}
