/** Redaction of failure details: every secret of the environment is replaced by a label, one secret
    after the other. */
module Redaction {
  import opened LetterCase
  import opened Options
  import opened Texts

  datatype Secret = Secret(key: string, value: string)

  // Python's s.replace(old, new): leftmost, not overlapping.
  function Replace(s: string, needle: string, substitute: string): string
    requires needle != ""
  {
    if s == "" then ""
    else if needle <= s then substitute + Replace(s[|needle|..], needle, substitute)
    else [s[0]] + Replace(s[1..], needle, substitute)
  }

  function Label(key: string): string {
    if EndsWith(key, ":password") then "***" else "<redacted:" + key + ">"
  }

  ghost predicate NonEmpty(secrets: seq<Secret>) {
    forall i | 0 <= i < |secrets| :: secrets[i].value != ""
  }

  ghost function Redact(secrets: seq<Secret>, s: string): string
    requires NonEmpty(secrets)
  {
    if secrets == [] then s
    else Redact(secrets[1..], Replace(s, secrets[0].value, Label(secrets[0].key)))
  }

  // ----- collecting the secrets -----

  predicate IsSensitiveKey(key: string) {
    var upper := Upper(key);
    || Contains(upper, "PASSWORD") || Contains(upper, "SECRET") || Contains(upper, "TOKEN")
    || EndsWith(upper, "_DATABASE_URL")
  }

  // The secrets of one variable: its value, and the password of the URL it may be.
  function SecretsOf(key: string, value: string, passwordOf: string -> Option<string>): seq<Secret> {
    if value == "" then []
    else
      (if IsSensitiveKey(key) then [Secret(key, value)] else [])
      + (match passwordOf(value)
         case Some(p) => if p == "" then [] else [Secret(key + ":password", p)]
         case None => [])
  }

  function SensitiveValues(env: seq<(string, string)>, passwordOf: string -> Option<string>): seq<Secret> {
    if env == [] then []
    else SensitiveValues(env[..|env| - 1], passwordOf)
         + SecretsOf(env[|env| - 1].0, env[|env| - 1].1, passwordOf)
  }

  lemma {:induction false} SecretsNonEmpty(env: seq<(string, string)>, passwordOf: string -> Option<string>)
    ensures NonEmpty(SensitiveValues(env, passwordOf))
  {
    if env != [] {
      SecretsNonEmpty(env[..|env| - 1], passwordOf);
    }
  }

  // The key contains PASSWORD, SECRET or TOKEN, or ends in _DATABASE_URL, in any letter case; where it has
  // characters outside ASCII, what upper() makes of these may be part of the word.
  ghost predicate NamesSecret(key: string) {
    || Spells(key, "PASSWORD") || Spells(key, "SECRET") || Spells(key, "TOKEN")
    || EndsSpelling(key, "_DATABASE_URL")
    || (!IsAscii(key) && exists w | w in {"PASSWORD", "SECRET", "TOKEN"} :: Contains(Upper(key), w))
    || (!IsAscii(key) && EndsWith(Upper(key), "_DATABASE_URL"))
  }

  // The value of the variable is a secret; its value, as a URL, holds this password.
  ghost predicate IsSecretVariable(variable: (string, string)) {
    variable.1 != "" && NamesSecret(variable.0)
  }

  ghost predicate HoldsPassword(variable: (string, string), passwordOf: string -> Option<string>, password: string) {
    variable.1 != "" && password != "" && passwordOf(variable.1) == Some(password)
  }

  // A secret that comes from this variable.
  ghost predicate ComesFrom(secret: Secret, variable: (string, string), passwordOf: string -> Option<string>) {
    || (secret == Secret(variable.0, variable.1) && IsSecretVariable(variable))
    || (secret.key == variable.0 + ":password" && HoldsPassword(variable, passwordOf, secret.value))
  }

  // Every secret value and every password of the environment is there, and nothing else.
  ghost predicate Collects(env: seq<(string, string)>, passwordOf: string -> Option<string>, values: seq<Secret>) {
    && (forall i | 0 <= i < |env| && IsSecretVariable(env[i]) :: Secret(env[i].0, env[i].1) in values)
    && (forall i, p | 0 <= i < |env| && HoldsPassword(env[i], passwordOf, p) ::
          Secret(env[i].0 + ":password", p) in values)
    && (forall s | s in values :: exists i :: 0 <= i < |env| && ComesFrom(s, env[i], passwordOf))
  }

  lemma SensitiveKeyIff(key: string)
    ensures NamesSecret(key) <==> IsSensitiveKey(key)
  {
    UpperContainsIff(key, "PASSWORD");
    UpperContainsIff(key, "SECRET");
    UpperContainsIff(key, "TOKEN");
    UpperEndsIff(key, "_DATABASE_URL");
  }

  // What one variable contributes, and in which order.
  lemma SecretsOfVariable(key: string, value: string, passwordOf: string -> Option<string>)
    ensures var one := SecretsOf(key, value, passwordOf);
            && (IsSecretVariable((key, value)) ==> Secret(key, value) in one)
            && (forall p | HoldsPassword((key, value), passwordOf, p) :: Secret(key + ":password", p) in one)
            && (forall s | s in one :: ComesFrom(s, (key, value), passwordOf))
  {
    SensitiveKeyIff(key);
  }

  lemma {:induction false} SensitiveValuesCollect(env: seq<(string, string)>, passwordOf: string -> Option<string>)
    ensures Collects(env, passwordOf, SensitiveValues(env, passwordOf))
  {
    if env != [] {
      var init, last := env[..|env| - 1], env[|env| - 1];
      assert init + [last] == env;
      var values, more := SensitiveValues(init, passwordOf), SecretsOf(last.0, last.1, passwordOf);
      assert SensitiveValues(env, passwordOf) == values + more;
      SensitiveValuesCollect(init, passwordOf);
      SecretsOfVariable(last.0, last.1, passwordOf);
      CollectsMore(init, last, passwordOf, values, more);
    }
  }

  lemma CollectsMore(env: seq<(string, string)>, last: (string, string), passwordOf: string -> Option<string>,
                     values: seq<Secret>, more: seq<Secret>)
    requires Collects(env, passwordOf, values)
    requires IsSecretVariable(last) ==> Secret(last.0, last.1) in more
    requires forall p | HoldsPassword(last, passwordOf, p) :: Secret(last.0 + ":password", p) in more
    requires forall s | s in more :: ComesFrom(s, last, passwordOf)
    ensures Collects(env + [last], passwordOf, values + more)
  {
    var all := env + [last];
    assert forall i | 0 <= i < |env| :: all[i] == env[i];
    forall s | s in values + more ensures exists i :: 0 <= i < |all| && ComesFrom(s, all[i], passwordOf) {
      if s in values {
        var i :| 0 <= i < |env| && ComesFrom(s, env[i], passwordOf);
        assert ComesFrom(s, all[i], passwordOf);
      } else {
        assert ComesFrom(s, all[|env|], passwordOf);
      }
    }
  }

  /** One more variable adds its value, if its name names a secret, and then the password of its value, if
      that has one. */
  lemma OneVariableMore(env: seq<(string, string)>, key: string, value: string, passwordOf: string -> Option<string>)
    ensures SensitiveValues(env + [(key, value)], passwordOf) ==
            SensitiveValues(env, passwordOf)
            + (if IsSecretVariable((key, value)) then [Secret(key, value)] else [])
            + (if exists p :: HoldsPassword((key, value), passwordOf, p)
               then [Secret(key + ":password", passwordOf(value).value)] else [])
  {
    SensitiveKeyIff(key);
    var more := env + [(key, value)];
    assert more[..|more| - 1] == env;
    if value != "" && passwordOf(value).Some? && passwordOf(value).value != "" {
      assert HoldsPassword((key, value), passwordOf, passwordOf(value).value);
    }
  }

  method SensitiveEnvValues(env: seq<(string, string)>, passwordOf: string -> Option<string>)
    returns (values: seq<Secret>)
    ensures values == SensitiveValues(env, passwordOf) && NonEmpty(values)
    ensures Collects(env, passwordOf, values)
  {
    values := [];
    for i := 0 to |env|
      invariant values == SensitiveValues(env[..i], passwordOf)
    {
      var (key, value) := env[i];
      assert env[..i + 1][..i] == env[..i];
      if value == "" {
        continue;
      }
      if IsSensitiveKey(key) {
        values := values + [Secret(key, value)];
      }
      var password := passwordOf(value);
      if password.Some? && password.value != "" {
        values := values + [Secret(key + ":password", password.value)];
      }
    }
    assert env[..|env|] == env;
    SecretsNonEmpty(env, passwordOf);
    SensitiveValuesCollect(env, passwordOf);
  }

  // ----- occurrences that reach from one text into the next -----

  // Cut at p, v would reach from the end of a into the start of b.
  ghost predicate Reaches(a: string, b: string, v: string, p: nat)
    requires p <= |v|
  {
    EndsWith(a, v[..p]) && v[p..] <= b
  }

  // No occurrence of v in a + b lies across the seam.
  ghost predicate Parted(a: string, b: string, v: string) {
    forall p | 0 < p < |v| :: !Reaches(a, b, v, p)
  }

  // The part of v from p on, or up to p, could run into, or over, an end of m.
  ghost predicate Overlaps(v: string, p: nat, m: string)
    requires p <= |v|
  {
    || v[p..] <= m || m <= v[p..]
    || EndsWith(m, v[..p]) || EndsWith(v[..p], m)
  }

  // Wherever m stands, no occurrence of v lies across one of its ends.
  ghost predicate Shuns(v: string, m: string) {
    forall p | 0 < p < |v| :: !Overlaps(v, p, m)
  }

  lemma ShunsParts(v: string, a: string, m: string, b: string)
    requires Shuns(v, m)
    ensures Parted(a, m, v) && Parted(a, m + b, v) && Parted(a + m, b, v)
  {
    forall p | 0 < p < |v|
      ensures !Reaches(a, m, v, p) && !Reaches(a, m + b, v, p) && !Reaches(a + m, b, v, p)
    {
      assert !Overlaps(v, p, m);
      if v[p..] <= m + b {
        PrefixOfJoin(v[p..], m, b);
      }
      if EndsWith(a + m, v[..p]) {
        SuffixOfJoin(v[..p], a, m);
      }
    }
  }

  lemma PrefixOfJoin(x: string, m: string, b: string)
    requires x <= m + b
    ensures x <= m || m <= x
  {
    if |x| <= |m| {
      assert m[..|x|] == (m + b)[..|x|];
    } else {
      assert x[..|m|] == (m + b)[..|m|] == m;
    }
  }

  lemma SuffixOfJoin(x: string, a: string, m: string)
    requires EndsWith(a + m, x)
    ensures EndsWith(m, x) || EndsWith(x, m)
  {
    var s := a + m;
    if |x| <= |m| {
      assert m[|m| - |x|..] == s[|s| - |x|..];
    } else {
      assert x[|x| - |m|..] == s[|s| - |m|..] == m;
    }
  }

  lemma PartedInside(a: string, b: string, v: string, k: nat)
    requires Parted(a, b, v) && k <= |a|
    ensures Parted(a[k..], b, v)
  {
    forall p | 0 < p < |v| ensures !Reaches(a[k..], b, v, p) {
      assert !Reaches(a, b, v, p);
      if EndsWith(a[k..], v[..p]) {
        assert a[k..][|a| - k - p..] == a[|a| - p..];
      }
    }
  }

  lemma LongPrefixReaches(a: string, b: string, v: string)
    requires |a| < |v|
    ensures v <= a + b ==> Reaches(a, b, v, |a|)
  {
    if v <= a + b {
      assert v[..|a|] == (a + b)[..|a|] == a && v[|a|..] == (a + b)[|a|..|v|] == b[..|v| - |a|];
    }
  }

  lemma StartsWithin(a: string, b: string, v: string)
    requires a != "" && v != "" && Parted(a, b, v)
    ensures v <= a + b <==> v <= a
  {
    if |a| < |v| {
      LongPrefixReaches(a, b, v);
    } else {
      assert (a + b)[..|v|] == a[..|v|];
    }
  }

  lemma {:induction false} ReplaceSplits(a: string, b: string, v: string, l: string)
    requires v != "" && Parted(a, b, v)
    ensures Replace(a + b, v, l) == Replace(a, v, l) + Replace(b, v, l)
    decreases |a|
  {
    if a == "" {
      assert a + b == b;
    } else {
      StartsWithin(a, b, v);
      var k := if v <= a then |v| else 1;
      PartedInside(a, b, v, k);
      ReplaceSplits(a[k..], b, v, l);
      assert (a + b)[k..] == a[k..] + b;
    }
  }

  // Each secret in turn shuns what its predecessors have made of m.
  ghost predicate ShunnedBy(secrets: seq<Secret>, m: string)
    requires NonEmpty(secrets)
  {
    secrets == []
    || (Shuns(secrets[0].value, m)
        && ShunnedBy(secrets[1..], Replace(m, secrets[0].value, Label(secrets[0].key))))
  }

  // A text in the middle that the secrets shun is redacted on its own.
  lemma {:induction false} RedactSplits(secrets: seq<Secret>, a: string, m: string, b: string)
    requires NonEmpty(secrets) && ShunnedBy(secrets, m)
    ensures Redact(secrets, a + m + b) == Redact(secrets, a) + Redact(secrets, m) + Redact(secrets, b)
  {
    if secrets != [] {
      var v, l := secrets[0].value, Label(secrets[0].key);
      ShunsParts(v, a, m, b);
      ReplaceSplits(a, m, v, l);
      ReplaceSplits(a + m, b, v, l);
      RedactSplits(secrets[1..], Replace(a, v, l), Replace(m, v, l), Replace(b, v, l));
    }
  }

  // ----- texts free of every secret -----

  ghost predicate Clean(secrets: seq<Secret>, s: string) {
    forall i | 0 <= i < |secrets| :: !Contains(s, secrets[i].value)
  }

  // A text found in a join, and not across the seam, lies in one of the parts.
  lemma JoinContains(a: string, b: string, x: string)
    requires Parted(a, b, x) && Contains(a + b, x)
    ensures Contains(a, x) || Contains(b, x)
  {
    var i := WhereContained(a + b, x);
    if i + |x| <= |a| {
      assert a[i..i + |x|] == (a + b)[i..i + |x|];
      ContainsAt(a, x, i);
    } else if i >= |a| {
      assert b[i - |a|..i - |a| + |x|] == (a + b)[i..i + |x|];
      ContainsAt(b, x, i - |a|);
    } else {
      var p := |a| - i;
      assert x[..p] == (a + b)[i..|a|] == a[i..] && x[p..] == (a + b)[|a|..i + |x|] == b[..|x| - p];
      assert Reaches(a, b, x, p);
    }
  }

  // Every secret shuns m.
  ghost predicate AllShun(secrets: seq<Secret>, m: string) {
    forall i | 0 <= i < |secrets| :: Shuns(secrets[i].value, m)
  }

  lemma JoinClean(secrets: seq<Secret>, a: string, m: string, b: string)
    requires AllShun(secrets, m) && Clean(secrets, a) && Clean(secrets, m) && Clean(secrets, b)
    ensures Clean(secrets, a + m + b)
  {
    forall i | 0 <= i < |secrets| ensures !Contains(a + m + b, secrets[i].value) {
      ShunsParts(secrets[i].value, a, m, b);
      if Contains(a + m + b, secrets[i].value) {
        JoinContains(a + m, b, secrets[i].value);
        JoinContains(a, m, secrets[i].value);
      }
    }
  }

  lemma {:induction false} ReplaceAbsent(s: string, v: string, l: string)
    requires v != "" && !Contains(s, v)
    ensures Replace(s, v, l) == s
  {
    if s != "" {
      ReplaceAbsent(s[1..], v, l);
    }
  }

  // The first occurrence is replaced, and the rest after it.
  lemma {:induction false} ReplaceFirst(s: string, v: string, l: string) returns (before: string, after: string)
    requires v != "" && Contains(s, v)
    ensures s == before + v + after && !Contains(before, v)
    ensures Replace(s, v, l) == before + l + Replace(after, v, l)
  {
    if v <= s {
      before, after := "", s[|v|..];
    } else {
      var b, c := ReplaceFirst(s[1..], v, l);
      before, after := [s[0]] + b, c;
      FirstAfterOneMore(s, v, l, b, c);
    }
  }

  lemma FirstAfterOneMore(s: string, v: string, l: string, b: string, c: string)
    requires v != "" && s != "" && !(v <= s) && s[1..] == b + v + c && !Contains(b, v)
    requires Replace(s[1..], v, l) == b + l + Replace(c, v, l)
    ensures s == ([s[0]] + b) + v + c && !Contains([s[0]] + b, v)
    ensures Replace(s, v, l) == ([s[0]] + b) + l + Replace(c, v, l)
  {
    ConsAssociates([s[0]], b, v, c);
    ConsAssociates([s[0]], b, l, Replace(c, v, l));
    OneMoreStill(s, v, b, c);
  }

  lemma OneMoreStill(s: string, v: string, b: string, c: string)
    requires s != "" && !(v <= s) && s[1..] == b + v + c && !Contains(b, v)
    ensures !Contains([s[0]] + b, v)
  {
    assert s == [s[0]] + (b + (v + c));
    NotContainedAfterOneMore([s[0]], b, v + c, v);
  }

  lemma ConsAssociates(x: string, b: string, v: string, c: string)
    ensures x + (b + v + c) == (x + b) + v + c
  {
  }

  lemma NotContainedAfterOneMore(x: string, b: string, rest: string, v: string)
    requires |x| == 1 && !Contains(b, v) && !(v <= x + b + rest)
    ensures !Contains(x + b, v)
  {
    assert (x + b)[1..] == b;
    assert v <= x + b ==> v <= x + b + rest;
  }

  // Secret j's value has not been broken up by the time it is looked for.
  ghost predicate Live(secrets: seq<Secret>, j: nat)
    requires j < |secrets|
  {
    forall i | 0 <= i < j :: !Contains(secrets[j].value, secrets[i].value)
  }

  /** Redacting the label of any live secret with the secrets after it leaves no secret in it. */
  ghost predicate LabelsSafe(secrets: seq<Secret>)
    requires NonEmpty(secrets)
  {
    forall j | 0 <= j < |secrets| && Live(secrets, j) ::
      Clean(secrets, Redact(secrets[j + 1..], Label(secrets[j].key)))
  }

  // Where the label of a live secret stands, no secret can lie across one of its ends, at any stage.
  ghost predicate LabelsApart(secrets: seq<Secret>)
    requires NonEmpty(secrets)
  {
    forall j | 0 <= j < |secrets| && Live(secrets, j) ::
      var rest, l := secrets[j + 1..], Label(secrets[j].key);
      ShunnedBy(rest, l) && AllShun(secrets, Redact(rest, l))
  }

  // s holds none of the first k secrets.
  ghost predicate FreeOf(secrets: seq<Secret>, k: nat, s: string)
    requires k <= |secrets|
  {
    forall i | 0 <= i < k :: !Contains(s, secrets[i].value)
  }

  lemma PartFree(secrets: seq<Secret>, k: nat, a: string, b: string, c: string)
    requires k <= |secrets| && FreeOf(secrets, k, a + b + c)
    ensures FreeOf(secrets, k, a) && FreeOf(secrets, k, b) && FreeOf(secrets, k, c)
  {
    forall i | 0 <= i < k
      ensures !Contains(a, secrets[i].value) && !Contains(b, secrets[i].value) && !Contains(c, secrets[i].value)
    {
      var x := secrets[i].value;
      assert "" + a + (b + c) == a + b + c && (a + b) + c + "" == a + b + c;
      if Contains(a, x) {
        PartContains("", a, b + c, x);
      } else if Contains(b, x) {
        PartContains(a, b, c, x);
      } else if Contains(c, x) {
        PartContains(a + b, c, "", x);
      }
    }
  }

  lemma {:induction false} RedactFromClean(secrets: seq<Secret>, k: nat, s: string)
    requires k <= |secrets| && NonEmpty(secrets) && LabelsApart(secrets) && LabelsSafe(secrets)
    requires FreeOf(secrets, k, s)
    ensures Clean(secrets, Redact(secrets[k..], s))
    decreases |secrets| - k, |s|
  {
    if k < |secrets| {
      var Secret(key, v) := secrets[k];
      var rest := secrets[k + 1..];
      assert secrets[k..][1..] == rest;
      if !Contains(s, v) {
        ReplaceAbsent(s, v, Label(key));
        RedactFromClean(secrets, k + 1, s);
      } else {
        var before, after := ReplaceFirst(s, v, Label(key));
        PartFree(secrets, k, before, v, after);
        RedactFromClean(secrets, k + 1, before);
        RedactFromClean(secrets, k, after);
        assert Clean(secrets, Redact(rest, Replace(after, v, Label(key))));
        JoinRedacted(secrets, k, before, Replace(after, v, Label(key)));
      }
    }
  }

  // Around the label of a live secret, clean pieces redact to a clean whole.
  lemma JoinRedacted(secrets: seq<Secret>, k: nat, a: string, b: string)
    requires k < |secrets| && NonEmpty(secrets) && LabelsApart(secrets) && LabelsSafe(secrets) && Live(secrets, k)
    requires Clean(secrets, Redact(secrets[k + 1..], a)) && Clean(secrets, Redact(secrets[k + 1..], b))
    ensures Clean(secrets, Redact(secrets[k + 1..], a + Label(secrets[k].key) + b))
  {
    var rest, l := secrets[k + 1..], Label(secrets[k].key);
    RedactSplits(rest, a, l, b);
    JoinClean(secrets, Redact(rest, a), Redact(rest, l), Redact(rest, b));
  }

  // Secrets that do not occur are passed over.
  lemma {:induction false} RedactSkips(secrets: seq<Secret>, k: nat, s: string)
    requires k <= |secrets| && NonEmpty(secrets) && FreeOf(secrets, k, s)
    ensures Redact(secrets, s) == Redact(secrets[k..], s)
  {
    if k == 0 {
      assert secrets[0..] == secrets;
    } else {
      ReplaceAbsent(s, secrets[0].value, Label(secrets[0].key));
      assert forall i | 0 <= i < k - 1 :: secrets[1..][i] == secrets[i + 1];
      RedactSkips(secrets[1..], k - 1, s);
      assert secrets[1..][k - 1..] == secrets[k..];
    }
  }

  // A live secret, as a detail of its own, becomes its label, and that is redacted further.
  lemma RedactLiveSecret(secrets: seq<Secret>, j: nat)
    requires j < |secrets| && NonEmpty(secrets) && Live(secrets, j)
    ensures Redact(secrets, secrets[j].value) == Redact(secrets[j + 1..], Label(secrets[j].key))
  {
    var Secret(key, v) := secrets[j];
    RedactSkips(secrets, j, v);
    assert v[|v|..] == "" && v <= v;
    assert Replace(v, v, Label(key)) == Label(key) + "" == Label(key);
    assert secrets[j..][1..] == secrets[j + 1..];
  }

  lemma SafeLabelsSuffice(secrets: seq<Secret>, detail: string)
    requires NonEmpty(secrets) && LabelsApart(secrets) && LabelsSafe(secrets)
    ensures Clean(secrets, Redact(secrets, detail))
  {
    RedactFromClean(secrets, 0, detail);
    assert secrets[0..] == secrets;
  }

  lemma UnsafeLabelLeaks(secrets: seq<Secret>) returns (detail: string)
    requires NonEmpty(secrets) && !LabelsSafe(secrets)
    ensures !Clean(secrets, Redact(secrets, detail))
  {
    var j :| 0 <= j < |secrets| && Live(secrets, j)
             && !Clean(secrets, Redact(secrets[j + 1..], Label(secrets[j].key)));
    RedactLiveSecret(secrets, j);
    detail := secrets[j].value;
  }

  /** For secrets that cannot lie across an end of a label: no detail whatever leaks any secret if and
      only if no live secret's own label does. So later replacements bring nothing back, except out of
      labels. */
  lemma RedactsEveryDetailIff(secrets: seq<Secret>)
    requires NonEmpty(secrets) && LabelsApart(secrets)
    ensures (forall detail :: Clean(secrets, Redact(secrets, detail))) <==> LabelsSafe(secrets)
  {
    if LabelsSafe(secrets) {
      forall detail ensures Clean(secrets, Redact(secrets, detail)) {
        SafeLabelsSuffice(secrets, detail);
      }
    } else {
      var detail := UnsafeLabelLeaks(secrets);
    }
  }

  /** Whatever the secrets are, a detail leaks as soon as a live secret's own label does. */
  lemma SafeLabelsAreNeeded(secrets: seq<Secret>)
    requires NonEmpty(secrets) && forall detail :: Clean(secrets, Redact(secrets, detail))
    ensures LabelsSafe(secrets)
  {
    if !LabelsSafe(secrets) {
      var detail := UnsafeLabelLeaks(secrets);
    }
  }

  /** In particular, secrets that occur in no label, and overlap an end of none, are hidden from every
      detail. */
  lemma NoSecretInLabels(secrets: seq<Secret>, detail: string)
    requires NonEmpty(secrets)
    requires forall j | 0 <= j < |secrets| ::
               Clean(secrets, Label(secrets[j].key)) && AllShun(secrets, Label(secrets[j].key))
    ensures Clean(secrets, Redact(secrets, detail))
  {
    forall j | 0 <= j < |secrets|
      ensures var rest, l := secrets[j + 1..], Label(secrets[j].key);
              && ShunnedBy(rest, l) && AllShun(secrets, Redact(rest, l))
              && Clean(secrets, Redact(rest, l))
    {
      var rest, l := secrets[j + 1..], Label(secrets[j].key);
      assert forall i | 0 <= i < |rest| :: rest[i] == secrets[j + 1 + i];
      ShunnedUnchanged(rest, l);
    }
    RedactsEveryDetailIff(secrets);
  }

  lemma {:induction false} ShunnedUnchanged(secrets: seq<Secret>, m: string)
    requires NonEmpty(secrets) && Clean(secrets, m) && AllShun(secrets, m)
    ensures ShunnedBy(secrets, m) && Redact(secrets, m) == m
  {
    if secrets != [] {
      ReplaceAbsent(m, secrets[0].value, Label(secrets[0].key));
      assert forall i | 0 <= i < |secrets| - 1 :: secrets[1..][i] == secrets[i + 1];
      ShunnedUnchanged(secrets[1..], m);
    }
  }

  // ----- secrets without delimiters -----

  predicate IsDelimiter(c: char) {
    c == '<' || c == '>' || c == '*'
  }

  ghost predicate IsPlain(v: string) {
    v != "" && forall i | 0 <= i < |v| :: !IsDelimiter(v[i])
  }

  ghost predicate AllPlain(secrets: seq<Secret>) {
    forall i | 0 <= i < |secrets| :: IsPlain(secrets[i].value)
  }

  ghost predicate Bracketed(m: string) {
    m != "" && IsDelimiter(m[0]) && IsDelimiter(m[|m| - 1])
  }

  lemma LastOfSuffix(s: string, t: string)
    requires s != "" && t != ""
    ensures EndsWith(s, t) ==> s[|s| - 1] == t[|t| - 1]
  {
    if EndsWith(s, t) {
      assert s[|s| - |t|..][|t| - 1] == s[|s| - 1];
    }
  }

  lemma PlainShuns(v: string, m: string)
    requires IsPlain(v) && Bracketed(m)
    ensures Shuns(v, m)
  {
    forall p | 0 < p < |v| ensures !Overlaps(v, p, m) {
      var front, back := v[..p], v[p..];
      assert !IsDelimiter(back[0]) && !IsDelimiter(front[p - 1]);
      LastOfSuffix(m, front);
      LastOfSuffix(front, m);
    }
  }

  lemma ReplaceBracketed(m: string, v: string, l: string)
    requires IsPlain(v) && Bracketed(m)
    ensures Bracketed(Replace(m, v, l))
  {
    var most, last := m[..|m| - 1], [m[|m| - 1]];
    PlainShuns(v, last);
    ShunsParts(v, most, last, "");
    ReplaceSplits(most, last, v, l);
    assert m == most + last;
    assert v[0] != last[0] && v[0] != m[0];
    assert Replace(last[1..], v, l) == "";
    assert Replace(last, v, l) == last;
  }

  lemma {:induction false} PlainShunned(secrets: seq<Secret>, m: string)
    requires NonEmpty(secrets) && AllPlain(secrets) && Bracketed(m)
    ensures ShunnedBy(secrets, m) && Bracketed(Redact(secrets, m))
  {
    if secrets != [] {
      PlainShuns(secrets[0].value, m);
      ReplaceBracketed(m, secrets[0].value, Label(secrets[0].key));
      PlainShunned(secrets[1..], Replace(m, secrets[0].value, Label(secrets[0].key)));
    }
  }

  /** Secrets without '<', '>' and '*' can lie across an end of no label, whatever has been done to it. */
  lemma PlainSecretsApart(secrets: seq<Secret>)
    requires NonEmpty(secrets) && AllPlain(secrets)
    ensures LabelsApart(secrets)
  {
    forall j | 0 <= j < |secrets|
      ensures var rest, l := secrets[j + 1..], Label(secrets[j].key);
              ShunnedBy(rest, l) && AllShun(secrets, Redact(rest, l))
    {
      var rest, l := secrets[j + 1..], Label(secrets[j].key);
      assert forall i | 0 <= i < |rest| :: rest[i] == secrets[j + 1 + i];
      PlainShunned(rest, l);
      forall i | 0 <= i < |secrets| ensures Shuns(secrets[i].value, Redact(rest, l)) {
        PlainShuns(secrets[i].value, Redact(rest, l));
      }
    }
  }

  lemma ContainsMember(s: string, x: string, i: nat)
    requires i < |x| && Contains(s, x)
    ensures x[i] in s
  {
    var k := WhereContained(s, x);
    assert s[k..k + |x|][i] == s[k + i];
  }

  lemma Lacks(s: string, x: string, i: nat)
    requires i < |x| && x[i] !in s
    ensures !Contains(s, x)
  {
    if Contains(s, x) {
      ContainsMember(s, x, i);
    }
  }

  /** A '*' in a secret breaks this, although the secret is in no label: a password's label then
      completes the secret, as with token "a*", password "b" and detail "ab". */
  lemma StarLeaks(key: string, urlKey: string, a: char, b: char)
    requires a != b && a != '*' && b != '*' && EndsWith(urlKey, ":password")
    ensures var secrets := [Secret(key, [a, '*']), Secret(urlKey, [b])];
            && NonEmpty(secrets) && !Contains(Label(urlKey), [a, '*'])
            && !Clean(secrets, Redact(secrets, [a] + [b]))
  {
    var secrets := [Secret(key, [a, '*']), Secret(urlKey, [b])];
    var leaked := [a] + "***";
    Lacks("***", [a, '*'], 0);
    Lacks([a] + [b], [a, '*'], 1);
    ReplaceAbsent([a] + [b], [a, '*'], Label(key));
    ReplaceLast([a], [b], "***");
    RedactTwo(secrets, [a] + [b]);
    assert leaked[0..2] == [a, '*'];
    ContainsAt(leaked, [a, '*'], 0);
    assert Contains(leaked, secrets[0].value);
  }

  lemma RedactTwo(secrets: seq<Secret>, s: string)
    requires |secrets| == 2 && NonEmpty(secrets)
    ensures Redact(secrets, s) ==
            Replace(Replace(s, secrets[0].value, Label(secrets[0].key)), secrets[1].value, Label(secrets[1].key))
  {
    var rest := secrets[1..];
    var t := Replace(s, secrets[0].value, Label(secrets[0].key));
    assert rest[0] == secrets[1] && rest[1..] == [];
    assert Redact(rest, t) == Redact([], Replace(t, secrets[1].value, Label(secrets[1].key)));
  }

  lemma ReplaceLast(a: string, v: string, l: string)
    requires |a| == |v| == 1 && a != v
    ensures Replace(a + v, v, l) == a + l
  {
    assert (a + v)[1..] == v && v[1..] == "";
    assert Replace(v, v, l) == l + "" == l;
    assert (a + v)[0] == a[0] && [a[0]] == a;
  }

  // ----- _safe_detail and the check of the evidence -----

  // The text holds no secret value and no password of the environment.
  ghost predicate Hides(env: seq<(string, string)>, passwordOf: string -> Option<string>, text: string) {
    && (forall i | 0 <= i < |env| && IsSecretVariable(env[i]) :: !Contains(text, env[i].1))
    && (forall i, p | 0 <= i < |env| && HoldsPassword(env[i], passwordOf, p) :: !Contains(text, p))
  }

  lemma CleanHides(env: seq<(string, string)>, passwordOf: string -> Option<string>, values: seq<Secret>, text: string)
    requires Collects(env, passwordOf, values) && Clean(values, text)
    ensures Hides(env, passwordOf, text)
  {
    forall s | s in values ensures !Contains(text, s.value) {
      var i :| 0 <= i < |values| && values[i] == s;
    }
    forall i | 0 <= i < |env| && IsSecretVariable(env[i]) ensures !Contains(text, env[i].1) {
      assert Secret(env[i].0, env[i].1) in values;
    }
    forall i, p | 0 <= i < |env| && HoldsPassword(env[i], passwordOf, p) ensures !Contains(text, p) {
      assert Secret(env[i].0 + ":password", p) in values;
    }
  }

  // With one secret, its value is replaced throughout: a password by stars, another by its key.
  lemma RedactOne(secrets: seq<Secret>, s: string)
    requires NonEmpty(secrets) && |secrets| == 1
    ensures Redact(secrets, s) ==
            Replace(s, secrets[0].value,
                    if EndsWith(secrets[0].key, ":password") then "***" else "<redacted:" + secrets[0].key + ">")
  {
  }

  /** _safe_detail. For secrets whose labels are safe and apart from them, no secret value and no password
      of the environment is left in the text. */
  method SafeDetail(detail: string, env: seq<(string, string)>, passwordOf: string -> Option<string>)
    returns (safe: string)
    ensures NonEmpty(SensitiveValues(env, passwordOf))
    ensures safe == Redact(SensitiveValues(env, passwordOf), detail)
    ensures LabelsApart(SensitiveValues(env, passwordOf)) && LabelsSafe(SensitiveValues(env, passwordOf)) ==>
              Hides(env, passwordOf, safe)
  {
    var secrets := SensitiveEnvValues(env, passwordOf);
    safe := detail;
    for i := 0 to |secrets|
      invariant Redact(secrets[i..], safe) == Redact(secrets, detail)
    {
      assert secrets[i..][1..] == secrets[i + 1..];
      safe := Replace(safe, secrets[i].value, Label(secrets[i].key));
    }
    if LabelsApart(secrets) && LabelsSafe(secrets) {
      SafeLabelsSuffice(secrets, detail);
      CleanHides(env, passwordOf, secrets, safe);
    }
  }

  const LOCAL_DATA_PATH := "/data/nex-platform"

  datatype Leak = NoLeak | Leaks(what: string) | LeaksLocalPath

  ghost predicate FirstLeak(secrets: seq<Secret>, text: string, i: int) {
    && 0 <= i < |secrets| && Contains(text, secrets[i].value)
    && forall k | 0 <= k < i :: !Contains(text, secrets[k].value)
  }

  // The loop over the secrets.
  method FindLeak(serialized: string, secrets: seq<Secret>) returns (leak: Leak)
    ensures leak.NoLeak? <==> Clean(secrets, serialized)
    ensures !leak.NoLeak? ==>
              exists i ::
                && FirstLeak(secrets, serialized, i)
                && leak == Leaks(if EndsWith(secrets[i].key, ":password") then "database password" else secrets[i].key)
  {
    for i := 0 to |secrets|
      invariant forall k | 0 <= k < i :: !Contains(serialized, secrets[k].value)
    {
      var Secret(key, value) := secrets[i];
      if Contains(serialized, value) {
        assert FirstLeak(secrets, serialized, i);
        return Leaks(if EndsWith(key, ":password") then "database password" else key);
      }
    }
    leak := NoLeak;
  }

  /** assert_smoke_evidence_redacted. A leak is reported exactly when some collected value occurs; what is
      reported names the first of them. */
  method AssertEvidenceRedacted(serialized: string, env: seq<(string, string)>, passwordOf: string -> Option<string>)
    returns (leak: Leak)
    ensures leak.Leaks? <==> !Clean(SensitiveValues(env, passwordOf), serialized)
    ensures !leak.Leaks? ==> Hides(env, passwordOf, serialized)
    ensures !leak.Leaks? ==> (leak.LeaksLocalPath? <==> Contains(serialized, "/data/nex-platform"))
    ensures leak.Leaks? ==>
              exists i :: FirstLeak(SensitiveValues(env, passwordOf), serialized, i)
                          && leak.what == if EndsWith(SensitiveValues(env, passwordOf)[i].key, ":password")
                                          then "database password" else SensitiveValues(env, passwordOf)[i].key
  {
    var secrets := SensitiveEnvValues(env, passwordOf);
    leak := FindLeak(serialized, secrets);
    if leak.NoLeak? {
      CleanHides(env, passwordOf, secrets, serialized);
      leak := if Contains(serialized, LOCAL_DATA_PATH) then LeaksLocalPath else NoLeak;
    }
  }

  /** The check accepts what the redaction produced, for every environment whose labels are safe and
      apart from the secrets, unless the detail names the local data path. */
  method FailureDetail(detail: string, env: seq<(string, string)>, passwordOf: string -> Option<string>)
    returns (safe: string, leak: Leak)
    ensures NonEmpty(SensitiveValues(env, passwordOf))
    ensures LabelsApart(SensitiveValues(env, passwordOf)) && LabelsSafe(SensitiveValues(env, passwordOf)) ==>
              && !leak.Leaks? && Hides(env, passwordOf, safe)
              && (leak.NoLeak? <==> !Contains(safe, "/data/nex-platform"))
  {
    safe := SafeDetail(detail, env, passwordOf);
    leak := AssertEvidenceRedacted(safe, env, passwordOf);
    ghost var secrets := SensitiveValues(env, passwordOf);
    if LabelsApart(secrets) && LabelsSafe(secrets) {
      SafeLabelsSuffice(secrets, detail);
    }
  }
}
