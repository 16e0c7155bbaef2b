/** Reading the MSAL settings from an environment map: a key names a field
    by its suffix, case-insensitively; the first non-empty string value for a
    field wins. The environment map is a parameter (reading `import.meta.env`
    and `process.env` is not modelled). */
module MsalEnv {
  import opened Wrappers
  import opened Records
  import Seqs
  import Text

  /** The five fields of `MsalValues`. */
  datatype Field = ClientId | Authority | RedirectUri | LogoutRedirectUri | AzureScopes

  /** A value of an `EnvSource`: a string, a boolean or `undefined`. */
  datatype EnvValue = EnvString(s: string) | EnvBool(b: bool) | EnvUndefined

  /** `MsalValues`; `values[field]` is `Get` and `values[field] = v` is `With`. */
  datatype MsalValues = MsalValues(clientId: string, authority: string, redirectUri: string,
                                   logoutRedirectUri: string, azureScopes: string)
  {
    function Get(f: Field): string {
      match f
      case ClientId => clientId
      case Authority => authority
      case RedirectUri => redirectUri
      case LogoutRedirectUri => logoutRedirectUri
      case AzureScopes => azureScopes
    }

    function With(f: Field, v: string): (r: MsalValues)
      ensures r.Get(f) == v
      ensures forall g :: g != f ==> r.Get(g) == Get(g)
    {
      match f
      case ClientId => this.(clientId := v)
      case Authority => this.(authority := v)
      case RedirectUri => this.(redirectUri := v)
      case LogoutRedirectUri => this.(logoutRedirectUri := v)
      case AzureScopes => this.(azureScopes := v)
    }
  }

  /** Two records with the same value in every field are the same record. */
  lemma SameFields(a: MsalValues, b: MsalValues)
    requires forall f :: a.Get(f) == b.Get(f)
    ensures a == b
  {
    assert a.Get(ClientId) == b.Get(ClientId) && a.Get(Authority) == b.Get(Authority);
    assert a.Get(RedirectUri) == b.Get(RedirectUri) && a.Get(LogoutRedirectUri) == b.Get(LogoutRedirectUri);
    assert a.Get(AzureScopes) == b.Get(AzureScopes);
  }

  /** `DEFAULTS`: every field empty. */
  const Defaults: MsalValues := MsalValues("", "", "", "", "")

  /** `normalizeKey`: upper-case, then trim. */
  function NormalizeKey(k: string): string {
    Text.Trim(Text.Upper(k))
  }

  /** A normalized key is its own normalization. */
  lemma NormalizeKeyIdempotent(k: string)
    ensures NormalizeKey(NormalizeKey(k)) == NormalizeKey(k)
  {
    Text.UpperForgetsCase(k);
    TrimUpperFixed(Text.Upper(k));
  }

  /** Trimming an upper-case string gives an upper-case string that is its
      own trim. */
  lemma TrimUpperFixed(u: string)
    requires Text.Upper(u) == u
    ensures Text.Trim(Text.Upper(Text.Trim(u))) == Text.Trim(u)
  {
    UpperOfTrim(u);
    TrimTwice(u);
  }

  lemma UpperOfTrim(u: string)
    requires Text.Upper(u) == u
    ensures Text.Upper(Text.Trim(u)) == Text.Trim(u)
  {
    var t := Text.Trim(u);
    Text.TrimShape(u);
    var i :| 0 <= i <= |u| && Text.OccursAt(u, t, i);
    Text.UpperFixedSlice(u, i, i + |t|, t);
  }

  lemma TrimTwice(u: string)
    ensures Text.Trim(Text.Trim(u)) == Text.Trim(u)
  {
    Text.TrimShape(u);
    Text.TrimUnchanged(Text.Trim(u));
  }

  lemma NormalizeEmpty()
    ensures NormalizeKey("") == ""
  {
    assert Text.Upper("") == "";
    Text.TrimUnchanged("");
  }

  /** One row of `SUFFIX_MAP`. */
  datatype SuffixRule = SuffixRule(suffix: string, field: Field)

  /** `SUFFIX_MAP`, in its order: the longer POST_LOGOUT_REDIRECT_URI comes
      before REDIRECT_URI. */
  const SuffixMap: seq<SuffixRule> := [
    SuffixRule("POST_LOGOUT_REDIRECT_URI", LogoutRedirectUri),
    SuffixRule("REDIRECT_URI", RedirectUri),
    SuffixRule("CLIENT_ID", ClientId),
    SuffixRule("AUTHORITY", Authority),
    SuffixRule("AZURE_SCOPES", AzureScopes)
  ]

  /** The index of the first rule from `from` on whose suffix ends `k`, or
      `|SuffixMap|` when there is none. */
  function FirstSuffixMatch(k: string, from: nat): (i: nat)
    requires from <= |SuffixMap|
    ensures from <= i <= |SuffixMap|
    ensures i < |SuffixMap| ==> Text.EndsWith(k, SuffixMap[i].suffix)
    ensures forall j :: from <= j < i ==> !Text.EndsWith(k, SuffixMap[j].suffix)
    decreases |SuffixMap| - from
  {
    if from == |SuffixMap| then from
    else if Text.EndsWith(k, SuffixMap[from].suffix) then from
    else FirstSuffixMatch(k, from + 1)
  }

  /** `resolveField`: the field of the first suffix the normalized key ends
      with, or `None` (`null`). */
  function ResolveField(key: string): Option<Field> {
    var k := NormalizeKey(key);
    var i := FirstSuffixMatch(k, 0);
    if i < |SuffixMap| then Some(SuffixMap[i].field) else None
  }

  /** `resolveField` gives `null` exactly when no suffix ends the normalized
      key, and otherwise the field of the first suffix that does. */
  lemma ResolveFieldFirst(key: string)
    ensures ResolveField(key).None? <==> forall i :: 0 <= i < |SuffixMap| ==> !Text.EndsWith(NormalizeKey(key), SuffixMap[i].suffix)
    ensures ResolveField(key).Some? ==>
              exists i :: 0 <= i < |SuffixMap| && Text.EndsWith(NormalizeKey(key), SuffixMap[i].suffix)
                          && SuffixMap[i].field == ResolveField(key).value
                          && forall j :: 0 <= j < i ==> !Text.EndsWith(NormalizeKey(key), SuffixMap[j].suffix)
  {
    SuffixMatchFirst(NormalizeKey(key), ResolveField(key));
  }

  /** The rule `FirstSuffixMatch` finds is the first whose suffix ends `k`. */
  lemma SuffixMatchFirst(k: string, r: Option<Field>)
    requires r == (var i := FirstSuffixMatch(k, 0); if i < |SuffixMap| then Some(SuffixMap[i].field) else None)
    ensures r.None? <==> forall i :: 0 <= i < |SuffixMap| ==> !Text.EndsWith(k, SuffixMap[i].suffix)
    ensures r.Some? ==>
              exists i :: 0 <= i < |SuffixMap| && Text.EndsWith(k, SuffixMap[i].suffix)
                          && SuffixMap[i].field == r.value
                          && forall j :: 0 <= j < i ==> !Text.EndsWith(k, SuffixMap[j].suffix)
  {
    var i := FirstSuffixMatch(k, 0);
    if i < |SuffixMap| {
      assert SuffixMap[i].field == r.value;
    }
  }

  /** Every field has a suffix, and each suffix names a different field. */
  lemma SuffixMapCoversFields(f: Field)
    ensures exists i :: 0 <= i < |SuffixMap| && SuffixMap[i].field == f
    ensures forall i, j :: 0 <= i < j < |SuffixMap| ==> SuffixMap[i].field != SuffixMap[j].field
  {
    match f
    case LogoutRedirectUri => assert SuffixMap[0].field == f;
    case RedirectUri => assert SuffixMap[1].field == f;
    case ClientId => assert SuffixMap[2].field == f;
    case Authority => assert SuffixMap[3].field == f;
    case AzureScopes => assert SuffixMap[4].field == f;
  }

  /** The case of the key does not matter. */
  lemma ResolveFieldIgnoresCase(key: string)
    ensures ResolveField(Text.Lower(key)) == ResolveField(key)
    ensures ResolveField(Text.Upper(key)) == ResolveField(key)
  {
    Text.UpperForgetsCase(key);
  }

  /** Resolving a normalized key resolves the raw key. */
  lemma ResolveFieldNormalized(key: string)
    ensures ResolveField(NormalizeKey(key)) == ResolveField(key)
  {
    NormalizeKeyIdempotent(key);
  }

  /** A key ending in POST_LOGOUT_REDIRECT_URI is the logout redirect, never
      the redirect. */
  lemma PostLogoutWins(key: string)
    requires Text.EndsWith(NormalizeKey(key), "POST_LOGOUT_REDIRECT_URI")
    ensures ResolveField(key) == Some(LogoutRedirectUri)
  {
  }

  /** A key that resolves to the redirect does not end in
      POST_LOGOUT_REDIRECT_URI. */
  lemma RedirectIsNotPostLogout(key: string)
    requires ResolveField(key) == Some(RedirectUri)
    ensures !Text.EndsWith(NormalizeKey(key), "POST_LOGOUT_REDIRECT_URI")
  {
    ResolvedBySecondRule(key);
    SecondRuleNotFirst(NormalizeKey(key));
  }

  lemma ResolvedBySecondRule(key: string)
    requires ResolveField(key) == Some(RedirectUri)
    ensures FirstSuffixMatch(NormalizeKey(key), 0) == 1
  {
    var i := FirstSuffixMatch(NormalizeKey(key), 0);
    assert i < |SuffixMap| && SuffixMap[i].field == RedirectUri;
    RedirectRow(i);
  }

  /** Only the second row of `SUFFIX_MAP` names the redirect. */
  lemma RedirectRow(i: nat)
    requires i < |SuffixMap| && SuffixMap[i].field == RedirectUri
    ensures i == 1
  {
  }

  lemma SecondRuleNotFirst(k: string)
    requires FirstSuffixMatch(k, 0) == 1
    ensures !Text.EndsWith(k, "POST_LOGOUT_REDIRECT_URI")
  {
    assert SuffixMap[0].suffix == "POST_LOGOUT_REDIRECT_URI";
  }

  /** A key ending in LOGOUT_REDIRECT_URI without the POST_ part (say
      `VITE_LOGOUT_REDIRECT_URI`, the name of the output field) sets the
      redirect, not the logout redirect. */
  lemma LogoutKeyIsRedirect(key: string)
    requires Text.EndsWith(NormalizeKey(key), "LOGOUT_REDIRECT_URI")
    requires !Text.EndsWith(NormalizeKey(key), "POST_LOGOUT_REDIRECT_URI")
    ensures ResolveField(key) == Some(RedirectUri)
  {
    LogoutRule(NormalizeKey(key));
    ResolveSecondRule(key);
  }

  lemma ResolveSecondRule(key: string)
    requires FirstSuffixMatch(NormalizeKey(key), 0) == 1
    ensures ResolveField(key) == Some(RedirectUri)
  {
  }

  lemma LogoutRule(k: string)
    requires Text.EndsWith(k, "LOGOUT_REDIRECT_URI") && !Text.EndsWith(k, "POST_LOGOUT_REDIRECT_URI")
    ensures FirstSuffixMatch(k, 0) == 1
  {
    LogoutEndsRedirect(k);
    SecondRuleWins(k);
  }

  lemma LogoutEndsRedirect(k: string)
    requires Text.EndsWith(k, "LOGOUT_REDIRECT_URI")
    ensures Text.EndsWith(k, "REDIRECT_URI")
  {
    var tail := k[|k| - 19..];
    assert k[|k| - 12..] == tail[7..];
    assert tail[7..] == "REDIRECT_URI";
  }

  /** A key that misses the first suffix and ends with the second resolves
      through the second rule. */
  lemma SecondRuleWins(k: string)
    requires !Text.EndsWith(k, SuffixMap[0].suffix) && Text.EndsWith(k, SuffixMap[1].suffix)
    ensures FirstSuffixMatch(k, 0) == 1
  {
    assert FirstSuffixMatch(k, 1) == 1;
  }

  /** `FALLBACK_PREFIXES`. */
  const FallbackPrefixes: seq<string> := ["MSAL_", "REACT_APP_", "NEXT_PUBLIC_", ""]

  /** The prefix list of `getMSALEnv`: the normalized primary prefix, then the
      normalized fallbacks, each once, in order of first occurrence. */
  function PrefixList(prefix: string): seq<string> {
    var fallbacks := seq(|FallbackPrefixes|, i requires 0 <= i < |FallbackPrefixes| => NormalizeKey(FallbackPrefixes[i]));
    Seqs.FirstOccurrences([NormalizeKey(prefix)] + fallbacks)
  }

  /** The primary prefix comes first, no prefix is listed twice, and the empty
      prefix is always listed. */
  lemma PrefixListShape(prefix: string)
    ensures var ps := PrefixList(prefix);
            |ps| >= 1 && ps[0] == NormalizeKey(prefix) && Seqs.Distinct(ps) && "" in ps
  {
    var fallbacks := seq(|FallbackPrefixes|, i requires 0 <= i < |FallbackPrefixes| => NormalizeKey(FallbackPrefixes[i]));
    var all := [NormalizeKey(prefix)] + fallbacks;
    NormalizeEmpty();
    assert all[4] == "";
    FirstOccurrencesHead(all);
  }

  lemma {:induction false} FirstOccurrencesHead(s: seq<string>)
    requires s != []
    ensures Seqs.FirstOccurrences(s) != [] && Seqs.FirstOccurrences(s)[0] == s[0]
    decreases |s|
  {
    if |s| > 1 {
      var init := s[..|s| - 1];
      FirstOccurrencesHead(init);
      assert init[0] == s[0];
    }
  }

  /** `pfx ? key.startsWith(pfx) : true`. */
  predicate MatchesPrefix(key: string, pfx: string) {
    pfx != "" ==> Text.StartsWith(key, pfx)
  }

  /** Some prefix of the list matches the key. */
  predicate AnyPrefixMatches(key: string, prefixes: seq<string>) {
    exists i :: 0 <= i < |prefixes| && MatchesPrefix(key, prefixes[i])
  }

  /** `typeof rawVal === "string" ? rawVal : ""`. */
  function ValueString(v: EnvValue): string {
    if v.EnvString? then v.s else ""
  }

  /** What the loop over the prefixes does for an entry whose key resolves to
      `field`: when a prefix matches, the field is still empty and the value
      is a non-empty string, the field takes the value; otherwise nothing
      changes. */
  function EntryEffect(values: MsalValues, field: Field, key: string, rawVal: EnvValue, prefixes: seq<string>): MsalValues {
    if AnyPrefixMatches(key, prefixes) && values.Get(field) == "" && ValueString(rawVal) != "" then
      values.With(field, ValueString(rawVal))
    else values
  }

  /** One entry of the source applied to the values. */
  function ApplyEntry(values: MsalValues, e: Entry<EnvValue>, prefixes: seq<string>): MsalValues {
    var key := NormalizeKey(e.key);
    var field := ResolveField(key);
    if field.None? then values else EntryEffect(values, field.value, key, e.value, prefixes)
  }

  /** The values after `step` has been applied to the entries of `src`, in
      order, starting from `start`. */
  function FoldValues(src: Record<EnvValue>, start: MsalValues, step: (MsalValues, Entry<EnvValue>) -> MsalValues): MsalValues
    decreases |src|
  {
    if src == [] then start
    else step(FoldValues(src[..|src| - 1], start, step), src[|src| - 1])
  }

  /** `ApplyEntry` as a step function. */
  function EntryStep(prefixes: seq<string>): (MsalValues, Entry<EnvValue>) -> MsalValues {
    (values, e) => ApplyEntry(values, e, prefixes)
  }

  /** The values after the entries of `src`, in order, starting from `DEFAULTS`. */
  function Collect(src: Record<EnvValue>, prefixes: seq<string>): MsalValues {
    FoldValues(src, Defaults, EntryStep(prefixes))
  }

  lemma CollectStep(src: Record<EnvValue>, n: nat, prefixes: seq<string>)
    requires n < |src|
    ensures Collect(src[..n + 1], prefixes) == ApplyEntry(Collect(src[..n], prefixes), src[n], prefixes)
  {
    Seqs.TakeSnoc(src, n);
    assert src[..n + 1][..n] == src[..n];
  }

  /** `getMSALEnv` with an explicit environment map. */
  method GetMsalEnv(src: Record<EnvValue>, prefix: string) returns (values: MsalValues)
    ensures values == Collect(src, PrefixList(prefix))
  {
    var fallbackPrefixes := PrefixList(prefix);
    values := CollectEntries(src, fallbackPrefixes);
  }

  /** The loop of `getMSALEnv` over the entries, in order, for a given
      prefix list. */
  method CollectEntries(src: Record<EnvValue>, prefixes: seq<string>) returns (values: MsalValues)
    ensures values == Collect(src, prefixes)
  {
    values := Defaults;
    var n := 0;
    while n < |src|
      invariant 0 <= n <= |src|
      invariant values == Collect(src[..n], prefixes)
    {
      CollectStep(src, n, prefixes);
      values := VisitEntry(values, src[n].key, src[n].value, prefixes);
      n := n + 1;
    }
    assert src[..n] == src;
  }

  /** The body of the loop of `getMSALEnv` over the entries: an entry whose
      key resolves to no field is skipped. */
  method VisitEntry(values: MsalValues, rawKey: string, rawVal: EnvValue, prefixes: seq<string>)
    returns (r: MsalValues)
    ensures r == ApplyEntry(values, Entry(rawKey, rawVal), prefixes)
  {
    var key := NormalizeKey(rawKey);
    var field := ResolveField(key);
    r := values;
    if field.Some? {
      r := ScanPrefixes(values, field.value, key, rawVal, prefixes);
    }
  }

  /** The inner loop of `getMSALEnv` over the prefixes, for an entry whose
      key resolves to `field`: a prefix that does not match is skipped, a
      field that is already set stops the loop, and a non-empty string value
      is stored. */
  method ScanPrefixes(values: MsalValues, field: Field, key: string, rawVal: EnvValue, prefixes: seq<string>)
    returns (r: MsalValues)
    ensures r == EntryEffect(values, field, key, rawVal, prefixes)
  {
    r := values;
    var i := 0;
    while i < |prefixes|
      invariant 0 <= i <= |prefixes|
      invariant r == EntryEffect(values, field, key, rawVal, prefixes[..i])
    {
      var pfx := prefixes[i];
      var matchesPrefix := MatchesPrefix(key, pfx);
      if !matchesPrefix {
        MatchesSnoc(key, prefixes, i);
        i := i + 1;
        continue;
      }
      if r.Get(field) != "" {
        MatchesWithin(key, prefixes, i);
        break;
      }
      var valueString := ValueString(rawVal);
      if valueString != "" {
        r := r.With(field, valueString);
      }
      MatchesSnoc(key, prefixes, i);
      i := i + 1;
    }
    if i == |prefixes| {
      assert prefixes[..i] == prefixes;
    }
  }

  /** A match among the first `i + 1` prefixes is one among the first `i` or
      prefix `i`. */
  lemma MatchesSnoc(key: string, prefixes: seq<string>, i: nat)
    requires i < |prefixes|
    ensures AnyPrefixMatches(key, prefixes[..i + 1])
            <==> AnyPrefixMatches(key, prefixes[..i]) || MatchesPrefix(key, prefixes[i])
  {
    var a, b := prefixes[..i], prefixes[..i + 1];
    assert forall j :: 0 <= j < i ==> b[j] == a[j];
    assert b[i] == prefixes[i];
    if AnyPrefixMatches(key, b) {
      var j :| 0 <= j < |b| && MatchesPrefix(key, b[j]);
      if j < i {
        assert MatchesPrefix(key, a[j]);
      }
    }
  }

  /** A prefix that matches makes the whole list match. */
  lemma MatchesWithin(key: string, prefixes: seq<string>, i: nat)
    requires i < |prefixes| && MatchesPrefix(key, prefixes[i])
    ensures AnyPrefixMatches(key, prefixes)
    ensures AnyPrefixMatches(key, prefixes[..i]) ==> AnyPrefixMatches(key, prefixes)
  {
  }

  // ---------------------------------------------------------------------
  // What the result is: a reference definition and its consequences

  /** An entry sets field `f` when it is the first for `f`: its key resolves
      to `f` and its value is a non-empty string. */
  predicate Qualifies(e: Entry<EnvValue>, f: Field) {
    ResolveField(NormalizeKey(e.key)) == Some(f) && ValueString(e.value) != ""
  }

  /** `Qualifies` as a test on entries. */
  function Qualifying(f: Field): Entry<EnvValue> -> bool {
    e => Qualifies(e, f)
  }

  /** The string value of the first entry `q` accepts, or "". */
  function FirstOf(src: Record<EnvValue>, q: Entry<EnvValue> -> bool): string {
    var i := Seqs.FirstWhere(src, q);
    if i < |src| then ValueString(src[i].value) else ""
  }

  /** The value of the first qualifying entry for `f`, or "". */
  function FirstValue(src: Record<EnvValue>, f: Field): string {
    FirstOf(src, Qualifying(f))
  }

  /** A test that accepts only entries with a non-empty string value. */
  ghost predicate OnlyNonEmpty(q: Entry<EnvValue> -> bool) {
    forall e :: q(e) ==> ValueString(e.value) != ""
  }

  /** In a list followed by more entries, the first list decides when it has
      an accepted entry. */
  lemma FirstOfAppend(a: Record<EnvValue>, b: Record<EnvValue>, q: Entry<EnvValue> -> bool)
    requires OnlyNonEmpty(q)
    ensures FirstOf(a + b, q) == if FirstOf(a, q) != "" then FirstOf(a, q) else FirstOf(b, q)
  {
    Seqs.FirstWhereAppend(a, b, q);
    var ia, ib := Seqs.FirstWhere(a, q), Seqs.FirstWhere(b, q);
    if ia < |a| {
      assert (a + b)[ia] == a[ia];
    } else if ib < |b| {
      assert (a + b)[|a| + ib] == b[ib];
    }
  }

  /** A fold whose step sets field `f` from an accepted entry while `f` is
      still empty, and leaves it alone otherwise, ends with the value of the
      first accepted entry. */
  lemma {:induction false} FoldFirstValue(src: Record<EnvValue>, start: MsalValues,
                                          step: (MsalValues, Entry<EnvValue>) -> MsalValues,
                                          f: Field, q: Entry<EnvValue> -> bool)
    requires start.Get(f) == "" && OnlyNonEmpty(q)
    requires forall b, e :: step(b, e).Get(f) == if b.Get(f) == "" && q(e) then ValueString(e.value) else b.Get(f)
    ensures FoldValues(src, start, step).Get(f) == FirstOf(src, q)
    decreases |src|
  {
    if src != [] {
      var n := |src| - 1;
      var init, last := src[..n], src[n];
      FoldFirstValue(init, start, step, f, q);
      Seqs.TakeSnoc(src, n);
      assert src[..n + 1] == src;
      FirstOfAppend(init, [last], q);
      assert [last][0] == last;
    }
  }

  /** In a list followed by more entries, the first list decides when it has
      a qualifying entry. */
  lemma FirstValueAppend(a: Record<EnvValue>, b: Record<EnvValue>, f: Field)
    ensures FirstValue(a + b, f) == if FirstValue(a, f) != "" then FirstValue(a, f) else FirstValue(b, f)
  {
    QualifyingNonEmpty(f);
    FirstOfAppend(a, b, Qualifying(f));
  }

  lemma QualifyingNonEmpty(f: Field)
    ensures OnlyNonEmpty(Qualifying(f))
  {
  }

  /** With the empty prefix in the list, every field of the result is the
      value of the first qualifying entry, and "" when there is none; so an
      empty source gives `DEFAULTS`. */
  lemma CollectIsFirstValue(src: Record<EnvValue>, prefixes: seq<string>, f: Field)
    requires "" in prefixes
    ensures Collect(src, prefixes).Get(f) == FirstValue(src, f)
  {
    var step, q := EntryStep(prefixes), Qualifying(f);
    forall b, e ensures step(b, e).Get(f) == if b.Get(f) == "" && q(e) then ValueString(e.value) else b.Get(f) {
      ApplyEntryField(b, e, prefixes, f);
    }
    QualifyingNonEmpty(f);
    FoldFirstValue(src, Defaults, step, f, q);
  }

  /** With the empty prefix in the list, an entry sets field `f` exactly
      when the field is still empty and the entry qualifies for it. */
  lemma ApplyEntryField(before: MsalValues, e: Entry<EnvValue>, prefixes: seq<string>, f: Field)
    requires "" in prefixes
    ensures ApplyEntry(before, e, prefixes).Get(f)
            == if before.Get(f) == "" && Qualifies(e, f) then ValueString(e.value) else before.Get(f)
  {
    var key := NormalizeKey(e.key);
    var field := ResolveField(key);
    var j :| 0 <= j < |prefixes| && prefixes[j] == "";
    assert MatchesPrefix(key, prefixes[j]);
    if field.Some? {
      EffectField(before, field.value, key, e.value, prefixes, f);
    }
  }

  /** With a matching prefix, the entry's effect on field `f`. */
  lemma EffectField(before: MsalValues, field: Field, key: string, rawVal: EnvValue, prefixes: seq<string>, f: Field)
    requires AnyPrefixMatches(key, prefixes)
    ensures EntryEffect(before, field, key, rawVal, prefixes).Get(f)
            == if field == f && before.Get(f) == "" && ValueString(rawVal) != "" then ValueString(rawVal) else before.Get(f)
  {
  }

  /** `getMSALEnv` gives, field by field, the first non-empty string value
      whose key resolves to the field. */
  lemma GetMsalEnvField(src: Record<EnvValue>, prefix: string, f: Field)
    ensures Collect(src, PrefixList(prefix)).Get(f) == FirstValue(src, f)
  {
    PrefixListShape(prefix);
    CollectIsFirstValue(src, PrefixList(prefix), f);
  }

  /** The primary prefix changes nothing: every key qualifies through the
      empty prefix, so the order of the entries alone decides. */
  lemma PrefixIrrelevant(src: Record<EnvValue>, p1: string, p2: string)
    ensures Collect(src, PrefixList(p1)) == Collect(src, PrefixList(p2))
  {
    forall f ensures Collect(src, PrefixList(p1)).Get(f) == Collect(src, PrefixList(p2)).Get(f) {
      GetMsalEnvField(src, p1, f);
      GetMsalEnvField(src, p2, f);
    }
    SameFields(Collect(src, PrefixList(p1)), Collect(src, PrefixList(p2)));
  }

  /** A field, once set, is never overwritten by later entries. */
  lemma FirstWins(src: Record<EnvValue>, more: Record<EnvValue>, prefix: string, f: Field)
    requires Collect(src, PrefixList(prefix)).Get(f) != ""
    ensures Collect(src + more, PrefixList(prefix)).Get(f) == Collect(src, PrefixList(prefix)).Get(f)
  {
    GetMsalEnvField(src, prefix, f);
    GetMsalEnvField(src + more, prefix, f);
    FirstValueAppend(src, more, f);
  }

  /** A field is set exactly when some entry qualifies for it, and then it
      holds the string value of a qualifying entry. */
  lemma FirstValueSource(src: Record<EnvValue>, f: Field)
    ensures FirstValue(src, f) != "" <==> exists i :: 0 <= i < |src| && Qualifies(src[i], f)
    ensures FirstValue(src, f) != "" ==>
              exists i :: 0 <= i < |src| && Qualifies(src[i], f) && src[i].value == EnvString(FirstValue(src, f))
  {
    var q := Qualifying(f);
    var i := Seqs.FirstWhere(src, q);
    if i < |src| {
      assert q(src[i]);
    } else {
      forall j | 0 <= j < |src| ensures !Qualifies(src[j], f) {
        assert !q(src[j]);
      }
    }
  }

  /** A qualifying entry holds a string and its raw key resolves to the field. */
  lemma QualifiesResolves(e: Entry<EnvValue>, f: Field)
    requires Qualifies(e, f)
    ensures e.value.EnvString? && ResolveField(e.key) == Some(f)
  {
    ResolveFieldNormalized(e.key);
  }

  /** Every non-empty field of `getMSALEnv`'s result is the string value of
      an entry whose key resolves to that field; booleans and `undefined`
      never make it into the result. */
  lemma GetMsalEnvProvenance(src: Record<EnvValue>, prefix: string, f: Field)
    requires Collect(src, PrefixList(prefix)).Get(f) != ""
    ensures exists i :: 0 <= i < |src| && src[i].value == EnvString(Collect(src, PrefixList(prefix)).Get(f))
                        && ResolveField(src[i].key) == Some(f)
  {
    GetMsalEnvField(src, prefix, f);
    FirstValueProvenance(src, f);
  }

  /** The first value for a field is the string value of an entry whose raw
      key resolves to the field. */
  lemma FirstValueProvenance(src: Record<EnvValue>, f: Field)
    requires FirstValue(src, f) != ""
    ensures exists i :: 0 <= i < |src| && src[i].value == EnvString(FirstValue(src, f))
                        && ResolveField(src[i].key) == Some(f)
  {
    FirstValueSource(src, f);
    var i :| 0 <= i < |src| && Qualifies(src[i], f) && src[i].value == EnvString(FirstValue(src, f));
    QualifiesResolves(src[i], f);
  }
}
