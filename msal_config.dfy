/** The MSAL configuration derived from the values `getMSALEnv` collects:
    the `MsalAuthConfig` record of `createMsalConfig` (and its twin
    `buildConfigFromEnv` in the provider), the scopes of `loginRequest`, and
    the `auth` block of `buildMsalConfig`. */
module MsalConfig {
  import opened Wrappers
  import opened Records
  import Text
  import MsalEnv

  /** `MsalAuthConfig`; an `undefined` member is `None`. */
  datatype AuthConfig = AuthConfig(clientId: string, authority: string, redirectUri: Option<string>,
                                   postLogoutRedirectUri: Option<string>, scopes: Option<seq<string>>)

  /** The `auth` block of the browser configuration `buildMsalConfig` builds. */
  datatype BrowserAuth = BrowserAuth(clientId: string, authority: string, redirectUri: string,
                                     postLogoutRedirectUri: string, navigateToLoginRequestUrl: bool)

  /** The default primary prefix of `getMSALEnv`, `createMsalConfig` and
      `buildConfigFromEnv`. */
  const DefaultPrefix: string := "VITE_"

  /** `s || undefined`: the empty string is falsy. */
  function OrUndefined(s: string): Option<string> {
    if s == "" then None else Some(s)
  }

  /** The record `createMsalConfig` and `buildConfigFromEnv` build from the
      collected values: the client id and authority verbatim, each redirect
      `undefined` when it is "", and the scopes `undefined` when they are ""
      and otherwise split on single spaces. */
  function ConfigOf(values: MsalEnv.MsalValues): (c: AuthConfig)
    ensures c.clientId == values.clientId && c.authority == values.authority
    ensures c.redirectUri.None? <==> values.redirectUri == ""
    ensures c.redirectUri.Some? ==> c.redirectUri.value == values.redirectUri
    ensures c.postLogoutRedirectUri.None? <==> values.logoutRedirectUri == ""
    ensures c.postLogoutRedirectUri.Some? ==> c.postLogoutRedirectUri.value == values.logoutRedirectUri
    ensures c.scopes.None? <==> values.azureScopes == ""
    ensures c.scopes.Some? ==> Text.Join(c.scopes.value, " ") == values.azureScopes
                               && forall i :: 0 <= i < |c.scopes.value| ==> ' ' !in c.scopes.value[i]
  {
    Text.JoinSplit(values.azureScopes, ' ');
    AuthConfig(values.clientId, values.authority, OrUndefined(values.redirectUri),
               OrUndefined(values.logoutRedirectUri),
               if values.azureScopes != "" then Some(Text.Split(values.azureScopes, ' ')) else None)
  }

  /** `createMsalConfig(envSource, prefix)` with an explicit environment map. */
  function CreateMsalConfig(src: Record<MsalEnv.EnvValue>, prefix: string): AuthConfig {
    ConfigOf(MsalEnv.Collect(src, MsalEnv.PrefixList(prefix)))
  }

  /** `buildConfigFromEnv(envSource)`: `getMSALEnv` with its default prefix. */
  function BuildConfigFromEnv(src: Record<MsalEnv.EnvValue>): AuthConfig {
    ConfigOf(MsalEnv.Collect(src, MsalEnv.PrefixList(DefaultPrefix)))
  }

  /** The two builders agree, whatever prefix `createMsalConfig` is given. */
  lemma CreateIsBuildFromEnv(src: Record<MsalEnv.EnvValue>, prefix: string)
    ensures CreateMsalConfig(src, prefix) == BuildConfigFromEnv(src)
  {
    MsalEnv.PrefixIrrelevant(src, prefix, DefaultPrefix);
  }

  /** Each member of the record comes from the first qualifying entry of the
      environment for its field; a field no entry qualifies for leaves the
      redirects and the scopes `undefined` and the rest "". */
  lemma CreateMsalConfigFromSource(src: Record<MsalEnv.EnvValue>, prefix: string)
    ensures var c := CreateMsalConfig(src, prefix);
            && c.clientId == MsalEnv.FirstValue(src, MsalEnv.ClientId)
            && c.authority == MsalEnv.FirstValue(src, MsalEnv.Authority)
            && c.redirectUri == OrUndefined(MsalEnv.FirstValue(src, MsalEnv.RedirectUri))
            && c.postLogoutRedirectUri == OrUndefined(MsalEnv.FirstValue(src, MsalEnv.LogoutRedirectUri))
            && (c.scopes.None? <==> MsalEnv.FirstValue(src, MsalEnv.AzureScopes) == "")
  {
    var values := MsalEnv.Collect(src, MsalEnv.PrefixList(prefix));
    MsalEnv.GetMsalEnvField(src, prefix, MsalEnv.ClientId);
    MsalEnv.GetMsalEnvField(src, prefix, MsalEnv.Authority);
    MsalEnv.GetMsalEnvField(src, prefix, MsalEnv.RedirectUri);
    MsalEnv.GetMsalEnvField(src, prefix, MsalEnv.LogoutRedirectUri);
    MsalEnv.GetMsalEnvField(src, prefix, MsalEnv.AzureScopes);
    ConfigOfFields(values, MsalEnv.FirstValue(src, MsalEnv.ClientId), MsalEnv.FirstValue(src, MsalEnv.Authority),
                   MsalEnv.FirstValue(src, MsalEnv.RedirectUri), MsalEnv.FirstValue(src, MsalEnv.LogoutRedirectUri),
                   MsalEnv.FirstValue(src, MsalEnv.AzureScopes));
  }

  lemma ConfigOfFields(values: MsalEnv.MsalValues, clientId: string, authority: string, redirect: string,
                       logout: string, scopes: string)
    requires values.Get(MsalEnv.ClientId) == clientId && values.Get(MsalEnv.Authority) == authority
    requires values.Get(MsalEnv.RedirectUri) == redirect && values.Get(MsalEnv.LogoutRedirectUri) == logout
    requires values.Get(MsalEnv.AzureScopes) == scopes
    ensures var c := ConfigOf(values);
            && c.clientId == clientId && c.authority == authority
            && c.redirectUri == OrUndefined(redirect) && c.postLogoutRedirectUri == OrUndefined(logout)
            && (c.scopes.None? <==> scopes == "")
  {
  }

  /** An empty environment gives only the empty client id and authority. */
  lemma EmptySourceConfig(prefix: string)
    ensures CreateMsalConfig([], prefix) == AuthConfig("", "", None, None, None)
  {
    var values := MsalEnv.Collect([], MsalEnv.PrefixList(prefix));
    assert values == MsalEnv.Defaults;
  }

  /** `loginRequest(envSource, prefix).scopes`: the scopes split on single
      spaces, with no `undefined` case, so an empty value gives `[""]` and the
      `?? []` never applies. */
  function LoginRequest(src: Record<MsalEnv.EnvValue>, prefix: string): (scopes: seq<string>)
    ensures |scopes| >= 1
    ensures Text.Join(scopes, " ") == MsalEnv.Collect(src, MsalEnv.PrefixList(prefix)).azureScopes
    ensures MsalEnv.Collect(src, MsalEnv.PrefixList(prefix)).azureScopes == "" ==> scopes == [""]
  {
    var values := MsalEnv.Collect(src, MsalEnv.PrefixList(prefix));
    Text.JoinSplit(values.azureScopes, ' ');
    Text.Split(values.azureScopes, ' ')
  }

  /** Where the config has scopes, the login request asks for the same ones. */
  lemma LoginRequestMatchesConfig(src: Record<MsalEnv.EnvValue>, prefix: string)
    requires CreateMsalConfig(src, prefix).scopes.Some?
    ensures LoginRequest(src, prefix) == CreateMsalConfig(src, prefix).scopes.value
  {
  }

  /** `v ?? fallback`. */
  function Nullish(v: Option<string>, fallback: string): string {
    if v.Some? then v.value else fallback
  }

  /** The `auth` block of `buildMsalConfig`. Every member of the collected
      values is a string, never `null` or `undefined`, so each `??` keeps
      the value and `window.location.origin` (here `origin`) is never used. */
  function BuildAuth(values: MsalEnv.MsalValues, origin: string): (a: BrowserAuth)
    ensures a.clientId == values.clientId && a.authority == values.authority
    ensures a.redirectUri == values.redirectUri && a.postLogoutRedirectUri == values.logoutRedirectUri
    ensures a.navigateToLoginRequestUrl
  {
    BrowserAuth(Nullish(Some(values.clientId), ""), Nullish(Some(values.authority), ""),
                Nullish(Some(values.redirectUri), origin), Nullish(Some(values.logoutRedirectUri), origin),
                true)
  }

  /** The origin never shows through; an unset redirect stays "". */
  lemma BuildAuthIgnoresOrigin(src: Record<MsalEnv.EnvValue>, prefix: string, o1: string, o2: string)
    ensures var values := MsalEnv.Collect(src, MsalEnv.PrefixList(prefix));
            BuildAuth(values, o1) == BuildAuth(values, o2)
    ensures (MsalEnv.FirstValue(src, MsalEnv.RedirectUri) == "")
              ==> BuildAuth(MsalEnv.Collect(src, MsalEnv.PrefixList(prefix)), o1).redirectUri == ""
  {
    var values := MsalEnv.Collect(src, MsalEnv.PrefixList(prefix));
    MsalEnv.GetMsalEnvField(src, prefix, MsalEnv.RedirectUri);
    AuthOfValues(values, o1, o2);
  }

  /** Whatever the origin, the `auth` block is the same. */
  lemma AuthOfValues(values: MsalEnv.MsalValues, o1: string, o2: string)
    ensures BuildAuth(values, o1) == BuildAuth(values, o2)
    ensures values.Get(MsalEnv.RedirectUri) == "" ==> BuildAuth(values, o1).redirectUri == ""
  {
  }
}
