/**
 * How the database client is configured from the environment: which
 * connection URL is used, when configuration fails, and which TLS mode the
 * client is given. Environment variables are `Option<string>`: `None` is an
 * unset variable, `Some("")` one set to the empty string.
 */
module DbConfig {
  import opened Wrappers
  import Text

  datatype Env = Env(postgresUrl: Option<string>, databaseUrl: Option<string>, postgresSsl: Option<string>)

  /** The `ssl` value: `'require'`, `false`, or left undefined. */
  datatype SslMode = Require | Disabled | Unset

  /** The options object handed to the Postgres client. */
  datatype ClientOptions = ClientOptions(
    url: string,
    connectTimeout: nat,
    max: nat,
    idleTimeout: nat,
    maxLifetime: nat,
    ssl: Option<SslMode>)

  const MissingUrlMessage := "POSTGRES_URL (or DATABASE_URL) environment variable is not set"

  /** `??`: the first variable whenever it is set, even to the empty string. */
  function PickUrl(env: Env): (u: Option<string>)
    ensures env.postgresUrl.Some? ==> u == env.postgresUrl
    ensures env.postgresUrl.None? ==> u == env.databaseUrl
  {
    if env.postgresUrl.Some? then env.postgresUrl else env.databaseUrl
  }

  /** Hosts that are known to demand TLS, matched anywhere in the URL ignoring case. */
  predicate LooksHosted(url: string) {
    Text.ContainsIgnoringCase(url, "supabase.com") || Text.ContainsIgnoringCase(url, "pooler")
  }

  /**
   * The TLS mode: an explicit `POSTGRES_SSL` of `require` or `disable` (any
   * letter case) decides; otherwise hosted-provider URLs get `require` and
   * everything else is left to the driver.
   */
  function SslFor(url: string, postgresSsl: Option<string>): (m: SslMode)
    ensures postgresSsl.Some? && Text.Lower(postgresSsl.value) == "require" ==> m == Require
    ensures postgresSsl.Some? && Text.Lower(postgresSsl.value) == "disable" ==> m == Disabled
    ensures m == Disabled <==> postgresSsl.Some? && Text.Lower(postgresSsl.value) == "disable"
    ensures m == Unset <==>
      !LooksHosted(url)
      && (postgresSsl.None? || (Text.Lower(postgresSsl.value) != "require" && Text.Lower(postgresSsl.value) != "disable"))
  {
    var setting := if postgresSsl.Some? then Some(Text.Lower(postgresSsl.value)) else None;
    if setting == Some("require") then Require
    else if setting == Some("disable") then Disabled
    else if LooksHosted(url) then Require
    else Unset
  }

  /**
   * Module initialisation: the client options, or the error thrown when no
   * usable URL is configured. The `ssl` key is present only when a mode was
   * chosen.
   */
  function Configure(env: Env): (r: Result<ClientOptions, string>)
    ensures r.Failure? <==> PickUrl(env).None? || PickUrl(env).value == ""
    ensures r.Failure? ==> r.error == MissingUrlMessage
    ensures r.Success? ==> r.value.url == PickUrl(env).value && r.value.url != ""
    ensures r.Success? ==> (r.value.ssl.None? <==> SslFor(r.value.url, env.postgresSsl) == Unset)
    ensures r.Success? && r.value.ssl.Some? ==> r.value.ssl.value == SslFor(r.value.url, env.postgresSsl)
    ensures r.Success? ==> r.value.maxLifetime == 30 * 60 && r.value.max == 10
  {
    var url := PickUrl(env);
    if url.None? || url.value == "" then Failure(MissingUrlMessage)
    else
      var mode := SslFor(url.value, env.postgresSsl);
      Success(ClientOptions(
        url.value,
        connectTimeout := 30,
        max := 10,
        idleTimeout := 30,
        maxLifetime := 60 * 30,
        ssl := if mode == Unset then None else Some(mode)))
  }

  // ---------------------------------------------------------------------------
  // Properties
  // ---------------------------------------------------------------------------

  /** An empty `POSTGRES_URL` hides `DATABASE_URL` instead of falling back to it. */
  lemma EmptyPostgresUrlIsAnError(databaseUrl: Option<string>, postgresSsl: Option<string>)
    ensures Configure(Env(Some(""), databaseUrl, postgresSsl)) == Failure(MissingUrlMessage)
  {
  }

  /** With `POSTGRES_URL` unset, a non-empty `DATABASE_URL` is the URL used. */
  lemma FallsBackToDatabaseUrl(databaseUrl: string, postgresSsl: Option<string>)
    requires databaseUrl != ""
    ensures var r := Configure(Env(None, Some(databaseUrl), postgresSsl));
      r.Success? && r.value.url == databaseUrl
  {
  }

  /** `disable` turns TLS off even for a hosted provider's URL. */
  lemma DisableWinsOverHostedUrl(url: string, setting: string)
    requires url != "" && Text.Lower(setting) == "disable"
    ensures var r := Configure(Env(Some(url), None, Some(setting)));
      r.Success? && r.value.ssl == Some(Disabled)
  {
  }

  /** A URL naming `supabase.com` in any letter case gets `require` when nothing is configured. */
  lemma HostedUrlGetsTls(prefix: string, suffix: string)
    ensures var url := prefix + "SupaBase.COM" + suffix;
      SslFor(url, None) == Require
  {
    var url := prefix + "SupaBase.COM" + suffix;
    assert url[|prefix|..|prefix| + 12] == "SupaBase.COM";
    assert Text.MatchesAt(url, "supabase.com", |prefix|);
  }

  /** The setting is compared after lower-casing, so `REQUIRE` counts. */
  lemma UpperCaseRequire(url: string)
    ensures SslFor(url, Some("REQUIRE")) == Require
  {
    assert Text.Lower("REQUIRE") == "require";
  }

  /** A plain local URL with no setting leaves the `ssl` key out of the options. */
  lemma LocalUrlOmitsSsl()
    ensures var r := Configure(Env(Some("postgres://db"), None, None));
      r.Success? && r.value.ssl.None?
  {
    var url := "postgres://db";
    assert !LooksHosted(url) by {
      forall i | 0 <= i <= |url| ensures !Text.MatchesAt(url, "pooler", i) && !Text.MatchesAt(url, "supabase.com", i) {
        if i + 6 <= |url| {
          var piece := Text.Lower(url[i..i + 6]);
          assert piece[0] == Text.LowerChar(url[i]) && piece[2] == Text.LowerChar(url[i + 2]);
          assert piece != "pooler";
        }
        if i + 12 <= |url| {
          var piece := Text.Lower(url[i..i + 12]);
          assert piece[0] == Text.LowerChar(url[i]);
          assert piece != "supabase.com";
        }
      }
    }
  }
}
