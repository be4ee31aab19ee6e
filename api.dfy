/** The fixed parts of the Strava OAuth endpoints and forms that both programs hardcode. */
module StravaApi {

  /** The authorization endpoint; both programs hardcode the production host. */
  const AUTHORIZE_URL := "https://www.strava.com/oauth/authorize"

  /** The permissions both programs ask for. */
  const SCOPE := "read,activity:read,activity:write"

  /** The token endpoint the Python script posts to. */
  const TOKEN_URL := "https://www.strava.com/oauth/token"

  /** The scope holds no query delimiter, so it can stand unencoded as a query value. */
  lemma ScopeHasNoAmpersand()
    ensures '&' !in SCOPE
  {
  }

  lemma ScopeHasNoEquals()
    ensures '=' !in SCOPE
  {
  }

  /** The keys of the token forms are pairwise distinct. */
  lemma FormKeysDistinct()
    ensures "client_secret" != "client_id"
    ensures "code" != "client_id" && "code" != "client_secret"
    ensures "refresh_token" != "client_id" && "refresh_token" != "client_secret"
    ensures "grant_type" != "client_id" && "grant_type" != "client_secret"
    ensures "grant_type" != "code" && "grant_type" != "refresh_token"
  {
    assert "refresh_token"[0] != "client_secret"[0];
  }
}
