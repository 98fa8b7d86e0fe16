/**
 * The field checks of loadConfig on the configuration Decode has just
 * written into the global `config`: the API key is required, the port and
 * the upstream base URL have defaults.
 */
module ProxyConfig {
  import opened Wrappers

  /** The three fields of the Config struct. */
  datatype Settings = Settings(apiKey: string, proxyPort: string, targetBaseURL: string)

  datatype ConfigError = MissingApiKey

  const DefaultProxyPort := "12000"
  const DefaultTargetBaseURL := "https://api.deepseek.com"

  /** The outcome of the checks on a decoded configuration. */
  function Validated(s: Settings): (r: Result<Settings, ConfigError>)
    ensures r.Failure? <==> s.apiKey == ""
    ensures r.Success? ==> r.value.apiKey == s.apiKey
    ensures r.Success? ==> r.value.proxyPort != "" && r.value.targetBaseURL != ""
    ensures r.Success? && s.proxyPort != "" ==> r.value.proxyPort == s.proxyPort
    ensures r.Success? && s.proxyPort == "" ==> r.value.proxyPort == DefaultProxyPort
    ensures r.Success? && s.targetBaseURL != "" ==> r.value.targetBaseURL == s.targetBaseURL
    ensures r.Success? && s.targetBaseURL == "" ==> r.value.targetBaseURL == DefaultTargetBaseURL
  {
    if s.apiKey == "" then Failure(MissingApiKey)
    else
      var port := if s.proxyPort == "" then DefaultProxyPort else s.proxyPort;
      var target := if s.targetBaseURL == "" then DefaultTargetBaseURL else s.targetBaseURL;
      Success(Settings(s.apiKey, port, target))
  }

  /** A configuration that passed the checks passes them again unchanged. */
  lemma ValidatedIdempotent(s: Settings)
    requires Validated(s).Success?
    ensures Validated(Validated(s).value) == Validated(s)
  {
  }

  /** The global `config`, as Decode left it. */
  class Config {
    var apiKey: string
    var proxyPort: string
    var targetBaseURL: string

    function Current(): Settings
      reads this
    {
      Settings(apiKey, proxyPort, targetBaseURL)
    }

    /** Go's zero value: every field empty. */
    constructor ()
      ensures Current() == Settings("", "", "")
    {
      apiKey, proxyPort, targetBaseURL := "", "", "";
    }

    /**
     * main.go:46-56. A missing API key is reported before any default is
     * written, so on that error the fields stay as they were decoded.
     */
    method Validate() returns (err: Option<ConfigError>)
      modifies this
      ensures err.Some? <==> old(apiKey) == ""
      ensures err.Some? ==> Current() == old(Current())
      ensures err.None? ==> Validated(old(Current())) == Success(Current())
    {
      if apiKey == "" {
        return Some(MissingApiKey);
      }
      if proxyPort == "" {
        proxyPort := DefaultProxyPort;
      }
      if targetBaseURL == "" {
        targetBaseURL := DefaultTargetBaseURL;
      }
      return None;
    }
  }
}
