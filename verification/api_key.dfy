/** Choosing the API key (`main`, checkOpenAiApiKey.py line 263) and its
    syntactic validation (`validateApiKey`). The script's `sys.exit(1)` paths
    become values of `KeyCheck`. */
module ApiKey {
  import opened Wrappers
  import opened Text

  /** The prefix every accepted key starts with: three characters. */
  const KeyPrefix: string := "sk-"

  /** The `API_KEY` constant as the script ships it. */
  const ShippedApiKey: string := "your-api-key"

  /** How `validateApiKey` ends: exit with "No API key provided.", exit with
      "Invalid API key.", or return after "API key validation successful.". */
  datatype KeyCheck = NoKey | InvalidKey | ValidKey

  /** The line `validateApiKey` prints for each outcome. */
  function Message(c: KeyCheck): string {
    match c
    case NoKey => "No API key provided."
    case InvalidKey => "Invalid API key."
    case ValidKey => "API key validation successful."
  }

  /** The three printed lines tell the outcomes apart. */
  lemma MessagesDistinct(c1: KeyCheck, c2: KeyCheck)
    ensures Message(c1) == Message(c2) <==> c1 == c2
  {
    if c1 != c2 {
      assert Message(c1)[0] != Message(c2)[0];
    }
  }

  /** `validateApiKey(apiKey)`: `None` and `""` are both falsy in Python, so
      the emptiness test comes first; then the prefix test. */
  function Validate(key: Option<string>): (r: KeyCheck)
    ensures r == NoKey <==> key == None || key == Some("")
    ensures r == ValidKey <==>
              && key.Some?
              && |key.value| >= 3
              && key.value[0] == 's' && key.value[1] == 'k' && key.value[2] == '-'
    ensures r == InvalidKey <==>
              && key.Some?
              && key.value != ""
              && !(|key.value| >= 3 && key.value[..3] == "sk-")
  {
    match key
    case None => NoKey
    case Some(k) =>
      if k == "" then NoKey
      else if !StartsWith(k, KeyPrefix) then InvalidKey
      else ValidKey
  }

  /** The key-selection expression of `main`:
      `sys.argv[1] if len(sys.argv) > 1 else API_KEY if API_KEY else os.getenv(...)`.
      `argv` is the whole of `sys.argv` (program name first), `configured` the
      `API_KEY` constant and `env` the value of `OPENAI_API_KEY`, if set. */
  function Resolve(argv: seq<string>, configured: string, env: Option<string>): (r: Option<string>)
    ensures r == env || r == Some(configured) || (|argv| > 1 && r == Some(argv[1]))
    ensures |argv| > 1 ==> r == Some(argv[1])
    ensures |argv| <= 1 && configured != "" ==> r == Some(configured)
    ensures |argv| <= 1 && configured == "" ==> r == env
  {
    if |argv| > 1 then Some(argv[1])
    else if configured != "" then Some(configured)
    else env
  }

  /** A command-line argument wins, even an empty one, and then validation
      reports a missing key whatever the constant and the environment hold. */
  lemma ArgumentTakesPriority(argv: seq<string>, configured: string, env: Option<string>)
    requires |argv| > 1
    ensures Resolve(argv, configured, env) == Some(argv[1])
    ensures argv[1] == "" ==> Validate(Resolve(argv, configured, env)) == NoKey
  {
  }

  /** Without an argument, a non-empty constant hides the environment. */
  lemma ConstantBeforeEnvironment(argv: seq<string>, configured: string, env1: Option<string>, env2: Option<string>)
    requires |argv| <= 1 && configured != ""
    ensures Resolve(argv, configured, env1) == Resolve(argv, configured, env2) == Some(configured)
  {
  }

  /** The environment is consulted only when there is no argument and the
      constant is empty; an unset variable then means "no key". */
  lemma EnvironmentLast(argv: seq<string>, env: Option<string>)
    requires |argv| <= 1
    ensures Resolve(argv, "", env) == env
    ensures env == None ==> Validate(Resolve(argv, "", env)) == NoKey
  {
  }

  /** As shipped, the constant "your-api-key" is non-empty and lacks the
      prefix, so a run without an argument is rejected as an invalid key,
      whatever `OPENAI_API_KEY` holds. */
  lemma ShippedConstantRejected(argv: seq<string>, env: Option<string>)
    requires |argv| <= 1
    ensures Validate(Resolve(argv, ShippedApiKey, env)) == InvalidKey
  {
    assert ShippedApiKey[0] == 'y';
  }

  /** Accepted keys are exactly the non-empty ones starting with "sk-"; the
      emptiness test takes precedence, so no key is ever both. */
  lemma ValidIffPrefixed(k: string)
    ensures Validate(Some(k)) == ValidKey <==> StartsWith(k, KeyPrefix)
    ensures Validate(Some(k)) == InvalidKey <==> k != "" && !StartsWith(k, KeyPrefix)
  {
    if |k| >= 3 {
      assert k[..3] == "sk-" <==> k[0] == 's' && k[1] == 'k' && k[2] == '-';
    }
  }
}
