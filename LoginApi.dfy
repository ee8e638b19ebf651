/** The simulated sign-in service (src/api/loginApi.ts). The random number
    generator, the URL query string and the timer are inputs here: `param` is
    the value of the `scenario` query parameter, and each `Math.random()` draw
    is a real number in [0, 1). */
module LoginApi {
  import opened Wrappers
  import opened Text

  const ValidEmail: string := "abdulrasaq@evilmartians.com"
  const ValidPassword: string := "password123"

  datatype Scenario = Success | Invalid | Rate | Network

  /** The scenarios a `LoginError` may carry: all but `Success`. */
  type FailureCode = s: Scenario | !s.Success? witness Invalid

  datatype Credentials = Credentials(email: string, password: string)

  /** The resolved value `{ success: true }`. */
  datatype LoginResult = LoginResult(success: bool)

  /** A `LoginError`; its `name` is always "LoginError". */
  datatype LoginError = LoginError(code: FailureCode, message: string) {
    function Name(): string { "LoginError" }
  }

  const MinDelay: int := 900
  const MaxDelay: int := 1400

  /** `scenarioMessages`: the fixed text for each failure. */
  function ScenarioMessage(code: FailureCode): (m: string)
    ensures m != ""
  {
    match code
    case Invalid => "Email or password is incorrect."
    case Rate => "Too many attempts. Try again in a few minutes."
    case Network => "You appear to be offline. Check your connection and try again."
  }

  /** The spelling of a scenario in the query string. */
  function ScenarioName(s: Scenario): string {
    match s
    case Success => "success"
    case Invalid => "invalid"
    case Rate => "rate"
    case Network => "network"
  }

  const ScenarioParamMap: map<string, Scenario> :=
    map["success" := Success, "invalid" := Invalid, "rate" := Rate, "network" := Network]

  /** `getScenarioFromSearch`: a missing or empty parameter forces nothing;
      otherwise the parameter is looked up in `scenarioParamMap`. */
  function ScenarioFromSearch(param: Option<string>): (r: Option<Scenario>)
    ensures r.Some? <==> param.Some? && param.value in {"success", "invalid", "rate", "network"}
    ensures r.Some? ==> ScenarioName(r.value) == param.value
  {
    if param.None? || param.value == "" then None
    else if param.value in ScenarioParamMap then Some(ScenarioParamMap[param.value])
    else None
  }

  /** Every scenario can be forced by writing its name in the query string. */
  lemma ForcingByName(s: Scenario)
    ensures ScenarioFromSearch(Some(ScenarioName(s))) == Some(s)
  {
  }

  const RandomOutcomes: seq<Scenario> := [Success, Success, Success, Invalid, Rate, Network]

  /** `Math.floor(Math.random() * n)` for a draw `u` in [0, 1). */
  function RandomIndex(u: real, n: nat): (k: nat)
    requires 0.0 <= u < 1.0 && n > 0
    ensures k < n
  {
    var x := u * n as real;
    assert 0.0 <= x < n as real;
    x.Floor
  }

  /** `pickRandomScenario`. */
  function PickRandomScenario(u: real): (s: Scenario)
    requires 0.0 <= u < 1.0
    ensures s in RandomOutcomes
  {
    RandomOutcomes[RandomIndex(u, |RandomOutcomes|)]
  }

  /** The pool weighs success three to one against each failure. */
  lemma RandomPoolWeights()
    ensures |RandomOutcomes| == 6
    ensures multiset(RandomOutcomes) == multiset{Success, Success, Success, Invalid, Rate, Network}
  {
  }

  /** The simulated latency before the outcome is delivered. */
  function LoginDelay(u: real): (ms: int)
    requires 0.0 <= u < 1.0
    ensures MinDelay <= ms <= MaxDelay
  {
    RandomIndex(u, MaxDelay - MinDelay + 1) + MinDelay
  }

  /** `credentialsMatch`: e-mail compared after trimming and lower-casing,
      password compared exactly. */
  predicate CredentialsMatch(c: Credentials): (r: bool)
    ensures r ==> c.password == ValidPassword && |Trim(c.email)| == |ValidEmail|
  {
    Lower(Trim(c.email)) == ValidEmail && c.password == ValidPassword
  }

  /** The decision at the end of `login`, once the scenario is known. */
  function Decide(scenario: Scenario, c: Credentials): (r: Result<LoginResult, LoginError>)
    ensures r.Ok? <==> scenario == Success && CredentialsMatch(c)
    ensures r.Ok? ==> r.value.success
    ensures r.Err? ==> r.error.message == ScenarioMessage(r.error.code)
    ensures r.Err? ==> r.error.code == if scenario.Success? then Invalid else scenario
  {
    if scenario == Network then Err(LoginError(Network, ScenarioMessage(Network)))
    else if scenario == Rate then Err(LoginError(Rate, ScenarioMessage(Rate)))
    else if scenario == Success && CredentialsMatch(c) then Ok(LoginResult(true))
    else Err(LoginError(Invalid, ScenarioMessage(Invalid)))
  }

  /** What one call of `login` produces: how long it waits, then its outcome. */
  datatype Attempt = Attempt(delay: int, outcome: Result<LoginResult, LoginError>)

  /** The scenario `login` acts on: the forced one, else a random draw. */
  function ChosenScenario(param: Option<string>, scenarioDraw: real): (s: Scenario)
    requires 0.0 <= scenarioDraw < 1.0
    ensures param.Some? && param.value in {"success", "invalid", "rate", "network"} ==>
              ScenarioName(s) == param.value
    ensures !(param.Some? && param.value in {"success", "invalid", "rate", "network"}) ==>
              s == PickRandomScenario(scenarioDraw)
  {
    match ScenarioFromSearch(param)
    case Some(s) => s
    case None => PickRandomScenario(scenarioDraw)
  }

  /** `login`: the delay draw comes first, the scenario draw is used only
      when no scenario is forced. */
  function Login(param: Option<string>, delayDraw: real, scenarioDraw: real, c: Credentials): (a: Attempt)
    requires 0.0 <= delayDraw < 1.0 && 0.0 <= scenarioDraw < 1.0
    ensures MinDelay <= a.delay <= MaxDelay
    ensures a.outcome.Ok? <==> ChosenScenario(param, scenarioDraw) == Success && CredentialsMatch(c)
  {
    Attempt(LoginDelay(delayDraw), Decide(ChosenScenario(param, scenarioDraw), c))
  }

  /** `?scenario=network` fails with the offline message whatever the credentials. */
  lemma ForcedNetworkFails(d: real, u: real, c: Credentials)
    requires 0.0 <= d < 1.0 && 0.0 <= u < 1.0
    ensures Login(Some("network"), d, u, c).outcome == Err(LoginError(Network, ScenarioMessage(Network)))
  {
  }

  /** `?scenario=rate` fails with the throttling message whatever the credentials. */
  lemma ForcedRateFails(d: real, u: real, c: Credentials)
    requires 0.0 <= d < 1.0 && 0.0 <= u < 1.0
    ensures Login(Some("rate"), d, u, c).outcome == Err(LoginError(Rate, ScenarioMessage(Rate)))
  {
  }

  /** `?scenario=invalid` fails even for the valid credentials. */
  lemma ForcedInvalidFails(d: real, u: real, c: Credentials)
    requires 0.0 <= d < 1.0 && 0.0 <= u < 1.0
    ensures Login(Some("invalid"), d, u, c).outcome == Err(LoginError(Invalid, ScenarioMessage(Invalid)))
  {
  }

  /** `?scenario=success` succeeds exactly for the valid pair, and otherwise
      reports invalid credentials. */
  lemma ForcedSuccess(d: real, u: real, c: Credentials)
    requires 0.0 <= d < 1.0 && 0.0 <= u < 1.0
    ensures Login(Some("success"), d, u, c).outcome ==
              if CredentialsMatch(c) then Ok(LoginResult(true))
              else Err(LoginError(Invalid, ScenarioMessage(Invalid)))
  {
  }

  /** The valid pair is accepted with any surrounding white space and any
      capitalisation of the e-mail address. */
  lemma ValidPairMatches(before: string, email: string, after: string)
    requires AllSpace(before) && AllSpace(after)
    requires Lower(email) == ValidEmail
    ensures CredentialsMatch(Credentials(before + email + after, ValidPassword))
  {
    assert LowerChar(email[0]) == 'a' && LowerChar(email[|email| - 1]) == 'm';
    TrimOfPadded(before, email, after);
  }
}
