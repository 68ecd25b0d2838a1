/** LoginScreen: signing in with an email and a password. */
module LoginScreen {
  import opened Wrappers
  import opened ApiClient
  import AuthContext

  const MissingFields: Effect := Alert("Error", "Please enter both email and password.")
  const InvalidResponse: Effect := Alert("Login Failed", "Received an invalid response from the server.")
  const InvalidCredentials: Effect := Alert("Login Failed", "Invalid email or password. Please try again.")

  /** What one press of the button leads to: the requests, the alerts, and the token signed in with. */
  datatype LoginFlow = LoginFlow(calls: seq<ApiCall>, effects: seq<Effect>, signIn: Option<string>)

  /** handleLogin's decisions, given how the login request settles. */
  function LoginFlowOf(email: string, password: string, response: Response<Option<string>>): LoginFlow
  {
    if email == "" || password == "" then LoginFlow([], [MissingFields], None)
    else
      match response
      case Answer(token) =>
        if TruthyOpt(token) then LoginFlow([LoginCall(email, password)], [], Some(token.value))
        else LoginFlow([LoginCall(email, password)], [InvalidResponse], None)
      case Failed(_) => LoginFlow([LoginCall(email, password)], [InvalidCredentials], None)
  }

  /**
   * An empty field sends nothing; a token in the answer signs in with exactly that token and
   * nothing else; every other outcome shows one alert and does not sign in, and a refused request
   * shows the same alert whatever the server said.
   */
  lemma LoginFlowFacts(email: string, password: string, response: Response<Option<string>>)
    ensures var f := LoginFlowOf(email, password, response);
      && (f.calls == [] <==> email == "" || password == "")
      && (f.calls != [] ==> f.calls == [LoginCall(email, password)])
      && (f.signIn.Some? <==> f.calls != [] && response.Answer? && TruthyOpt(response.data))
      && (f.signIn.Some? ==> Some(f.signIn.value) == response.data && Truthy(f.signIn.value) && f.effects == [])
      && (f.signIn.None? ==> |f.effects| == 1)
      && (f.calls != [] && response.Failed? ==> f.effects == [InvalidCredentials])
  {
  }

  class State {
    var email: string
    var password: string
    var loading: bool
    var requests: seq<Request>
    var effects: seq<Effect>

    constructor()
      ensures email == "" && password == "" && !loading && requests == [] && effects == []
    {
      email := "";
      password := "";
      loading := false;
      requests := [];
      effects := [];
    }

    /** handleLogin: the request goes out while loading; a token is handed to the context's login. */
    method HandleLogin(auth: AuthContext.Context, response: Response<Option<string>>)
      modifies this, auth
      ensures var f := LoginFlowOf(email, password, response);
        && requests == old(requests) + WhileBusy(f.calls)
        && effects == old(effects) + f.effects
        && (f.signIn.Some? ==>
              && auth.steps == old(auth.steps) + AuthContext.LoginSteps(Some(f.signIn.value))
              && auth.userToken == Some(f.signIn.value)
              && auth.storage == AuthContext.StoreToken(old(auth.storage), Some(f.signIn.value)))
        && (f.signIn.None? ==> unchanged(auth))
      ensures email == old(email) && password == old(password)
      ensures LoginFlowOf(email, password, response).calls == [] ==> loading == old(loading)
      ensures LoginFlowOf(email, password, response).calls != [] ==> !loading
    {
      if email == "" || password == "" {
        effects := effects + [MissingFields];
        return;
      }
      loading := true;
      requests := requests + [Request(LoginCall(email, password), loading)];
      match response {
        case Answer(token) =>
          if TruthyOpt(token) {
            auth.Login(token);
          } else {
            effects := effects + [InvalidResponse];
          }
        case Failed(_) =>
          effects := effects + [InvalidCredentials];
      }
      loading := false;
    }
  }
}
