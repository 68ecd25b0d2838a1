/** RegisterScreen: self-registration, followed by signing in with the same credentials. */
module RegisterScreen {
  import opened Wrappers
  import opened ApiClient
  import AuthContext

  const FillAllFields: string := "Please fill all fields."
  const PasswordsDiffer: string := "Passwords do not match."
  const Registered: Effect := Alert("Success", "Registration successful! Logging you in...")
  const RegisterFallback: string := "An error occurred. Please try again."

  /** The form's guards, in order: every field filled, then the two passwords equal. */
  function FieldsError(name: string, email: string, phone: string, password: string, confirm: string): (e: Option<string>)
    ensures e == Some(FillAllFields) <==> name == "" || email == "" || phone == "" || password == "" || confirm == ""
    ensures e == Some(PasswordsDiffer) <==>
      name != "" && email != "" && phone != "" && password != "" && confirm != "" && password != confirm
    ensures e.None? <==> name != "" && email != "" && phone != "" && password != "" && password == confirm
  {
    if name == "" || email == "" || phone == "" || password == "" || confirm == "" then Some(FillAllFields)
    else if password != confirm then Some(PasswordsDiffer)
    else None
  }

  /** What one press of the button leads to: the requests, the alerts, and the token signed in with. */
  datatype RegisterFlow = RegisterFlow(calls: seq<ApiCall>, effects: seq<Effect>, signIn: Option<string>)

  /** handleRegister's decisions, given how the register and the login requests settle. */
  function RegisterFlowOf(name: string, email: string, phone: string, password: string, confirm: string,
                          registered: Response<()>, loggedIn: Response<Option<string>>): RegisterFlow
  {
    match FieldsError(name, email, phone, password, confirm)
    case Some(e) => RegisterFlow([], [Alert("Error", e)], None)
    case None =>
      match registered
      case Failed(serverError) =>
        RegisterFlow([RegisterCall(name, email, phone, password)],
                     [Alert("Registration Failed", ErrorText(serverError, RegisterFallback))], None)
      case Answer(_) =>
        var calls := [RegisterCall(name, email, phone, password), LoginCall(email, password)];
        match loggedIn
        case Failed(serverError) =>
          RegisterFlow(calls, [Registered, Alert("Registration Failed", ErrorText(serverError, RegisterFallback))], None)
        case Answer(token) =>
          if TruthyOpt(token) then RegisterFlow(calls, [Registered], Some(token.value))
          else RegisterFlow(calls, [Registered], None)
  }

  /**
   * A rejected form sends nothing; a login request follows only an accepted registration and
   * uses the same email and password; the member is signed in only with a token from that login;
   * and a login answer without a token ends silently after the success alert.
   */
  lemma RegisterFlowFacts(name: string, email: string, phone: string, password: string, confirm: string,
                          registered: Response<()>, loggedIn: Response<Option<string>>)
    ensures var f := RegisterFlowOf(name, email, phone, password, confirm, registered, loggedIn);
      && (f.calls == [] <==> FieldsError(name, email, phone, password, confirm).Some?)
      && (f.calls != [] ==> f.calls[0] == RegisterCall(name, email, phone, password))
      && (LoginCall(email, password) in f.calls <==> f.calls != [] && registered.Answer?)
      && (|f.calls| <= 1 ==> f.signIn.None?)
      && (f.signIn.Some? <==> f.calls != [] && registered.Answer? && loggedIn.Answer? && TruthyOpt(loggedIn.data))
      && (f.signIn.Some? ==> Some(f.signIn.value) == loggedIn.data)
      && (f.calls != [] && registered.Answer? && loggedIn.Answer? && !TruthyOpt(loggedIn.data) ==> f.effects == [Registered])
  {
  }

  class State {
    var name: string
    var email: string
    var phone: string
    var password: string
    var confirmPassword: string
    var loading: bool
    var requests: seq<Request>
    var effects: seq<Effect>

    constructor()
      ensures name == "" && email == "" && phone == "" && password == "" && confirmPassword == ""
      ensures !loading && requests == [] && effects == []
    {
      name, email, phone, password, confirmPassword := "", "", "", "", "";
      loading := false;
      requests := [];
      effects := [];
    }

    /** handleRegister: register, then log in, then hand the token to the context's login. */
    method HandleRegister(auth: AuthContext.Context, registered: Response<()>, loggedIn: Response<Option<string>>)
      modifies this, auth
      ensures var f := RegisterFlowOf(name, email, phone, password, confirmPassword, registered, loggedIn);
        && requests == old(requests) + WhileBusy(f.calls)
        && effects == old(effects) + f.effects
        && (f.signIn.Some? ==>
              && auth.steps == old(auth.steps) + AuthContext.LoginSteps(Some(f.signIn.value))
              && auth.userToken == Some(f.signIn.value)
              && auth.storage == AuthContext.StoreToken(old(auth.storage), Some(f.signIn.value)))
        && (f.signIn.None? ==> unchanged(auth))
        && (f.calls == [] ==> loading == old(loading))
        && (f.calls != [] ==> !loading)
      ensures name == old(name) && email == old(email) && phone == old(phone)
      ensures password == old(password) && confirmPassword == old(confirmPassword)
    {
      var e := FieldsError(name, email, phone, password, confirmPassword);
      if e.Some? {
        effects := effects + [Alert("Error", e.value)];
        return;
      }
      loading := true;
      requests := requests + [Request(RegisterCall(name, email, phone, password), loading)];
      match registered {
        case Failed(serverError) =>
          effects := effects + [Alert("Registration Failed", ErrorText(serverError, RegisterFallback))];
        case Answer(_) =>
          effects := effects + [Registered];
          requests := requests + [Request(LoginCall(email, password), loading)];
          match loggedIn {
            case Failed(serverError) =>
              effects := effects + [Alert("Registration Failed", ErrorText(serverError, RegisterFallback))];
            case Answer(token) =>
              if TruthyOpt(token) {
                auth.Login(token);
              }
          }
      }
      loading := false;
    }
  }
}
