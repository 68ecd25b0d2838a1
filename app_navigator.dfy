/** AppNavigator: which navigation graph the app shows for the signed-in state. */
module AppNavigator {
  import opened Wrappers
  import opened ApiClient
  import opened AuthContext

  /** The screens of the signed-in graph. */
  datatype MainRoute =
    | Dashboard | Profile | Cart | SearchBook | ChangePassword | BookDetails
    | BorrowedBooks | BorrowingHistory | Fines | PaymentHistory

  /** The screens of the signed-out graph. */
  datatype AuthRoute = Login | Register

  /** What the navigator renders: the spinner, the signed-in graph, or the login/register graph. */
  datatype Rendered = Spinner | MainGraph(firstScreen: MainRoute) | AuthGraph(firstAuthScreen: AuthRoute)

  function Render(isLoading: bool, userToken: Option<string>): (r: Rendered)
    ensures r.Spinner? <==> isLoading
    ensures r.MainGraph? <==> !isLoading && TruthyOpt(userToken)
    ensures r.AuthGraph? <==> !isLoading && !TruthyOpt(userToken)
    ensures r.MainGraph? ==> r.firstScreen == Dashboard
    ensures r.AuthGraph? ==> r.firstAuthScreen == Login
  {
    if isLoading then Spinner
    else if TruthyOpt(userToken) then MainGraph(Dashboard)
    else AuthGraph(Login)
  }

  /**
   * After the start-up read of the storage the app opens on the dashboard exactly when a
   * non-empty token was stored, and on the login screen otherwise.
   */
  lemma StartupGraph(s: Storage)
    ensures Render(false, Restored(s)) == MainGraph(Dashboard) <==> TokenKey in s && s[TokenKey] != ""
    ensures Render(false, Restored(s)) == AuthGraph(Login) <==> !(TokenKey in s && s[TokenKey] != "")
  {
  }

  /** A session signed in with token `t` reopens on the dashboard; after a logout it reopens on login. */
  lemma SessionSurvivesRestart(s: Storage, t: string)
    requires t != ""
    ensures Render(false, Restored(StoreToken(s, Some(t)))) == MainGraph(Dashboard)
    ensures Render(false, Restored(StoreToken(s, None))) == AuthGraph(Login)
  {
    RestoreAfterStore(s, Some(t));
    RestoreAfterStore(s, None);
  }
}
