/** ChangePasswordScreen: the signed-in member replaces their password. */
module ChangePasswordScreen {
  import opened Wrappers
  import opened Text
  import opened ApiClient
  import opened Dtos

  const AllRequired: string := "All fields are required."
  const NoMatch: string := "New passwords do not match."
  const TooShort: string := "New password must be at least 6 characters long."
  const ChangeFallback: string := "An error occurred. Please check your current password."
  const Updated: Effect := Alert("Success", "Your password has been updated successfully!")

  /** The shortest new password the screen lets through. */
  const MinLength: nat := 6

  /**
   * The form's guards, first failure wins: all three fields filled, then the new password
   * confirmed, then at least six characters long.
   */
  function FormError(oldPassword: string, newPassword: string, confirm: string): (e: Option<string>)
    ensures e == Some(AllRequired) <==> oldPassword == "" || newPassword == "" || confirm == ""
    ensures e == Some(NoMatch) <==>
      oldPassword != "" && newPassword != "" && confirm != "" && newPassword != confirm
    ensures e == Some(TooShort) <==>
      oldPassword != "" && newPassword != "" && newPassword == confirm && |newPassword| < MinLength
    ensures e.None? <==> oldPassword != "" && newPassword == confirm && |newPassword| >= MinLength
  {
    if oldPassword == "" || newPassword == "" || confirm == "" then Some(AllRequired)
    else if newPassword != confirm then Some(NoMatch)
    else if |newPassword| < MinLength then Some(TooShort)
    else None
  }

  /**
   * A form the screen sends meets the server's length rule, and the server accepts it exactly
   * when both passwords hold a character other than blanks.
   */
  lemma SentFormAgainstServerRules(oldPassword: string, newPassword: string, confirm: string)
    requires FormError(oldPassword, newPassword, confirm).None?
    ensures SizeAtLeast(Some(newPassword), 6)
    ensures ChangePasswordValid(ChangePasswordRequest(Some(oldPassword), Some(newPassword)))
      <==> HasContent(oldPassword) && HasContent(newPassword)
  {
  }

  /** Six spaces, typed twice, pass every check of the screen; the server refuses them as blank. */
  lemma BlankPasswordPassesScreen(oldPassword: string)
    requires oldPassword != ""
    ensures FormError(oldPassword, "      ", "      ").None?
    ensures !ChangePasswordValid(ChangePasswordRequest(Some(oldPassword), Some("      ")))
  {
    SpacesAreBlank(6);
    assert "      " == Repeat(' ', 6);
  }

  class State {
    var oldPassword: string
    var newPassword: string
    var confirmPassword: string
    var error: string
    var loading: bool
    var requests: seq<Request>
    var effects: seq<Effect>

    constructor()
      ensures oldPassword == "" && newPassword == "" && confirmPassword == "" && error == ""
      ensures !loading && requests == [] && effects == []
    {
      oldPassword, newPassword, confirmPassword := "", "", "";
      error := "";
      loading := false;
      requests := [];
      effects := [];
    }

    /**
     * handleUpdatePassword: the error is cleared, the guards run, and only a form that passes
     * them is sent; a refusal shows the server's message or the fallback text.
     */
    method HandleUpdatePassword(response: Response<()>)
      modifies this
      ensures var e := FormError(oldPassword, newPassword, confirmPassword);
        && (e.Some? ==>
              error == e.value && requests == old(requests) && effects == old(effects) && loading == old(loading))
        && (e.None? ==>
              && requests == old(requests) + [Request(ChangeMyPassword(oldPassword, newPassword), true)]
              && !loading
              && (response.Answer? ==> error == "" && effects == old(effects) + [Updated])
              && (response.Failed? ==>
                    error == ErrorText(response.serverError, ChangeFallback) && effects == old(effects)))
      ensures oldPassword == old(oldPassword) && newPassword == old(newPassword)
      ensures confirmPassword == old(confirmPassword)
    {
      error := "";
      var e := FormError(oldPassword, newPassword, confirmPassword);
      if e.Some? {
        error := e.value;
        return;
      }
      loading := true;
      requests := requests + [Request(ChangeMyPassword(oldPassword, newPassword), loading)];
      match response {
        case Answer(_) =>
          effects := effects + [Updated];
        case Failed(serverError) =>
          error := ErrorText(serverError, ChangeFallback);
      }
      loading := false;
    }
  }
}
