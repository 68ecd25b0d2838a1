/**
 * The Bean Validation constraints on the request bodies. A field the client may omit is an
 * `Option`; a request is acceptable exactly when its validity predicate holds, and the
 * controllers that validate their request bodies only pass acceptable requests to the services.
 */
module Dtos {
  import opened Wrappers
  import opened Entities
  import opened Text

  /** Not-blank rule: present, and something is left after `trim()`. */
  predicate NotBlank(s: Option<string>)
  {
    s.Some? && HasContent(s.value)
  }

  /** Minimum-size rule: absent (the size rule accepts null), or at least `n` characters. */
  predicate SizeAtLeast(s: Option<string>, n: nat)
  {
    s.None? || |s.value| >= n
  }

  /** A string made of one repeated character. */
  function Repeat(c: char, n: nat): (r: string)
    ensures |r| == n
    ensures forall i :: 0 <= i < n ==> r[i] == c
  {
    if n == 0 then [] else [c] + Repeat(c, n - 1)
  }

  /** A string of blanks is blank whatever its length. */
  lemma SpacesAreBlank(n: nat)
    ensures !NotBlank(Some(Repeat(' ', n)))
    ensures SizeAtLeast(Some(Repeat(' ', n)), n)
  {
  }

  // ---- AddBookRequestDTO ----

  datatype AddBookRequest = AddBookRequest(
    name: Option<string>, author: Option<string>, subject: Option<string>,
    isbn: Option<string>, price: Option<Money>)

  predicate AddBookValid(d: AddBookRequest)
  {
    && NotBlank(d.name)
    && NotBlank(d.author)
    && NotBlank(d.isbn)
    && d.price.Some? && d.price.value > 0
  }

  /** The messages of the violated constraints, in field order. */
  function AddBookViolations(d: AddBookRequest): (r: seq<string>)
    ensures r == [] <==> AddBookValid(d)
    ensures |r| <= 4
  {
    (if NotBlank(d.name) then [] else ["Book name cannot be blank"])
    + (if NotBlank(d.author) then [] else ["Author name cannot be blank"])
    + (if NotBlank(d.isbn) then [] else ["ISBN cannot be blank"])
    + (if d.price.None? then ["Price is required"]
       else if d.price.value <= 0 then ["Price must be greater than 0"] else [])
  }

  /** The subject is unconstrained, and a price of zero is rejected. */
  lemma AddBookSubjectFreePriceStrict(d: AddBookRequest, subject: Option<string>)
    ensures AddBookValid(d.(subject := subject)) <==> AddBookValid(d)
    ensures !AddBookValid(d.(price := Some(0)))
    ensures !AddBookValid(d.(price := None))
  {
  }

  // ---- AddCopyRequestDTO ----

  /** `numberOfCopies` is a primitive `int`, so it is always present. */
  datatype AddCopyRequest = AddCopyRequest(bookId: Option<int>, rack: Option<string>, numberOfCopies: int)

  predicate AddCopyValid(d: AddCopyRequest)
  {
    d.bookId.Some? && NotBlank(d.rack) && d.numberOfCopies >= 1
  }

  function AddCopyViolations(d: AddCopyRequest): (r: seq<string>)
    ensures r == [] <==> AddCopyValid(d)
    ensures |r| <= 3
  {
    (if d.bookId.Some? then [] else ["bookId is required"])
    + (if NotBlank(d.rack) then [] else ["Rack location cannot be blank"])
    + (if d.numberOfCopies >= 1 then [] else ["You must add at least one copy"])
  }

  /** One copy is the least acceptable number. */
  lemma AddCopyMinimumIsOne(d: AddCopyRequest)
    requires d.bookId.Some? && NotBlank(d.rack)
    ensures AddCopyValid(d.(numberOfCopies := 1))
    ensures !AddCopyValid(d.(numberOfCopies := 0))
  {
  }

  // ---- RegisterRequestDTO ----

  datatype RegisterRequest = RegisterRequest(
    name: Option<string>, email: Option<string>, phone: Option<string>, password: Option<string>)

  /** `isEmail` stands for the well-formed-address check behind the email rule. */
  predicate RegisterValid(d: RegisterRequest, isEmail: string -> bool)
  {
    && NotBlank(d.name)
    && NotBlank(d.email) && isEmail(d.email.value)
    && NotBlank(d.phone)
    && NotBlank(d.password) && SizeAtLeast(d.password, 6)
  }

  /** Six blanks are long enough but blank, so the password is refused. */
  lemma SixSpacePasswordRejected(d: RegisterRequest, isEmail: string -> bool)
    ensures !RegisterValid(d.(password := Some("      ")), isEmail)
  {
    assert "      " == Repeat(' ', 6);
  }

  /** A valid request carries every field. */
  lemma RegisterValidHasFields(d: RegisterRequest, isEmail: string -> bool)
    requires RegisterValid(d, isEmail)
    ensures d.name.Some? && d.email.Some? && d.phone.Some? && d.password.Some? && |d.password.value| >= 6
  {
  }

  // ---- ChangePasswordDTO ----

  datatype ChangePasswordRequest = ChangePasswordRequest(oldPassword: Option<string>, newPassword: Option<string>)

  predicate ChangePasswordValid(d: ChangePasswordRequest)
  {
    NotBlank(d.oldPassword) && NotBlank(d.newPassword) && SizeAtLeast(d.newPassword, 6)
  }

  /**
   * With any non-blank old password, however short, the request is acceptable exactly when the
   * new password has six characters or more and one of them is not blank.
   */
  lemma ChangePasswordLengthRule(oldPassword: string, newPassword: string)
    requires HasContent(oldPassword)
    ensures ChangePasswordValid(ChangePasswordRequest(Some(oldPassword), Some(newPassword)))
      <==> |newPassword| >= 6 && HasContent(newPassword)
    ensures |newPassword| < 6 ==> !ChangePasswordValid(ChangePasswordRequest(Some(oldPassword), Some(newPassword)))
    ensures !ChangePasswordValid(ChangePasswordRequest(None, Some(newPassword)))
  {
  }
}
