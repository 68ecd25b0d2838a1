/** AuthService: self-registration of library members. */
module AuthService {
  import opened Wrappers
  import opened Entities
  import Passwords
  import opened LibraryStore
  import opened Dtos

  /**
   * registerNewMember: a request whose email is not yet taken becomes a new ROLE_MEMBER account
   * holding the encoded password. `isEmail` is the address check the request was validated with.
   */
  method RegisterNewMember(db: Store, d: RegisterRequest, isEmail: string -> bool) returns (r: Result<Member>)
    requires db.Valid() && RegisterValid(d, isEmail)
    modifies db
    ensures db.Valid()
    ensures r.Err? <==> FindByEmail(old(db.members), d.email.value).Some?
    ensures r.Err? ==> r.error == Failure(Rejected, "Email is already registered") && unchanged(db)
    ensures r.Ok? ==>
      && r.value == Member(|old(db.members)|, d.name.value, d.email.value, d.phone.value,
                           Passwords.Encode(d.password.value), RoleMember)
      && db.members == old(db.members) + [r.value]
      && db.books == old(db.books) && db.copies == old(db.copies) && db.cartItems == old(db.cartItems)
      && db.nextCartItemId == old(db.nextCartItemId) && db.issues == old(db.issues) && db.payments == old(db.payments)
    ensures r.Ok? ==>
      && FindByEmail(db.members, d.email.value) == Some(r.value.id)
      && Passwords.Matches(d.password.value, r.value.password)
      && r.value.password != d.password.value
  {
    var email := d.email.value;
    if FindByEmail(db.members, email).Some? {
      return Err(Failure(Rejected, "Email is already registered"));
    }
    var m := Member(|db.members|, d.name.value, email, d.phone.value, Passwords.Encode(d.password.value), RoleMember);
    db.members := db.members + [m];
    FindByEmailUnique(db.members, m.id);
    r := Ok(m);
  }
}
