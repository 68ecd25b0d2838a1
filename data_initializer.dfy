/** DataInitializer: the staff accounts the application makes sure of at start-up. */
module DataInitializer {
  import opened Wrappers
  import opened Entities
  import Passwords
  import opened LibraryStore

  const OwnerEmail: string := "owner@lib.com"
  const LibrarianEmail: string := "admin@lib.com"

  function OwnerAccount(id: nat): Member
  {
    Member(id, "Owner", OwnerEmail, "0000000000", Passwords.Encode("owpassword"), RoleOwner)
  }

  function LibrarianAccount(id: nat): Member
  {
    Member(id, "Admin", LibrarianEmail, "1111111111", Passwords.Encode("adpassword"), RoleLibrarian)
  }

  /** The member table after `account` is saved, unless its email is already registered. */
  function SaveIfAbsent(ms: seq<Member>, account: Member): (r: seq<Member>)
    ensures FindByEmail(r, account.email).Some?
    ensures FindByEmail(ms, account.email).Some? ==> r == ms
    ensures FindByEmail(ms, account.email).None? ==> r == ms + [account]
  {
    if FindByEmail(ms, account.email).None? then
      var r := ms + [account];
      assert r[|ms|].email == account.email;
      r
    else ms
  }

  /** The member table after run(): the owner account first, then the librarian account. */
  function Seeded(ms: seq<Member>): seq<Member>
  {
    var withOwner := SaveIfAbsent(ms, OwnerAccount(|ms|));
    SaveIfAbsent(withOwner, LibrarianAccount(|withOwner|))
  }

  /** run(): creates the owner and the librarian accounts that do not exist yet. */
  method Run(db: Store)
    requires db.Valid()
    modifies db
    ensures db.Valid()
    ensures db.members == Seeded(old(db.members))
    ensures db.books == old(db.books) && db.copies == old(db.copies) && db.cartItems == old(db.cartItems)
    ensures db.nextCartItemId == old(db.nextCartItemId) && db.issues == old(db.issues) && db.payments == old(db.payments)
  {
    if FindByEmail(db.members, OwnerEmail).None? {
      db.members := db.members + [OwnerAccount(|db.members|)];
    }
    if FindByEmail(db.members, LibrarianEmail).None? {
      db.members := db.members + [LibrarianAccount(|db.members|)];
    }
  }

  /** Saving an account under the next id keeps the member table valid. */
  lemma SaveIfAbsentKeepsValid(ms: seq<Member>, account: Member)
    requires MembersValid(ms) && account.id == |ms|
    ensures MembersValid(SaveIfAbsent(ms, account))
  {
  }

  /**
   * After run() both staff accounts exist, the earlier members are kept as they were, at most two
   * rows are added, and the table stays valid; an account created by run() has its role and
   * its password.
   */
  lemma SeededAccounts(ms: seq<Member>)
    requires MembersValid(ms)
    ensures var r := Seeded(ms);
      && MembersValid(r)
      && FindByEmail(r, OwnerEmail).Some? && FindByEmail(r, LibrarianEmail).Some?
      && ms <= r && |r| <= |ms| + 2
      && (FindByEmail(ms, OwnerEmail).None? ==>
            r[|ms|] == OwnerAccount(|ms|) && Passwords.Matches("owpassword", r[|ms|].password))
      && (FindByEmail(ms, LibrarianEmail).None? ==>
            r[|r| - 1] == LibrarianAccount(|r| - 1) && Passwords.Matches("adpassword", r[|r| - 1].password))
  {
    var withOwner := SaveIfAbsent(ms, OwnerAccount(|ms|));
    SaveIfAbsentKeepsValid(ms, OwnerAccount(|ms|));
    SaveIfAbsentKeepsValid(withOwner, LibrarianAccount(|withOwner|));
    FindByEmailKept(withOwner, Seeded(ms), OwnerEmail);
    if FindByEmail(ms, LibrarianEmail).None? {
      assert OwnerEmail[0] != LibrarianEmail[0];
      assert withOwner == ms || withOwner == ms + [OwnerAccount(|ms|)];
    }
  }

  /** Running the initializer a second time changes nothing. */
  lemma SeededIdempotent(ms: seq<Member>)
    ensures Seeded(Seeded(ms)) == Seeded(ms)
  {
    var r := Seeded(ms);
    var withOwner := SaveIfAbsent(ms, OwnerAccount(|ms|));
    assert FindByEmail(withOwner, OwnerEmail).Some?;
    assert ms <= withOwner <= r;
    FindByEmailKept(withOwner, r, OwnerEmail);
  }

  /** An email found in a table is still found once rows are appended. */
  lemma FindByEmailKept(ms: seq<Member>, ms': seq<Member>, email: string)
    requires ms <= ms' && FindByEmail(ms, email).Some?
    ensures FindByEmail(ms', email).Some?
  {
    var i := FindByEmail(ms, email).value;
    assert ms'[i] == ms[i];
  }
}
