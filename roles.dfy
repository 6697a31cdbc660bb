/** The role registry of src/helpers/roles.ts: a closed set of two role
    names and an exact-match membership test. */
module Roles {

  const RoleAdmin: string := "Admin"
  const RoleUser: string := "User"

  /** The values of the `ROLES` constant. */
  const AllRoles: set<string> := {RoleAdmin, RoleUser}

  /** `verify(role)`: exact, case-sensitive comparison with both names. It is
      total and reads nothing. */
  function Verify(role: string): (ok: bool)
    ensures ok <==> role in AllRoles
  {
    role == RoleUser || role == RoleAdmin
  }

  lemma BothRolesVerify()
    ensures Verify("Admin") && Verify("User")
  {
  }

  /** Neither case, surrounding blanks nor longer names are normalised. */
  lemma NearMissesRejected()
    ensures !Verify("admin") && !Verify("ADMIN") && !Verify("user")
    ensures !Verify(" User") && !Verify("User ") && !Verify("")
    ensures !Verify("SuperAdmin")
  {
    assert "admin"[0] != RoleAdmin[0];
    assert "ADMIN"[1] != RoleAdmin[1];
    assert "user"[0] != RoleUser[0];
  }

  /** Every accepted string is one of the two names, and they are distinct. */
  lemma ExactlyTwoRoles()
    ensures |AllRoles| == 2
    ensures forall r :: Verify(r) ==> r == RoleAdmin || r == RoleUser
  {
    assert RoleAdmin != RoleUser by { assert |RoleAdmin| != |RoleUser|; }
  }
}
