/**
  `backend/users/models.py`: the role of an account. `user_type` is one of the two
  choices (`"user"` unless set), and `is_staff` comes from Django's account model.
 */
module Users {
  import opened Strings

  function ADMIN(): Text { Lit("admin") }
  function REGULAR(): Text { Lit("user") }

  /** The fields the role checks read; the profile fields play no part in them. */
  datatype User = User(userType: Text, isStaff: bool)

  /** A new account: `user_type` defaults to `UserType.REGULAR`. */
  function NewUser(isStaff: bool): (u: User)
    ensures u.userType == REGULAR() && u.isStaff == isStaff
  {
    User(REGULAR(), isStaff)
  }

  /** A `user_type` the field's choices accept. */
  predicate ValidType(u: User) {
    u.userType == ADMIN() || u.userType == REGULAR()
  }

  /** `is_regular_user` (lines 49-51) */
  predicate IsRegularUser(u: User) {
    u.userType == REGULAR() && !u.isStaff
  }

  /** `is_admin_user` (lines 53-55) */
  predicate IsAdminUser(u: User) {
    u.userType == ADMIN() || u.isStaff
  }

  lemma AdminIsNotRegular()
    ensures ADMIN() != REGULAR()
  {
    assert ADMIN()[0] != REGULAR()[0];
  }

  /** No account is both a regular user and an admin user. */
  lemma NeverBoth(u: User)
    ensures !(IsRegularUser(u) && IsAdminUser(u))
  {
    AdminIsNotRegular();
  }

  /**
    For a `user_type` among the choices, an account is exactly one of the two: the
    checks are each other's negation.
   */
  lemma RegularIffNotAdmin(u: User)
    requires ValidType(u)
    ensures IsRegularUser(u) <==> !IsAdminUser(u)
  {
    AdminIsNotRegular();
  }

  /** Staff status alone makes an account an admin user, whatever its type. */
  lemma StaffIsAdmin(u: User)
    requires u.isStaff
    ensures IsAdminUser(u) && !IsRegularUser(u)
  {
  }

  /** A new account is a regular user exactly when it is not staff. */
  lemma NewUserRole(isStaff: bool)
    ensures IsRegularUser(NewUser(isStaff)) <==> !isStaff
    ensures IsAdminUser(NewUser(isStaff)) <==> isStaff
  {
    AdminIsNotRegular();
  }
}
