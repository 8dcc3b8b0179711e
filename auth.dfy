/** The credential check: a lookup in the user-to-password map read once from
    the environment at start-up, then a comparison.
 */
module Auth {
  import opened Results

  /** Logs a user in; on success gives back the user id the greeting names. */
  function Login(users: map<string, string>, userId: string, password: string): (r: Result<string>)
    ensures userId !in users ==> r == Failure(UserNotFound)
    ensures userId in users && users[userId] != password ==> r == Failure(IncorrectPassword)
    ensures r.Success? <==> userId in users && users[userId] == password
    ensures r.Success? ==> r.value == userId
  {
    if userId !in users then Failure(UserNotFound)
    else if users[userId] != password then Failure(IncorrectPassword)
    else Success(userId)
  }

  /** At most one password lets a user in, and the result depends only on that
      user's own entry. */
  lemma LoginDependsOnOwnEntry(users: map<string, string>, users': map<string, string>,
                               userId: string, password: string, password': string)
    requires (userId in users <==> userId in users') && (userId in users ==> users[userId] == users'[userId])
    ensures Login(users, userId, password) == Login(users', userId, password)
    ensures Login(users, userId, password).Success? && Login(users, userId, password').Success? ==> password == password'
  {
  }
}
