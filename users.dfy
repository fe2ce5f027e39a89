/** The account record the admin table lists. */
module Users {

  datatype Option<T> = None | Some(value: T)

  /** One admin account as the store hands it to the table; `id` is the
      record's `_id`. */
  datatype User = User(
    id: string,
    username: string,
    email: string,
    firstName: string,
    lastName: string,
    createdAt: string)

  /** The property names a user record has. */
  const FieldNames: set<string> := {"_id", "username", "email", "firstName", "lastName", "createdAt"}

  /** `u[key]`: the value of the named property, `undefined` (None) for any
      other name, such as the empty id of the table's last column. */
  function Field(u: User, key: string): (r: Option<string>)
    ensures r.Some? <==> key in FieldNames
    ensures key == "_id" ==> r == Some(u.id)
    ensures key == "username" ==> r == Some(u.username)
    ensures key == "email" ==> r == Some(u.email)
    ensures key == "firstName" ==> r == Some(u.firstName)
    ensures key == "lastName" ==> r == Some(u.lastName)
    ensures key == "createdAt" ==> r == Some(u.createdAt)
  {
    if key == "_id" then Some(u.id)
    else if key == "username" then Some(u.username)
    else if key == "email" then Some(u.email)
    else if key == "firstName" then Some(u.firstName)
    else if key == "lastName" then Some(u.lastName)
    else if key == "createdAt" then Some(u.createdAt)
    else None
  }

  /** The fields the search box looks in, in the order the search tries them. */
  function SearchFields(u: User): (r: seq<string>)
    ensures |r| == 4
    ensures forall k :: 0 <= k < 4 ==>
      Some(r[k]) == Field(u, ["username", "email", "firstName", "lastName"][k])
  {
    [u.username, u.email, u.firstName, u.lastName]
  }
}
