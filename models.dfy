/** The user entity: a stored value, and the mutable struct callers pass by pointer. */
module Models {

  /** One user as the users table holds it; `password` is the stored (hashed) secret. */
  datatype User = User(id: nat, email: string, username: string, password: string)

  /** A `*models.User`: the services and the repository write its fields in place. */
  class UserRecord {
    var id: nat
    var email: string
    var username: string
    var password: string

    constructor (id: nat, email: string, username: string, password: string)
      ensures Value() == User(id, email, username, password)
    {
      this.id := id;
      this.email := email;
      this.username := username;
      this.password := password;
    }

    /** The fields of the struct, as a value. */
    function Value(): User
      reads this
    {
      User(id, email, username, password)
    }
  }
}
