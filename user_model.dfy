/** The `User` entity: an identifier, two display names, the last login
    instant and the remaining quota. */
module UserModel {
  /** The state of one user at one moment: what the store keeps and what the
      service hands back. `lastLoginTimeUtc` is an opaque instant. */
  datatype UserRecord = UserRecord(
    id: string,
    firstName: string,
    lastName: string,
    lastLoginTimeUtc: int,
    quota: int)

  /** A live `User` object, whose names and quota are changed in place.
      The identifier is never changed by the service, so it is a constant. */
  class User {
    const id: string
    var firstName: string
    var lastName: string
    var lastLoginTimeUtc: int
    var quota: int

    /** The current state of this object as a value. */
    function Record(): UserRecord
      reads this
    {
      UserRecord(id, firstName, lastName, lastLoginTimeUtc, quota)
    }

    /** `new User(firstName, lastName)`: a generated identifier, the current
        instant as last login and the configured quota limit. */
    constructor Named(generatedId: string, firstName: string, lastName: string, now: int, quotaLimit: int)
      ensures Record() == UserRecord(generatedId, firstName, lastName, now, quotaLimit)
    {
      this.id := generatedId;
      this.firstName := firstName;
      this.lastName := lastName;
      this.lastLoginTimeUtc := now;
      this.quota := quotaLimit;
    }

    /** `new User(id, firstName, lastName, quota)`: the last login is the current instant. */
    constructor (id: string, firstName: string, lastName: string, quota: int, now: int)
      ensures Record() == UserRecord(id, firstName, lastName, now, quota)
    {
      this.id := id;
      this.firstName := firstName;
      this.lastName := lastName;
      this.lastLoginTimeUtc := now;
      this.quota := quota;
    }

    /** An object loaded from the store: a fresh copy of a stored record.
        It exists only for `UserService.FindById`. */
    constructor Load(r: UserRecord)
      ensures Record() == r
    {
      this.id := r.id;
      this.firstName := r.firstName;
      this.lastName := r.lastName;
      this.lastLoginTimeUtc := r.lastLoginTimeUtc;
      this.quota := r.quota;
    }
  }
}
