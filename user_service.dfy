/** `UserService`: the store of users (`userRepository`), the in-memory
    snapshot (`elasticUsers`) and the operations on them. The store keeps
    values: loading a user makes a fresh object, saving copies the object's
    current state. The snapshot is a fixed list of live objects, which
    consumption at night changes in place. */
module Service {
  import opened Wrappers
  import opened UserModel
  import opened TimeWindow
  import opened QuotaRules

  /** The current states of a list of user objects, in list order. */
  function Records(users: seq<User>): (rs: seq<UserRecord>)
    reads users
    ensures |rs| == |users|
    ensures forall j :: 0 <= j < |users| ==> rs[j] == users[j].Record()
  {
    seq(|users|, j requires 0 <= j < |users| reads users => users[j].Record())
  }

  /** No object occurs twice in the list. */
  ghost predicate Distinct(users: seq<User>) {
    forall i, j :: 0 <= i < j < |users| ==> users[i] != users[j]
  }

  class UserService {
    /** The rows of `userRepository`, by id. */
    var repository: map<string, UserRecord>
    /** `elasticUsers`, fixed when the service is built. */
    const elasticUsers: seq<User>
    /** `DAYTIME_START_HOUR` and `DAYTIME_END_HOUR`. */
    const daytimeStartHour: int
    const daytimeEndHour: int

    ghost predicate Valid()
      reads this
    {
      && KeyedById(repository)
      && Distinct(elasticUsers)
      && 0 <= daytimeStartHour < 24
      && 0 <= daytimeEndHour < 24
    }

    /** Everything the service reads: the rows and the snapshot entries' states. */
    function State(): Store
      reads this, elasticUsers
    {
      Store(repository, Records(elasticUsers))
    }

    /** The service over a store and a snapshot loaded once at start. */
    constructor (repository: map<string, UserRecord>, elasticUsers: seq<User>,
                 daytimeStartHour: int, daytimeEndHour: int)
      requires KeyedById(repository) && Distinct(elasticUsers)
      requires 0 <= daytimeStartHour < 24 && 0 <= daytimeEndHour < 24
      ensures Valid()
      ensures this.repository == repository && this.elasticUsers == elasticUsers
      ensures this.daytimeStartHour == daytimeStartHour && this.daytimeEndHour == daytimeEndHour
    {
      this.repository := repository;
      this.elasticUsers := elasticUsers;
      this.daytimeStartHour := daytimeStartHour;
      this.daytimeEndHour := daytimeEndHour;
    }

    /** `userRepository.findById`: a fresh object holding the stored row, or `null`. */
    method FindById(userId: string) returns (user: User?)
      requires Valid()
      ensures user == null <==> userId !in repository
      ensures user != null ==> fresh(user) && user.Record() == repository[userId] && user.id == userId
    {
      if userId in repository {
        user := new User.Load(repository[userId]);
      } else {
        user := null;
      }
    }

    /** `userRepository.save`: stores the object's current state under its id. */
    method Save(user: User) returns (saved: UserRecord)
      requires Valid()
      modifies this
      ensures Valid()
      ensures repository == old(repository)[user.id := user.Record()]
      ensures saved == user.Record()
    {
      saved := user.Record();
      repository := repository[user.id := saved];
    }

    /** `createUser`: saves the given user. */
    method CreateUser(user: User) returns (created: UserRecord)
      requires Valid()
      modifies this
      ensures Valid()
      ensures created == user.Record()
      ensures repository == old(repository)[user.id := created]
    {
      created := Save(user);
    }

    /** `getUser`: the stored row for the id, or `null`. */
    method GetUser(userId: string) returns (r: Option<UserRecord>)
      requires Valid()
      ensures r.Some? <==> userId in repository
      ensures r.Some? ==> r.value == repository[userId] && r.value.id == userId
    {
      var user := FindById(userId);
      if user == null {
        r := None;
      } else {
        r := Some(user.Record());
      }
    }

    /** `updateUser`: on a stored id, copies the two names from `updatedUser`
        and saves; the id, the last login and the quota stay. On an unknown
        id nothing is saved and `null` is returned. */
    method UpdateUser(userId: string, updatedUser: User) returns (r: Option<UserRecord>)
      requires Valid()
      modifies this
      ensures Valid()
      ensures r.Some? <==> userId in old(repository)
      ensures r.Some? ==>
        && r.value == old(repository)[userId].(firstName := updatedUser.firstName, lastName := updatedUser.lastName)
        && r.value.id == userId
        && r.value.quota == old(repository)[userId].quota
        && repository == old(repository)[userId := r.value]
      ensures r.None? ==> repository == old(repository)
    {
      var user := FindById(userId);
      if user != null {
        user.firstName := updatedUser.firstName;
        user.lastName := updatedUser.lastName;
        var saved := Save(user);
        r := Some(saved);
      } else {
        r := None;
      }
    }

    /** `deleteUser`: removes the row if there is one. */
    method DeleteUser(userId: string)
      requires Valid()
      modifies this
      ensures Valid()
      ensures repository == old(repository) - {userId}
    {
      repository := repository - {userId};
    }

    /** The stream search of `consumeQuota`: the first snapshot position whose user has the id. */
    method FindInSnapshot(userId: string) returns (found: Option<nat>)
      ensures found == FirstMatch(Records(elasticUsers), userId)
    {
      var i := 0;
      while i < |elasticUsers|
        invariant 0 <= i <= |elasticUsers|
        invariant forall j :: 0 <= j < i ==> elasticUsers[j].id != userId
      {
        if elasticUsers[i].id == userId {
          return Some(i);
        }
        i := i + 1;
      }
      return None;
    }

    /** `decrementQuota`: looks the user's id up in the store again; with
        quota > 0 it lowers the object's quota by one and saves it when the
        store has the id, or only returns it when not; with quota <= 0 it
        returns `null` and changes nothing. */
    method DecrementQuota(user: User) returns (saved: Option<UserRecord>)
      requires Valid()
      modifies this, user
      ensures Valid()
      ensures old(user.quota) > 0 ==>
        && user.Record() == old(user.Record()).(quota := old(user.quota) - 1)
        && saved == Some(user.Record())
        && repository == if user.id in old(repository) then old(repository)[user.id := user.Record()]
                         else old(repository)
      ensures old(user.quota) <= 0 ==>
        && saved == None
        && user.Record() == old(user.Record())
        && repository == old(repository)
    {
      var fromStore := FindById(user.id);
      if fromStore != null {
        if user.quota > 0 {
          user.quota := user.quota - 1;
          var s := Save(user);
          saved := Some(s);
        } else {
          saved := None;
        }
      } else {
        if user.quota > 0 {
          user.quota := user.quota - 1;
          saved := Some(user.Record());
        } else {
          saved := None;
        }
      }
    }

    /** `consumeQuota` at the clock reading `now`: the outcome and new state
        are those of `Consume` on the state before the call. */
    method ConsumeQuota(userId: string, now: LocalTime) returns (r: Option<UserRecord>)
      requires Valid() && now.Valid()
      modifies this, elasticUsers
      ensures Valid()
      ensures var step := Consume(old(State()), userId, IsDaytime(now, daytimeStartHour, daytimeEndHour));
              r == step.outcome.Reply() && State() == step.after
    {
      ghost var st := State();
      var daytime := IsDaytime(now, daytimeStartHour, daytimeEndHour);
      var user: User? := null;
      ghost var from: Source := Repository;
      if daytime {
        user := FindById(userId);
      } else {
        var found := FindInSnapshot(userId);
        if found.Some? {
          user := elasticUsers[found.value];
          from := Snapshot(found.value);
        }
      }
      if user == null {
        return None;
      }
      assert Candidate(st, userId, daytime) == Some(Found(user.Record(), from));
      r := DecrementQuota(user);
      forall j | 0 <= j < |elasticUsers| && elasticUsers[j] != user
        ensures elasticUsers[j].Record() == st.snapshot[j]
      {
      }
      assert Records(elasticUsers) == if from.Snapshot? then st.snapshot[from.index := user.Record()] else st.snapshot;
    }

    /** `getUsersQuota`: puts every stored row's quota, then adds each snapshot
        entry's quota with `putIfAbsent`; nothing is changed. */
    method GetUsersQuota() returns (m: map<string, int>)
      requires Valid()
      ensures m == QuotaView(State())
    {
      m := map[];
      var pending := repository.Keys;
      while pending != {}
        invariant pending <= repository.Keys
        invariant m.Keys == repository.Keys - pending
        invariant forall k :: k in m ==> m[k] == repository[k].quota
        decreases pending
      {
        var k :| k in pending;
        m := m[k := repository[k].quota];
        pending := pending - {k};
      }
      QuotaViewOfStoreAlone(repository, m);
      ghost var snapshot := Records(elasticUsers);
      assert snapshot[..0] == [];
      var i := 0;
      while i < |elasticUsers|
        invariant 0 <= i <= |elasticUsers|
        invariant m == QuotaView(Store(repository, snapshot[..i]))
      {
        var user := elasticUsers[i];
        assert QuotaView(Store(repository, snapshot[..i + 1]))
            == if user.id in m then m else m[user.id := user.quota] by {
          assert snapshot[i] == user.Record();
          assert snapshot[..i + 1] == snapshot[..i] + [user.Record()];
          QuotaViewPutIfAbsent(repository, snapshot[..i], user.Record());
        }
        if user.id !in m {
          m := m[user.id := user.quota];
        }
        i := i + 1;
      }
      assert snapshot[..i] == snapshot;
    }
  }
}
