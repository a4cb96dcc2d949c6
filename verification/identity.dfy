/** The user directory: internal users keyed by their generated id, with the
    unique index on `messengerId` that the users table carries. `findOrCreateUser`
    resolves a messenger account to exactly one internal user.
 */
module Identity {
  import opened Wrappers
  import opened JavaLang

  datatype User = User(id: Long, messengerId: Long, userName: string, registeredAt: Instant)

  datatype UserDto = UserDto(id: Long, messengerId: Long, userName: string)

  /** The users table (`users`, keyed by internal id) and its unique index on
      `messengerId` (`byMessengerId`, from messenger id to internal id). */
  datatype Directory = Directory(users: map<Long, User>, byMessengerId: map<Long, Long>)

  /** Every row is stored under its own id, and the index maps each messenger id
      present in the table to the one row that carries it, and nothing else. */
  ghost predicate Valid(d: Directory) {
    && (forall id :: id in d.users ==> d.users[id].id == id)
    && (forall m :: m in d.byMessengerId ==>
          d.byMessengerId[m] in d.users && d.users[d.byMessengerId[m]].messengerId == m)
    && (forall id :: id in d.users ==>
          d.users[id].messengerId in d.byMessengerId
          && d.byMessengerId[d.users[id].messengerId] == id)
  }

  /** Some row of the table carries messenger id `m`. */
  ghost predicate Registered(d: Directory, m: Long) {
    exists id :: id in d.users && d.users[id].messengerId == m
  }

  function EmptyDirectory(): (d: Directory)
    ensures Valid(d)
    ensures forall m: Long :: !Registered(d, m)
  {
    Directory(map[], map[])
  }

  /** No two users of a well-formed directory share a messenger id. */
  lemma MessengerIdsUnique(d: Directory, a: Long, b: Long)
    requires Valid(d)
    requires a in d.users && b in d.users
    requires d.users[a].messengerId == d.users[b].messengerId
    ensures a == b
  {
    assert d.byMessengerId[d.users[a].messengerId] == a;
  }

  /** `mapToDto`: the internal id, messenger id and name of a user. */
  function ToDto(u: User): UserDto {
    UserDto(u.id, u.messengerId, u.userName)
  }

  /** The DTO drops the registration instant and nothing else: two users have the
      same DTO exactly when they differ at most in `registeredAt`. */
  lemma UserDtoForgetsOnlyRegisteredAt(a: User, b: User)
    ensures ToDto(a) == ToDto(b) <==> a.(registeredAt := b.registeredAt) == b
  {
  }

  /** The repository query `findByMessengerId`: the row carrying messenger id `m`. */
  function LookupMessenger(d: Directory, m: Long): (r: Option<User>)
    ensures Valid(d) ==> (r.Some? <==> Registered(d, m))
    ensures Valid(d) && r.Some? ==> r.value.messengerId == m
                                    && r.value.id in d.users && d.users[r.value.id] == r.value
  {
    if m in d.byMessengerId && d.byMessengerId[m] in d.users
    then Some(d.users[d.byMessengerId[m]])
    else None
  }

  /** `findUserByMessengerId`. */
  function FindUserByMessengerId(d: Directory, m: Long): (r: Option<UserDto>)
    ensures Valid(d) ==> (r.Some? <==> Registered(d, m))
    ensures Valid(d) && r.Some? ==> r.value.messengerId == m && r.value.id in d.users
                                    && r.value == ToDto(d.users[r.value.id])
  {
    match LookupMessenger(d, m)
    case Some(u) => Some(ToDto(u))
    case None => None
  }

  /** `userExists`: whether `findUserByMessengerId` finds someone. */
  function UserExists(d: Directory, m: Long): (r: bool)
    ensures Valid(d) ==> (r <==> Registered(d, m))
  {
    LookupMessenger(d, m).Some?
  }

  /** `findUserById`. */
  function FindUserById(d: Directory, id: Long): (r: Option<UserDto>)
    ensures r.Some? <==> id in d.users
    ensures r.Some? ==> r.value == ToDto(d.users[id])
    ensures Valid(d) && r.Some? ==> r.value.id == id
  {
    if id in d.users then Some(ToDto(d.users[id])) else None
  }

  /** `userExistsById`: the repository's `existsById`. */
  function UserExistsById(d: Directory, id: Long): (r: bool)
    ensures r <==> id in d.users
  {
    id in d.users
  }

  /** Each existence test agrees with the lookup it shadows. */
  lemma ExistsAgreesWithFind(d: Directory, m: Long, id: Long)
    ensures UserExists(d, m) <==> FindUserByMessengerId(d, m).Some?
    ensures UserExistsById(d, id) <==> FindUserById(d, id).Some?
  {
  }

  /** `findOrCreateUser(messengerId, userName)`. An account already in the directory
      is returned as stored (its name is not updated) and nothing is written;
      otherwise one user with the next generated id `freshId` and registration time
      `now` is added. */
  function FindOrCreateUser(d: Directory, messengerId: Long, userName: string,
                            freshId: Long, now: Instant): (r: (Directory, UserDto))
    requires freshId !in d.users
    ensures LookupMessenger(d, messengerId).Some? ==>
              r.0 == d && r.1 == ToDto(LookupMessenger(d, messengerId).value)
    ensures LookupMessenger(d, messengerId).None? ==>
              && r.1 == UserDto(freshId, messengerId, userName)
              && r.0.users.Keys == d.users.Keys + {freshId}
              && r.0.users[freshId] == User(freshId, messengerId, userName, now)
              && (forall id :: id in d.users ==> r.0.users[id] == d.users[id])
    ensures Valid(d) ==> Valid(r.0)
    ensures Valid(d) ==> r.1.messengerId == messengerId && r.1.id in r.0.users
    ensures Valid(d) ==> LookupMessenger(r.0, messengerId) == Some(r.0.users[r.1.id])
  {
    match LookupMessenger(d, messengerId)
    case Some(u) => (d, ToDto(u))
    case None =>
      var u := User(freshId, messengerId, userName, now);
      var d' := Directory(d.users[freshId := u], d.byMessengerId[messengerId := freshId]);
      assert Valid(d) ==> Valid(d') by {
        if Valid(d) {
          assert messengerId !in d.byMessengerId;
          forall id | id in d'.users
            ensures d'.users[id].messengerId in d'.byMessengerId
            ensures d'.byMessengerId[d'.users[id].messengerId] == id
          {
            if id != freshId {
              assert d'.users[id] == d.users[id];
            }
          }
        }
      }
      (d', ToDto(u))
  }

  /** Registration is idempotent: a second call with the same messenger id, whatever
      name and clock it is given, returns the same internal id and writes nothing,
      so two calls add at most one user. */
  lemma FindOrCreateTwice(d: Directory, messengerId: Long,
                           name1: string, name2: string,
                           fresh1: Long, fresh2: Long,
                           now1: Instant, now2: Instant)
    requires Valid(d)
    requires fresh1 !in d.users
    requires fresh2 !in FindOrCreateUser(d, messengerId, name1, fresh1, now1).0.users
    ensures var (d1, u1) := FindOrCreateUser(d, messengerId, name1, fresh1, now1);
            var (d2, u2) := FindOrCreateUser(d1, messengerId, name2, fresh2, now2);
            && d2 == d1 && u2 == u1
            && |d2.users| <= |d.users| + 1
  {
    var (d1, u1) := FindOrCreateUser(d, messengerId, name1, fresh1, now1);
    assert LookupMessenger(d1, messengerId).Some?;
    if LookupMessenger(d, messengerId).None? {
      assert d1.users.Keys == d.users.Keys + {fresh1};
      assert |d1.users.Keys| <= |d.users.Keys| + 1;
    }
  }

  /** The first user of an empty directory is stored under the fresh id, with the
      name and the registration time given, and is the only one indexed. */
  lemma FirstRegistration(messengerId: Long, userName: string, freshId: Long, now: Instant)
    ensures var (d, u) := FindOrCreateUser(EmptyDirectory(), messengerId, userName, freshId, now);
            && d.users == map[freshId := User(freshId, messengerId, userName, now)]
            && d.byMessengerId == map[messengerId := freshId]
            && u == UserDto(freshId, messengerId, userName)
  {
    var e := EmptyDirectory();
    assert LookupMessenger(e, messengerId).None?;
  }
}
