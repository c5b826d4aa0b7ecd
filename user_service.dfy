/**
 * The handler of the user service: a record store held in two fields that its
 * methods update in place, and a stateless validation call that reports bad
 * input through the framework's TApplicationException rather than through a
 * declared exception.
 */
module UserService {
  import opened Wrappers
  import opened Text
  import Decimal
  import opened UserModel

  class UserServiceImpl {
    /** `users`: the HashMap from id to record. */
    var users: map<Int64, User>
    /** `idGenerator`: the value the next getAndIncrement returns. */
    var nextId: nat

    function State(): Store
      reads this
    {
      Store(users, nextId)
    }

    ghost predicate Valid()
      reads this
    {
      Invariant(State())
    }

    constructor ()
      ensures Valid() && State() == Empty()
    {
      users := map[];
      nextId := 1;
    }

    method CreateUser(name: string, age: Int32) returns (user: User)
      requires Valid() && nextId <= MaxLong
      modifies this
      ensures Valid()
      ensures (State(), user) == UserModel.CreateUser(old(State()), name, age)
      ensures user == User(old(nextId), name, age) && user.id !in old(users)
      ensures users == old(users)[user.id := user] && nextId == old(nextId) + 1
    {
      var id: Int64 := nextId;
      nextId := nextId + 1;
      user := User(id, name, age);
      users := users[id := user];
    }

    method GetUser(userId: Int64) returns (r: Outcome<User>)
      requires Valid()
      ensures r == UserModel.GetUser(State(), userId)
      ensures r.Ok? <==> userId in users
      ensures r.Ok? ==> r.value == users[userId] && r.value.id == userId
      ensures !r.Ok? ==> r == NotFound(NotFoundMessage(userId))
    {
      if userId !in users {
        r := NotFound(NotFoundMessage(userId));
        return;
      }
      r := Ok(users[userId]);
    }

    method UpdateUser(user: User) returns (r: Outcome<User>)
      requires Valid()
      modifies this
      ensures Valid()
      ensures (State(), r) == UserModel.UpdateUser(old(State()), user)
      ensures user.id in old(users) ==> r == Ok(user) && users == old(users)[user.id := user]
      ensures user.id !in old(users) ==> r == NotFound(NotFoundMessage(user.id)) && users == old(users)
      ensures nextId == old(nextId)
    {
      if user.id !in users {
        r := NotFound(NotFoundMessage(user.id));
        return;
      }
      users := users[user.id := user];
      r := Ok(user);
    }

    method DeleteUser(userId: Int64) returns (r: Outcome<()>)
      requires Valid()
      modifies this
      ensures Valid()
      ensures (State(), r) == UserModel.DeleteUser(old(State()), userId)
      ensures userId in old(users) ==> r == Ok(()) && users == old(users) - {userId}
      ensures userId !in old(users) ==> r == NotFound(NotFoundMessage(userId)) && users == old(users)
      ensures nextId == old(nextId)
    {
      if userId !in users {
        r := NotFound(NotFoundMessage(userId));
        return;
      }
      users := users - {userId};
      r := Ok(());
    }

    /** Collects the stored records in whatever order the map is walked. */
    method GetAllUsers() returns (all: seq<User>)
      requires Valid()
      ensures IsListing(State(), all)
      ensures |all| == |users|
    {
      all := [];
      var remaining := users.Keys;
      while remaining != {}
        invariant remaining <= users.Keys
        invariant forall i, j :: 0 <= i < j < |all| ==> all[i] != all[j]
        invariant forall u :: u in all <==> u in users.Values && u.id !in remaining
        decreases |remaining|
      {
        var k :| k in remaining;
        forall u | u in users.Values && u.id == k ensures u == users[k] {
          var j :| j in users && users[j] == u;
        }
        all := all + [users[k]];
        remaining := remaining - {k};
      }
      ListingSize(State(), all);
    }
  }

  /**
   * The unit tests' create-read-update-delete lifecycle, as a caller of the
   * class can reason about it from its contracts alone.
   */
  method CrudLifecycle()
  {
    var service := new UserServiceImpl();
    var created := service.CreateUser("Lifecycle User", 25);
    assert created.id == 1;
    var read := service.GetUser(created.id);
    assert read == Ok(created);
    var updated := service.UpdateUser(User(created.id, "Updated Lifecycle User", 26));
    read := service.GetUser(created.id);
    assert read == Ok(User(1, "Updated Lifecycle User", 26));
    var deleted := service.DeleteUser(created.id);
    assert deleted.Ok?;
    read := service.GetUser(created.id);
    assert read.NotFound?;
    var again := service.CreateUser("Next User", 30);
    assert again.id == 2;
    var all := service.GetAllUsers();
    assert |all| == 1;
  }

  /** The unit tests' integrity scenario: four creates, delete the third, three remain and none has its id. */
  method DataIntegrity()
  {
    var service := new UserServiceImpl();
    var u1 := service.CreateUser("User1", 20);
    var u2 := service.CreateUser("User2", 30);
    var u3 := service.CreateUser("User3", 40);
    var u4 := service.CreateUser("User4", 50);
    assert service.users.Keys == {1, 2, 3, 4};
    var deleted := service.DeleteUser(u3.id);
    assert service.users.Keys == {1, 2, 4};
    var remaining := service.GetAllUsers();
    assert |remaining| == 3;
    forall u | u in remaining ensures u.id != u3.id {
      var k :| k in service.users && service.users[k] == u;
      assert u.id == k;
    }
  }

  /** Java's rendering of a boolean in string concatenation. */
  function BoolToString(b: bool): string {
    if b then "true" else "false"
  }

  /**
   * validateUserData: the name check comes first, then the age range; errors
   * are TApplicationExceptions with the codes and messages the handler uses.
   */
  function ValidateUserData(name: Option<string>, age: Int32, isActive: bool): Outcome<string> {
    if name.None? || Strip(JavaTrim, name.value) == [] then
      AppError(INVALID_MESSAGE_TYPE, "Name cannot be null or empty")
    else if age < 0 || age > 150 then
      AppError(WRONG_METHOD_NAME, "Age must be between 0 and 150")
    else
      Ok("User data is valid: " + name.value + " (age: " + Decimal.IntToDecimal(age)
        + ", active: " + BoolToString(isActive) + ")")
  }

  /**
   * The exact error conditions of validateUserData: a null name or one made of
   * characters up to U+0020 alone is INVALID_MESSAGE_TYPE whatever the age;
   * otherwise an age outside 0..150 is WRONG_METHOD_NAME; otherwise the call
   * succeeds with a message that starts by naming the user. It never reports
   * the declared NotFound.
   */
  lemma {:induction false} ValidateUserDataSpec(name: Option<string>, age: Int32, isActive: bool)
    ensures var r := ValidateUserData(name, age, isActive);
      && !r.NotFound?
      && (r == AppError(INVALID_MESSAGE_TYPE, "Name cannot be null or empty") <==>
            name.None? || AllSpace(JavaTrim, name.value))
      && (r == AppError(WRONG_METHOD_NAME, "Age must be between 0 and 150") <==>
            name.Some? && !AllSpace(JavaTrim, name.value) && (age < 0 || age > 150))
      && (r.Ok? <==> name.Some? && !AllSpace(JavaTrim, name.value) && 0 <= age <= 150)
  {
    if name.Some? {
      StripEmptyIff(JavaTrim, name.value);
    }
  }

  /** A successful validation's message starts by naming the user. */
  lemma {:induction false} ValidMessageNamesUser(name: Option<string>, age: Int32, isActive: bool)
    requires ValidateUserData(name, age, isActive).Ok?
    ensures name.Some?
    ensures var m, p := ValidateUserData(name, age, isActive).value, "User data is valid: " + name.value;
      |p| <= |m| && m[..|p|] == p
  {
  }

  /** Any name whose first character is above U+0020 passes, with every age from 0 to 150 inclusive. */
  lemma {:induction false} AcceptedWhenNamed(name: string, age: Int32, isActive: bool)
    requires name != [] && name[0] > ' ' && 0 <= age <= 150
    ensures ValidateUserData(Some(name), age, isActive).Ok?
  {
    ValidateUserDataSpec(Some(name), age, isActive);
  }

  /** With such a name, ages below 0 and above 150 are rejected as WRONG_METHOD_NAME. */
  lemma {:induction false} RejectedAgeWhenNamed(name: string, age: Int32, isActive: bool)
    requires name != [] && name[0] > ' ' && (age < 0 || age > 150)
    ensures ValidateUserData(Some(name), age, isActive).kind == WRONG_METHOD_NAME
  {
    ValidateUserDataSpec(Some(name), age, isActive);
  }
}
