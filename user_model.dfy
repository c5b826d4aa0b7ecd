/**
 * The record store of the user service as a value: the map from id to user
 * and the next id the counter will hand out, with one function per operation.
 * The class UserServiceImpl is proved against these functions; the lemmas
 * here state what the operations promise, singly and over whole call
 * sequences.
 */
module UserModel {
  import Decimal

  const MinLong: int := -0x8000_0000_0000_0000
  const MaxLong: int := 0x7fff_ffff_ffff_ffff
  const MinInt: int := -0x8000_0000
  const MaxInt: int := 0x7fff_ffff

  /** Java's long and int. */
  type Int64 = x: int | MinLong <= x <= MaxLong
  type Int32 = x: int | MinInt <= x <= MaxInt

  datatype User = User(id: Int64, name: string, age: Int32)

  /**
   * TApplicationException type codes of the Thrift runtime; only the two the
   * handler raises are named.
   */
  const INVALID_MESSAGE_TYPE: int := 2
  const WRONG_METHOD_NAME: int := 3

  /**
   * The outcome of a handler call: a result, the service's declared
   * UserNotFoundException, or a framework-level TApplicationException with its
   * type code.
   */
  datatype Outcome<T> =
    | Ok(value: T)
    | NotFound(message: string)
    | AppError(kind: int, message: string)

  /** The message of every UserNotFoundException the handler throws. */
  function NotFoundMessage(id: Int64): string {
    "User with ID " + Decimal.IntToDecimal(id) + " not found"
  }

  /** Different ids give different messages: the message identifies the missing id. */
  lemma {:induction false} NotFoundMessageInjective(a: Int64, b: Int64)
    ensures NotFoundMessage(a) == NotFoundMessage(b) ==> a == b
  {
    if NotFoundMessage(a) == NotFoundMessage(b) {
      var p, q := "User with ID ", " not found";
      var da, db := Decimal.IntToDecimal(a), Decimal.IntToDecimal(b);
      assert |da| == |db|;
      assert da == NotFoundMessage(a)[|p|..|p| + |da|];
      assert db == NotFoundMessage(b)[|p|..|p| + |db|];
      Decimal.IntToDecimalInjective(a, b);
    }
  }

  datatype Store = Store(users: map<Int64, User>, nextId: nat)

  /** The fields as the constructor sets them: no users, counter at 1. */
  function Empty(): Store {
    Store(map[], 1)
  }

  /** Every record is stored under its own id, and every id is below the next one to be issued. */
  ghost predicate Invariant(s: Store) {
    && 1 <= s.nextId
    && forall k :: k in s.users ==> s.users[k].id == k && 1 <= k < s.nextId
  }

  /** createUser: take the next id, store the new record under it. */
  function CreateUser(s: Store, name: string, age: Int32): (Store, User)
    requires s.nextId <= MaxLong
  {
    var u := User(s.nextId, name, age);
    (Store(s.users[u.id := u], s.nextId + 1), u)
  }

  /** getUser */
  function GetUser(s: Store, id: Int64): Outcome<User> {
    if id in s.users then Ok(s.users[id]) else NotFound(NotFoundMessage(id))
  }

  /** updateUser */
  function UpdateUser(s: Store, u: User): (Store, Outcome<User>) {
    if u.id !in s.users then (s, NotFound(NotFoundMessage(u.id)))
    else (Store(s.users[u.id := u], s.nextId), Ok(u))
  }

  /** deleteUser */
  function DeleteUser(s: Store, id: Int64): (Store, Outcome<()>) {
    if id !in s.users then (s, NotFound(NotFoundMessage(id)))
    else (Store(s.users - {id}, s.nextId), Ok(()))
  }

  /**
   * What getAllUsers may return: every stored record exactly once, in any
   * order (HashMap iteration order is unspecified).
   */
  ghost predicate IsListing(s: Store, all: seq<User>) {
    && (forall i, j :: 0 <= i < j < |all| ==> all[i] != all[j])
    && (forall u :: u in all <==> u in s.users.Values)
  }

  // ----- single operations -------------------------------------------------

  /** The empty store satisfies the invariant, and its first create issues id 1. */
  lemma {:induction false} EmptyStore()
    ensures Invariant(Empty())
    ensures forall name, age :: CreateUser(Empty(), name, age).1.id == 1
    ensures forall all :: IsListing(Empty(), all) ==> all == []
  {
    forall all | IsListing(Empty(), all) ensures all == [] {
      ListingSize(Empty(), all);
    }
  }

  /**
   * createUser issues an id no stored record has, stores exactly the new
   * record User(id, name, age) without checking name or age, advances the
   * counter by one, keeps the invariant, and a following getUser returns it.
   */
  lemma {:induction false} CreateUserSpec(s: Store, name: string, age: Int32)
    requires Invariant(s) && s.nextId <= MaxLong
    ensures var (t, u) := CreateUser(s, name, age);
      && u == User(s.nextId, name, age)
      && u.id !in s.users
      && t.users.Keys == s.users.Keys + {u.id}
      && (forall k :: k in s.users ==> t.users[k] == s.users[k])
      && t.nextId == s.nextId + 1
      && |t.users| == |s.users| + 1
      && Invariant(t)
      && GetUser(t, u.id) == Ok(u)
  {
  }

  /** getUser finds exactly the stored ids, and otherwise reports the id that was asked for. */
  lemma {:induction false} GetUserSpec(s: Store, id: Int64)
    ensures GetUser(s, id).Ok? <==> id in s.users
    ensures GetUser(s, id).Ok? ==> GetUser(s, id).value == s.users[id] && (Invariant(s) ==> GetUser(s, id).value.id == id)
    ensures !GetUser(s, id).Ok? ==> GetUser(s, id) == NotFound(NotFoundMessage(id))
  {
  }

  /**
   * updateUser of a stored id replaces exactly that record and returns its
   * argument; of an absent id it reports NotFound and changes nothing. Either
   * way the counter is untouched and the invariant kept.
   */
  lemma {:induction false} UpdateUserSpec(s: Store, u: User)
    requires Invariant(s)
    ensures var (t, r) := UpdateUser(s, u);
      && t.nextId == s.nextId
      && Invariant(t)
      && (u.id in s.users ==> r == Ok(u) && GetUser(t, u.id) == Ok(u) && t.users.Keys == s.users.Keys)
      && (u.id !in s.users ==> r == NotFound(NotFoundMessage(u.id)) && t == s)
      && (forall id :: id != u.id ==> GetUser(t, id) == GetUser(s, id))
  {
  }

  /**
   * deleteUser of a stored id removes exactly that key, after which getUser of
   * it reports NotFound; of an absent id it reports NotFound and changes
   * nothing. Other records are untouched and the invariant kept.
   */
  lemma {:induction false} DeleteUserSpec(s: Store, id: Int64)
    requires Invariant(s)
    ensures var (t, r) := DeleteUser(s, id);
      && t.nextId == s.nextId
      && Invariant(t)
      && (r.Ok? <==> id in s.users)
      && (!r.Ok? ==> r == NotFound(NotFoundMessage(id)) && t == s)
      && (r.Ok? ==> t.users.Keys == s.users.Keys - {id} && |t.users| == |s.users| - 1)
      && GetUser(t, id) == NotFound(NotFoundMessage(id))
      && (forall other :: other != id ==> GetUser(t, other) == GetUser(s, other))
  {
  }

  // ----- listings ------------------------------------------------------------

  /** Under the invariant no two keys hold the same record, so there are as many records as keys. */
  lemma {:induction false} ValuesCount(m: map<Int64, User>)
    requires forall k :: k in m ==> m[k].id == k
    ensures |m.Values| == |m|
    decreases |m|
  {
    if m != map[] {
      var k :| k in m;
      var rest := m - {k};
      assert m.Values == rest.Values + {m[k]} by {
        forall v | v in m.Values ensures v in rest.Values + {m[k]} {
          var j :| j in m && m[j] == v;
          if j != k { assert rest[j] == v; }
        }
      }
      forall v | v in rest.Values ensures v != m[k] {
        var j :| j in rest && rest[j] == v;
        assert v.id == j != k;
      }
      ValuesCount(rest);
    }
  }

  lemma {:induction false} DistinctSeqCount(all: seq<User>)
    requires forall i, j :: 0 <= i < j < |all| ==> all[i] != all[j]
    ensures |set u | u in all| == |all|
  {
    if all != [] {
      var rest := all[1..];
      assert (set u | u in all) == (set u | u in rest) + {all[0]};
      forall j | 0 <= j < |rest| ensures rest[j] != all[0] {
        assert rest[j] == all[j + 1];
      }
      DistinctSeqCount(rest);
    }
  }

  /** A listing has one entry per stored record. */
  lemma {:induction false} ListingSize(s: Store, all: seq<User>)
    requires Invariant(s) && IsListing(s, all)
    ensures |all| == |s.users|
  {
    DistinctSeqCount(all);
    assert (set u | u in all) == s.users.Values;
    ValuesCount(s.users);
  }

  lemma {:induction false} DistinctSeqMultiset(all: seq<User>, u: User)
    requires forall i, j :: 0 <= i < j < |all| ==> all[i] != all[j]
    ensures multiset(all)[u] == if u in all then 1 else 0
  {
    if all != [] {
      assert all == [all[0]] + all[1..];
      forall j | 0 <= j < |all| - 1 ensures all[1..][j] != all[0] {
        assert all[1..][j] == all[j + 1];
      }
      DistinctSeqMultiset(all[1..], u);
    }
  }

  /** Any two listings of the same store are permutations of each other. */
  lemma {:induction false} ListingsArePermutations(s: Store, a: seq<User>, b: seq<User>)
    requires IsListing(s, a) && IsListing(s, b)
    ensures multiset(a) == multiset(b)
  {
    forall u ensures multiset(a)[u] == multiset(b)[u] {
      DistinctSeqMultiset(a, u);
      DistinctSeqMultiset(b, u);
    }
  }

  // ----- call sequences ------------------------------------------------------

  /** A call that changes the store; getUser and getAllUsers change nothing. */
  datatype Op =
    | Create(name: string, age: Int32)
    | Update(user: User)
    | Delete(id: Int64)

  function CreateCount(ops: seq<Op>): nat {
    if ops == [] then 0 else (if ops[0].Create? then 1 else 0) + CreateCount(ops[1..])
  }

  /** The store after the calls `ops`, made one after another on `s`. */
  function Run(s: Store, ops: seq<Op>): Store
    requires s.nextId + CreateCount(ops) <= MaxLong + 1
    decreases |ops|
  {
    if ops == [] then s
    else
      var t := match ops[0]
        case Create(name, age) => CreateUser(s, name, age).0
        case Update(u) => UpdateUser(s, u).0
        case Delete(id) => DeleteUser(s, id).0;
      Run(t, ops[1..])
  }

  /** The ids the creates among `ops` return, in call order. */
  function IssuedIds(s: Store, ops: seq<Op>): seq<int>
    requires s.nextId + CreateCount(ops) <= MaxLong + 1
    decreases |ops|
  {
    if ops == [] then []
    else
      match ops[0]
      case Create(name, age) =>
        var (t, u) := CreateUser(s, name, age);
        [u.id as int] + IssuedIds(t, ops[1..])
      case Update(u) => IssuedIds(UpdateUser(s, u).0, ops[1..])
      case Delete(id) => IssuedIds(DeleteUser(s, id).0, ops[1..])
  }

  /** How many of the deletes among `ops` find their record. */
  function RemovedCount(s: Store, ops: seq<Op>): nat
    requires s.nextId + CreateCount(ops) <= MaxLong + 1
    decreases |ops|
  {
    if ops == [] then 0
    else
      match ops[0]
      case Create(name, age) => RemovedCount(CreateUser(s, name, age).0, ops[1..])
      case Update(u) => RemovedCount(UpdateUser(s, u).0, ops[1..])
      case Delete(id) => (if id in s.users then 1 else 0) + RemovedCount(DeleteUser(s, id).0, ops[1..])
  }

  /** Every call sequence keeps the invariant. */
  lemma {:induction false} RunKeepsInvariant(s: Store, ops: seq<Op>)
    requires Invariant(s) && s.nextId + CreateCount(ops) <= MaxLong + 1
    ensures Invariant(Run(s, ops))
    decreases |ops|
  {
    if ops != [] {
      match ops[0]
      case Create(name, age) => CreateUserSpec(s, name, age); RunKeepsInvariant(CreateUser(s, name, age).0, ops[1..]);
      case Update(u) => UpdateUserSpec(s, u); RunKeepsInvariant(UpdateUser(s, u).0, ops[1..]);
      case Delete(id) => DeleteUserSpec(s, id); RunKeepsInvariant(DeleteUser(s, id).0, ops[1..]);
    }
  }

  /**
   * The creates of a call sequence return consecutive ids starting at the
   * counter, whatever updates and deletes come between; the counter ends
   * advanced by the number of creates. So no id is ever issued twice.
   */
  lemma {:induction false} IdsAreConsecutive(s: Store, ops: seq<Op>)
    requires s.nextId + CreateCount(ops) <= MaxLong + 1
    ensures |IssuedIds(s, ops)| == CreateCount(ops)
    ensures forall i :: 0 <= i < |IssuedIds(s, ops)| ==> IssuedIds(s, ops)[i] == s.nextId + i
    ensures Run(s, ops).nextId == s.nextId + CreateCount(ops)
    decreases |ops|
  {
    if ops != [] {
      match ops[0]
      case Create(name, age) => IdsAreConsecutive(CreateUser(s, name, age).0, ops[1..]);
      case Update(u) => IdsAreConsecutive(UpdateUser(s, u).0, ops[1..]);
      case Delete(id) => IdsAreConsecutive(DeleteUser(s, id).0, ops[1..]);
    }
  }

  /** Starting from a fresh store, the n-th create returns id n. */
  lemma {:induction false} FreshStoreIssuesFromOne(ops: seq<Op>)
    requires 1 + CreateCount(ops) <= MaxLong + 1
    ensures forall i :: 0 <= i < |IssuedIds(Empty(), ops)| ==> IssuedIds(Empty(), ops)[i] == i + 1
  {
    IdsAreConsecutive(Empty(), ops);
  }

  /** The number of stored records is the creates minus the deletes that found their record. */
  lemma {:induction false} RunSize(s: Store, ops: seq<Op>)
    requires Invariant(s) && s.nextId + CreateCount(ops) <= MaxLong + 1
    ensures |Run(s, ops).users| == |s.users| + CreateCount(ops) - RemovedCount(s, ops)
    decreases |ops|
  {
    if ops != [] {
      match ops[0]
      case Create(name, age) => CreateUserSpec(s, name, age); RunSize(CreateUser(s, name, age).0, ops[1..]);
      case Update(u) => UpdateUserSpec(s, u); RunSize(UpdateUser(s, u).0, ops[1..]);
      case Delete(id) => DeleteUserSpec(s, id); RunSize(DeleteUser(s, id).0, ops[1..]);
    }
  }
}
