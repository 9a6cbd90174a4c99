/**
 * A like table: the set of (userId, entityId) rows of the book-like or the
 * chapter-like relation.  Being a set, it holds each pair at most once, which
 * is what the store's composite unique key (`userId_bookId`,
 * `userId_chapterId`) guarantees.  Counts are recomputed from the rows, never
 * cached.
 */
module LikeTable {

  /** A like row: (userId, entityId). */
  type Row = (int, int)

  type Table = set<Row>

  predicate Liked(t: Table, userId: int, entityId: int) {
    (userId, entityId) in t
  }

  /** The rows that reference one entity. */
  function EntityRows(t: Table, entityId: int): set<Row> {
    set r | r in t && r.1 == entityId
  }

  /** The rows that belong to one user. */
  function UserRows(t: Table, userId: int): set<Row> {
    set r | r in t && r.0 == userId
  }

  /** `count({ where: { entityId } })`. */
  function Count(t: Table, entityId: int): nat {
    |EntityRows(t, entityId)|
  }

  /** The users who like an entity. */
  function Likers(t: Table, entityId: int): set<int> {
    set r | r in t && r.1 == entityId :: r.0
  }

  /** Every row refers to an existing user and an existing entity (the foreign keys). */
  ghost predicate References(t: Table, users: set<int>, entities: set<int>) {
    forall r | r in t :: r.0 in users && r.1 in entities
  }

  function Insert(t: Table, userId: int, entityId: int): Table {
    t + {(userId, entityId)}
  }

  function Delete(t: Table, userId: int, entityId: int): Table {
    t - {(userId, entityId)}
  }

  /** The table after one toggle: the pair is deleted if present and inserted if absent. */
  function Toggle(t: Table, userId: int, entityId: int): (t': Table)
    ensures Liked(t', userId, entityId) == !Liked(t, userId, entityId)
    ensures forall u, e | (u, e) != (userId, entityId) :: Liked(t', u, e) == Liked(t, u, e)
  {
    if Liked(t, userId, entityId) then Delete(t, userId, entityId) else Insert(t, userId, entityId)
  }

  /** Inserting a new pair adds one to its entity's count and leaves every other count alone. */
  lemma CountInsert(t: Table, userId: int, entityId: int, e: int)
    requires !Liked(t, userId, entityId)
    ensures Count(Insert(t, userId, entityId), e) == Count(t, e) + (if e == entityId then 1 else 0)
  {
    if e == entityId {
      assert EntityRows(Insert(t, userId, entityId), e) == EntityRows(t, e) + {(userId, entityId)};
    } else {
      assert EntityRows(Insert(t, userId, entityId), e) == EntityRows(t, e);
    }
  }

  /** Deleting a present pair takes one from its entity's count and leaves every other count alone. */
  lemma CountDelete(t: Table, userId: int, entityId: int, e: int)
    requires Liked(t, userId, entityId)
    ensures Count(Delete(t, userId, entityId), e) == Count(t, e) - (if e == entityId then 1 else 0)
  {
    if e == entityId {
      assert EntityRows(Delete(t, userId, entityId), e) == EntityRows(t, e) - {(userId, entityId)};
    } else {
      assert EntityRows(Delete(t, userId, entityId), e) == EntityRows(t, e);
    }
  }

  /** A toggle moves its entity's count by exactly one, in the direction of the new state. */
  lemma CountToggle(t: Table, userId: int, entityId: int)
    ensures Count(Toggle(t, userId, entityId), entityId)
         == if Liked(t, userId, entityId) then Count(t, entityId) - 1 else Count(t, entityId) + 1
    ensures forall e | e != entityId :: Count(Toggle(t, userId, entityId), e) == Count(t, e)
  {
    CountAfterToggle(t, userId, entityId, entityId);
    forall e | e != entityId
      ensures Count(Toggle(t, userId, entityId), e) == Count(t, e)
    {
      CountAfterToggle(t, userId, entityId, e);
    }
  }

  lemma CountAfterToggle(t: Table, userId: int, entityId: int, e: int)
    ensures Count(Toggle(t, userId, entityId), e)
         == if e != entityId then Count(t, e)
            else if Liked(t, userId, entityId) then Count(t, e) - 1
            else Count(t, e) + 1
  {
    if Liked(t, userId, entityId) {
      CountDelete(t, userId, entityId, e);
    } else {
      CountInsert(t, userId, entityId, e);
    }
  }

  /** Two toggles of the same pair restore the table. */
  lemma ToggleTwice(t: Table, userId: int, entityId: int)
    ensures Toggle(Toggle(t, userId, entityId), userId, entityId) == t
  {
    var p := (userId, entityId);
    if p in t {
      assert t - {p} + {p} == t;
    } else {
      assert t + {p} - {p} == t;
    }
  }

  /** A liked entity has at least one like. */
  lemma LikedCountPositive(t: Table, userId: int, entityId: int)
    requires Liked(t, userId, entityId)
    ensures Count(t, entityId) >= 1
  {
    assert (userId, entityId) in EntityRows(t, entityId);
  }

  /** Each row of an entity comes from a different user, so the count is the number of likers. */
  lemma {:induction false} CountIsLikers(t: Table, entityId: int)
    ensures Count(t, entityId) == |Likers(t, entityId)|
    decreases |t|
  {
    if t != {} {
      var r :| r in t;
      var rest := t - {r};
      CountIsLikers(rest, entityId);
      if r.1 == entityId {
        assert EntityRows(t, entityId) == EntityRows(rest, entityId) + {r};
        assert Likers(t, entityId) == Likers(rest, entityId) + {r.0};
      } else {
        assert EntityRows(t, entityId) == EntityRows(rest, entityId);
        assert Likers(t, entityId) == Likers(rest, entityId);
      }
    } else {
      assert Likers(t, entityId) == {};
    }
  }

  lemma {:induction false} SubsetCardinality<T>(a: set<T>, b: set<T>)
    requires a <= b
    ensures |a| <= |b|
    decreases |a|
  {
    if a != {} {
      var x :| x in a;
      SubsetCardinality(a - {x}, b - {x});
    }
  }

  /**
   * Under the foreign keys, an entity has at most one like per existing user,
   * and an entity that does not exist has none.
   */
  lemma CountBounds(t: Table, users: set<int>, entities: set<int>, entityId: int)
    ensures References(t, users, entities) ==> Count(t, entityId) <= |users|
    ensures References(t, users, entities) && entityId !in entities ==> Count(t, entityId) == 0
  {
    if References(t, users, entities) {
      CountIsLikers(t, entityId);
      SubsetCardinality(Likers(t, entityId), users);
      if entityId !in entities {
        assert EntityRows(t, entityId) == {};
      }
    }
  }

  /** Inserting a pair of existing ids keeps the foreign keys. */
  lemma InsertKeepsReferences(t: Table, users: set<int>, entities: set<int>, userId: int, entityId: int)
    requires References(t, users, entities) && userId in users && entityId in entities
    ensures References(Insert(t, userId, entityId), users, entities)
  {
  }

  /** Deleting any pair keeps the foreign keys. */
  lemma DeleteKeepsReferences(t: Table, users: set<int>, entities: set<int>, userId: int, entityId: int)
    requires References(t, users, entities)
    ensures References(Delete(t, userId, entityId), users, entities)
  {
  }

  /** Under the foreign keys, a user that does not exist owns no rows. */
  lemma NoRowsWithoutUser(t: Table, users: set<int>, entities: set<int>, userId: int)
    ensures References(t, users, entities) && userId !in users ==> UserRows(t, userId) == {}
  {
  }

  /** `s` lists the rows of `rows`, each exactly once, in some order. */
  ghost predicate Enumerates(s: seq<Row>, rows: set<Row>) {
    && |s| == |rows|
    && (forall r :: r in s <==> r in rows)
    && (forall i, j | 0 <= i < j < |s| :: s[i] != s[j])
  }

  /**
   * `findMany({ where: { userId } })`: the user's rows, each once, in an order
   * the store does not specify (the method may pick any).
   */
  method FindUserRows(t: Table, userId: int) returns (s: seq<Row>)
    ensures Enumerates(s, UserRows(t, userId))
  {
    var pending := UserRows(t, userId);
    s := [];
    while pending != {}
      invariant forall r :: r in s || r in pending <==> r in UserRows(t, userId)
      invariant forall r | r in s :: r !in pending
      invariant |s| + |pending| == |UserRows(t, userId)|
      invariant forall i, j | 0 <= i < j < |s| :: s[i] != s[j]
      decreases |pending|
    {
      var r :| r in pending;
      s := s + [r];
      pending := pending - {r};
    }
  }
}
