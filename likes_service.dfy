/**
 * The like coordinator (`LikesService`): existence checks and toggle
 * semantics over the store, projections of a user's likes, and the batch
 * queries that fill a dictionary from id to count or status.  The batch
 * queries issue their reads concurrently in the source; with no writer in
 * between, running them one after another gives the same dictionary.
 */
module LikesService {
  import opened Wrappers
  import opened LikesModels
  import LikeTable
  import opened LikesRepository

  /** The failures the service reports by throwing, one per message. */
  datatype ServiceError =
    | UserNotFound
    | BookNotFound
    | ChapterNotFound
    | UserLikedBooksFailed
    | UserLikedChaptersFailed

  const BookLikeAdded := "Like agregado al libro exitosamente"
  const BookLikeRemoved := "Like removido del libro exitosamente"
  const ChapterLikeAdded := "Like agregado al capítulo exitosamente"
  const ChapterLikeRemoved := "Like removido del capítulo exitosamente"

  /**
   * `toggleBookLike`: after checking that the user and then the book exist,
   * removes the like if there is one and adds it otherwise, then reports the
   * new state with the recounted likes.  A failed check changes nothing.
   */
  method ToggleBookLike(store: LikesStore, likeData: LikeBookData) returns (r: Result<LikeOperation, ServiceError>)
    requires store.Valid()
    modifies store`bookLikes
    ensures store.Valid()
    ensures likeData.userId !in store.users ==>
              r == Failure(UserNotFound) && store.bookLikes == old(store.bookLikes)
    ensures likeData.userId in store.users && likeData.bookId !in store.books ==>
              r == Failure(BookNotFound) && store.bookLikes == old(store.bookLikes)
    ensures likeData.userId in store.users && likeData.bookId in store.books ==>
              && store.bookLikes == LikeTable.Toggle(old(store.bookLikes), likeData.userId, likeData.bookId)
              && r.Success?
              && r.value.success
              && r.value.isLiked == !old(store.IsBookLikedByUser(likeData.userId, likeData.bookId))
              && r.value.message == (if r.value.isLiked then BookLikeAdded else BookLikeRemoved)
              && r.value.likesCount == store.BookLikesCount(likeData.bookId)
              && r.value.likesCount == if r.value.isLiked then old(store.BookLikesCount(likeData.bookId)) + 1
                                       else old(store.BookLikesCount(likeData.bookId)) - 1
  {
    var userId, bookId := likeData.userId, likeData.bookId;
    if !store.UserExists(userId) {
      return Failure(UserNotFound);
    }
    if !store.BookExists(bookId) {
      return Failure(BookNotFound);
    }
    ghost var before := store.bookLikes;
    var isLiked := store.IsBookLikedByUser(userId, bookId);
    var newLikeStatus: bool;
    var message: string;
    if isLiked {
      var _ := store.UnlikeBook(userId, bookId);
      newLikeStatus, message := false, BookLikeRemoved;
    } else {
      var created := store.LikeBook(userId, bookId);
      // The user and the book exist and the pair is absent, so the insert is accepted.
      assert created.Success?;
      newLikeStatus, message := true, BookLikeAdded;
    }
    LikeTable.CountToggle(before, userId, bookId);
    var likesCount := store.BookLikesCount(bookId);
    r := Success(LikeOperation(true, message, newLikeStatus, likesCount));
  }

  /** `toggleChapterLike`: `toggleBookLike` over the chapter table. */
  method ToggleChapterLike(store: LikesStore, likeData: LikeChapterData) returns (r: Result<LikeOperation, ServiceError>)
    requires store.Valid()
    modifies store`chapterLikes
    ensures store.Valid()
    ensures likeData.userId !in store.users ==>
              r == Failure(UserNotFound) && store.chapterLikes == old(store.chapterLikes)
    ensures likeData.userId in store.users && likeData.chapterId !in store.chapters ==>
              r == Failure(ChapterNotFound) && store.chapterLikes == old(store.chapterLikes)
    ensures likeData.userId in store.users && likeData.chapterId in store.chapters ==>
              && store.chapterLikes == LikeTable.Toggle(old(store.chapterLikes), likeData.userId, likeData.chapterId)
              && r.Success?
              && r.value.success
              && r.value.isLiked == !old(store.IsChapterLikedByUser(likeData.userId, likeData.chapterId))
              && r.value.message == (if r.value.isLiked then ChapterLikeAdded else ChapterLikeRemoved)
              && r.value.likesCount == store.ChapterLikesCount(likeData.chapterId)
              && r.value.likesCount == if r.value.isLiked then old(store.ChapterLikesCount(likeData.chapterId)) + 1
                                       else old(store.ChapterLikesCount(likeData.chapterId)) - 1
  {
    var userId, chapterId := likeData.userId, likeData.chapterId;
    if !store.UserExists(userId) {
      return Failure(UserNotFound);
    }
    if !store.ChapterExists(chapterId) {
      return Failure(ChapterNotFound);
    }
    ghost var before := store.chapterLikes;
    var isLiked := store.IsChapterLikedByUser(userId, chapterId);
    var newLikeStatus: bool;
    var message: string;
    if isLiked {
      var _ := store.UnlikeChapter(userId, chapterId);
      newLikeStatus, message := false, ChapterLikeRemoved;
    } else {
      var created := store.LikeChapter(userId, chapterId);
      // The user and the chapter exist and the pair is absent, so the insert is accepted.
      assert created.Success?;
      newLikeStatus, message := true, ChapterLikeAdded;
    }
    LikeTable.CountToggle(before, userId, chapterId);
    var likesCount := store.ChapterLikesCount(chapterId);
    r := Success(LikeOperation(true, message, newLikeStatus, likesCount));
  }

  /** `getBookLikeStatus`: delegation to the store, with no existence checks. */
  function GetBookLikeStatus(store: LikesStore, userId: int, bookId: int): (s: LikeStatus)
    reads store
    ensures s.isLiked <==> LikeTable.Liked(store.bookLikes, userId, bookId)
    ensures s.likesCount == LikeTable.Count(store.bookLikes, bookId)
    ensures s.isLiked ==> s.likesCount >= 1
  {
    store.BookLikeStatus(userId, bookId)
  }

  /** `getChapterLikeStatus`: delegation to the store, with no existence checks. */
  function GetChapterLikeStatus(store: LikesStore, userId: int, chapterId: int): (s: LikeStatus)
    reads store
    ensures s.isLiked <==> LikeTable.Liked(store.chapterLikes, userId, chapterId)
    ensures s.likesCount == LikeTable.Count(store.chapterLikes, chapterId)
    ensures s.isLiked ==> s.likesCount >= 1
  {
    store.ChapterLikeStatus(userId, chapterId)
  }

  /** `getUserLikes`: fails for a user that does not exist, else lists the user's likes. */
  method GetUserLikes(store: LikesStore, userId: int) returns (r: Result<UserLikes, ServiceError>)
    ensures r.Failure? <==> userId !in store.users
    ensures r.Failure? ==> r.error == UserNotFound
    ensures r.Success? ==> DescribesUserLikes(store.bookLikes, store.chapterLikes, userId, r.value)
  {
    if !store.UserExists(userId) {
      return Failure(UserNotFound);
    }
    var likes := store.GetUserLikes(userId);
    r := Success(likes);
  }

  /**
   * `getUserLikedBooks`: the `likedBooks` part of `getUserLikes`; its own
   * catch replaces any failure with its own error.
   */
  method GetUserLikedBooks(store: LikesStore, userId: int) returns (r: Result<seq<BookLikeRecord>, ServiceError>)
    ensures r.Failure? <==> userId !in store.users
    ensures r.Failure? ==> r.error == UserLikedBooksFailed
    ensures r.Success? ==> ListsBookLikes(r.value, LikeTable.UserRows(store.bookLikes, userId))
  {
    var userLikes := GetUserLikes(store, userId);
    match userLikes
    case Failure(_) => r := Failure(UserLikedBooksFailed);
    case Success(v) => r := Success(v.likedBooks);
  }

  /** `getUserLikedChapters`: the `likedChapters` part of `getUserLikes`. */
  method GetUserLikedChapters(store: LikesStore, userId: int) returns (r: Result<seq<ChapterLikeRecord>, ServiceError>)
    ensures r.Failure? <==> userId !in store.users
    ensures r.Failure? ==> r.error == UserLikedChaptersFailed
    ensures r.Success? ==> ListsChapterLikes(r.value, LikeTable.UserRows(store.chapterLikes, userId))
  {
    var userLikes := GetUserLikes(store, userId);
    match userLikes
    case Failure(_) => r := Failure(UserLikedChaptersFailed);
    case Success(v) => r := Success(v.likedChapters);
  }

  /** `getMultipleBookLikesCount`: one entry per distinct input id, holding that book's count. */
  method GetMultipleBookLikesCount(store: LikesStore, bookIds: seq<int>) returns (likesCount: map<int, nat>)
    ensures likesCount.Keys == set id | id in bookIds
    ensures forall id | id in likesCount :: likesCount[id] == LikeTable.Count(store.bookLikes, id)
  {
    likesCount := map[];
    for i := 0 to |bookIds|
      invariant likesCount.Keys == set id | id in bookIds[..i]
      invariant forall id | id in likesCount :: likesCount[id] == LikeTable.Count(store.bookLikes, id)
    {
      var count := store.BookLikesCount(bookIds[i]);
      likesCount := likesCount[bookIds[i] := count];
      assert bookIds[..i + 1] == bookIds[..i] + [bookIds[i]];
    }
    assert bookIds[..|bookIds|] == bookIds;
  }

  /** `getMultipleChapterLikesCount`: one entry per distinct input id, holding that chapter's count. */
  method GetMultipleChapterLikesCount(store: LikesStore, chapterIds: seq<int>) returns (likesCount: map<int, nat>)
    ensures likesCount.Keys == set id | id in chapterIds
    ensures forall id | id in likesCount :: likesCount[id] == LikeTable.Count(store.chapterLikes, id)
  {
    likesCount := map[];
    for i := 0 to |chapterIds|
      invariant likesCount.Keys == set id | id in chapterIds[..i]
      invariant forall id | id in likesCount :: likesCount[id] == LikeTable.Count(store.chapterLikes, id)
    {
      var count := store.ChapterLikesCount(chapterIds[i]);
      likesCount := likesCount[chapterIds[i] := count];
      assert chapterIds[..i + 1] == chapterIds[..i] + [chapterIds[i]];
    }
    assert chapterIds[..|chapterIds|] == chapterIds;
  }

  /** `getMultipleBookLikeStatus`: one entry per distinct input id, holding the user's status for it. */
  method GetMultipleBookLikeStatus(store: LikesStore, userId: int, bookIds: seq<int>) returns (likeStatuses: map<int, LikeStatus>)
    ensures likeStatuses.Keys == set id | id in bookIds
    ensures forall id | id in likeStatuses :: likeStatuses[id] == GetBookLikeStatus(store, userId, id)
  {
    likeStatuses := map[];
    for i := 0 to |bookIds|
      invariant likeStatuses.Keys == set id | id in bookIds[..i]
      invariant forall id | id in likeStatuses :: likeStatuses[id] == GetBookLikeStatus(store, userId, id)
    {
      var status := store.BookLikeStatus(userId, bookIds[i]);
      likeStatuses := likeStatuses[bookIds[i] := status];
      assert bookIds[..i + 1] == bookIds[..i] + [bookIds[i]];
    }
    assert bookIds[..|bookIds|] == bookIds;
  }

  /** `getMultipleChapterLikeStatus`: one entry per distinct input id, holding the user's status for it. */
  method GetMultipleChapterLikeStatus(store: LikesStore, userId: int, chapterIds: seq<int>) returns (likeStatuses: map<int, LikeStatus>)
    ensures likeStatuses.Keys == set id | id in chapterIds
    ensures forall id | id in likeStatuses :: likeStatuses[id] == GetChapterLikeStatus(store, userId, id)
  {
    likeStatuses := map[];
    for i := 0 to |chapterIds|
      invariant likeStatuses.Keys == set id | id in chapterIds[..i]
      invariant forall id | id in likeStatuses :: likeStatuses[id] == GetChapterLikeStatus(store, userId, id)
    {
      var status := store.ChapterLikeStatus(userId, chapterIds[i]);
      likeStatuses := likeStatuses[chapterIds[i] := status];
      assert chapterIds[..i + 1] == chapterIds[..i] + [chapterIds[i]];
    }
    assert chapterIds[..|chapterIds|] == chapterIds;
  }

  /** Two toggles of the same existing pair restore the book table and report opposite states. */
  method ToggleBookLikeTwice(store: LikesStore, likeData: LikeBookData) returns (first: LikeOperation, second: LikeOperation)
    requires store.Valid()
    requires likeData.userId in store.users && likeData.bookId in store.books
    modifies store`bookLikes
    ensures store.Valid()
    ensures store.bookLikes == old(store.bookLikes)
    ensures first.isLiked == !old(store.IsBookLikedByUser(likeData.userId, likeData.bookId))
    ensures second.isLiked == !first.isLiked
    ensures second.likesCount == old(store.BookLikesCount(likeData.bookId))
  {
    ghost var before := store.bookLikes;
    var r1 := ToggleBookLike(store, likeData);
    var r2 := ToggleBookLike(store, likeData);
    LikeTable.ToggleTwice(before, likeData.userId, likeData.bookId);
    first, second := r1.value, r2.value;
  }

  /** Two toggles of the same existing pair restore the chapter table and report opposite states. */
  method ToggleChapterLikeTwice(store: LikesStore, likeData: LikeChapterData) returns (first: LikeOperation, second: LikeOperation)
    requires store.Valid()
    requires likeData.userId in store.users && likeData.chapterId in store.chapters
    modifies store`chapterLikes
    ensures store.Valid()
    ensures store.chapterLikes == old(store.chapterLikes)
    ensures first.isLiked == !old(store.IsChapterLikedByUser(likeData.userId, likeData.chapterId))
    ensures second.isLiked == !first.isLiked
    ensures second.likesCount == old(store.ChapterLikesCount(likeData.chapterId))
  {
    ghost var before := store.chapterLikes;
    var r1 := ToggleChapterLike(store, likeData);
    var r2 := ToggleChapterLike(store, likeData);
    LikeTable.ToggleTwice(before, likeData.userId, likeData.chapterId);
    first, second := r1.value, r2.value;
  }

  /**
   * Users 1 and 2 and book 5 exist.  User 1 likes book 5, user 2 likes it,
   * user 1 takes the like back; a toggle by a user that does not exist fails
   * and leaves the status of book 5 as it was.
   */
  method BookLikeScenario() {
    var store := new LikesStore({1, 2}, {5}, {}, {}, {});
    assert LikeTable.EntityRows({}, 5) == {};
    var r1 := ToggleBookLike(store, LikeBookData(1, 5));
    assert r1 == Success(LikeOperation(true, BookLikeAdded, true, 1));
    var r2 := ToggleBookLike(store, LikeBookData(2, 5));
    assert r2 == Success(LikeOperation(true, BookLikeAdded, true, 2));
    var r3 := ToggleBookLike(store, LikeBookData(1, 5));
    assert r3 == Success(LikeOperation(true, BookLikeRemoved, false, 1));
    assert GetBookLikeStatus(store, 2, 5) == LikeStatus(true, 1);
    var r4 := ToggleBookLike(store, LikeBookData(999999, 5));
    assert r4 == Failure(UserNotFound);
    assert GetBookLikeStatus(store, 2, 5) == LikeStatus(true, 1);
  }
}
