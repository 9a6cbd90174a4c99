/**
 * The like store (`LikesRepository`): existence sets for users, books and
 * chapters, and the two like tables.  The relational store behind it is
 * modelled by the fields of one object; every read is a function of them and
 * every write a method that may change only the table it writes.
 */
module LikesRepository {
  import opened Wrappers
  import opened LikesModels
  import LikeTable

  /** The failures the store reports by throwing. */
  datatype StoreError = LikeBookFailed | LikeChapterFailed

  /** The records of the rows `s`, in the same order (the `.map` over the rows). */
  function BookRecords(s: seq<LikeTable.Row>): seq<BookLikeRecord> {
    seq(|s|, i requires 0 <= i < |s| => BookRecordOf(s[i].0, s[i].1))
  }

  function ChapterRecords(s: seq<LikeTable.Row>): seq<ChapterLikeRecord> {
    seq(|s|, i requires 0 <= i < |s| => ChapterRecordOf(s[i].0, s[i].1))
  }

  /**
   * `recs` holds exactly one record per row of `rows` and nothing else: each
   * record is the record of a row, every row has its record, and no record
   * appears twice.
   */
  ghost predicate ListsBookLikes(recs: seq<BookLikeRecord>, rows: set<LikeTable.Row>) {
    && |recs| == |rows|
    && (forall i, j | 0 <= i < j < |recs| :: recs[i] != recs[j])
    && (forall r | r in rows :: BookRecordOf(r.0, r.1) in recs)
    && (forall i | 0 <= i < |recs| :: exists r | r in rows :: recs[i] == BookRecordOf(r.0, r.1))
  }

  ghost predicate ListsChapterLikes(recs: seq<ChapterLikeRecord>, rows: set<LikeTable.Row>) {
    && |recs| == |rows|
    && (forall i, j | 0 <= i < j < |recs| :: recs[i] != recs[j])
    && (forall r | r in rows :: ChapterRecordOf(r.0, r.1) in recs)
    && (forall i | 0 <= i < |recs| :: exists r | r in rows :: recs[i] == ChapterRecordOf(r.0, r.1))
  }

  /** What `getUserLikes(userId)` returns for the given tables. */
  ghost predicate DescribesUserLikes(bookLikes: LikeTable.Table, chapterLikes: LikeTable.Table, userId: int, v: UserLikes) {
    && ListsBookLikes(v.likedBooks, LikeTable.UserRows(bookLikes, userId))
    && ListsChapterLikes(v.likedChapters, LikeTable.UserRows(chapterLikes, userId))
    && v.totalLikes == |v.likedBooks| + |v.likedChapters|
  }

  lemma BookRecordsOfEnumeration(s: seq<LikeTable.Row>, rows: set<LikeTable.Row>)
    requires LikeTable.Enumerates(s, rows)
    ensures ListsBookLikes(BookRecords(s), rows)
  {
    var recs := BookRecords(s);
    forall i, j | 0 <= i < j < |recs| ensures recs[i] != recs[j] {
      assert DecimalIds.SplitCompositeId(recs[i].id) == Some(s[i]) != Some(s[j])
          == DecimalIds.SplitCompositeId(recs[j].id);
    }
    forall r | r in rows ensures BookRecordOf(r.0, r.1) in recs {
      var i :| 0 <= i < |s| && s[i] == r;
      assert recs[i] == BookRecordOf(r.0, r.1);
    }
    forall i | 0 <= i < |recs| ensures exists r | r in rows :: recs[i] == BookRecordOf(r.0, r.1) {
      assert s[i] in rows && recs[i] == BookRecordOf(s[i].0, s[i].1);
    }
  }

  lemma ChapterRecordsOfEnumeration(s: seq<LikeTable.Row>, rows: set<LikeTable.Row>)
    requires LikeTable.Enumerates(s, rows)
    ensures ListsChapterLikes(ChapterRecords(s), rows)
  {
    var recs := ChapterRecords(s);
    forall i, j | 0 <= i < j < |recs| ensures recs[i] != recs[j] {
      assert DecimalIds.SplitCompositeId(recs[i].id) == Some(s[i]) != Some(s[j])
          == DecimalIds.SplitCompositeId(recs[j].id);
    }
    forall r | r in rows ensures ChapterRecordOf(r.0, r.1) in recs {
      var i :| 0 <= i < |s| && s[i] == r;
      assert recs[i] == ChapterRecordOf(r.0, r.1);
    }
    forall i | 0 <= i < |recs| ensures exists r | r in rows :: recs[i] == ChapterRecordOf(r.0, r.1) {
      assert s[i] in rows && recs[i] == ChapterRecordOf(s[i].0, s[i].1);
    }
  }

  class LikesStore {
    var users: set<int>
    var books: set<int>
    var chapters: set<int>
    /** (userId, bookId) rows. */
    var bookLikes: LikeTable.Table
    /** (userId, chapterId) rows. */
    var chapterLikes: LikeTable.Table

    /** Referential integrity: every like row refers to an existing user and entity. */
    ghost predicate Valid()
      reads this
    {
      && LikeTable.References(bookLikes, users, books)
      && LikeTable.References(chapterLikes, users, chapters)
    }

    /** A connection to a store that already holds the given rows, which respect the foreign keys. */
    constructor (users: set<int>, books: set<int>, chapters: set<int>,
                 bookLikes: LikeTable.Table, chapterLikes: LikeTable.Table)
      requires LikeTable.References(bookLikes, users, books)
      requires LikeTable.References(chapterLikes, users, chapters)
      ensures Valid()
      ensures this.users == users && this.books == books && this.chapters == chapters
      ensures this.bookLikes == bookLikes && this.chapterLikes == chapterLikes
    {
      this.users, this.books, this.chapters := users, books, chapters;
      this.bookLikes, this.chapterLikes := bookLikes, chapterLikes;
    }

    /** `bookExists`: a book that does not exist has no likes. */
    function BookExists(bookId: int): (found: bool)
      reads this
      ensures Valid() && !found ==> BookLikesCount(bookId) == 0
    {
      bookId in books
    }

    /** `chapterExists`: a chapter that does not exist has no likes. */
    function ChapterExists(chapterId: int): (found: bool)
      reads this
      ensures Valid() && !found ==> ChapterLikesCount(chapterId) == 0
    {
      chapterId in chapters
    }

    /** `userExists`: a user that does not exist has liked nothing. */
    function UserExists(userId: int): (found: bool)
      reads this
      ensures Valid() && !found ==>
                LikeTable.UserRows(bookLikes, userId) == {} && LikeTable.UserRows(chapterLikes, userId) == {}
    {
      LikeTable.NoRowsWithoutUser(bookLikes, users, books, userId);
      LikeTable.NoRowsWithoutUser(chapterLikes, users, chapters, userId);
      userId in users
    }

    /** `isBookLikedByUser`: only an existing user can like an existing book. */
    function IsBookLikedByUser(userId: int, bookId: int): (liked: bool)
      reads this
      ensures Valid() && liked ==> UserExists(userId) && BookExists(bookId)
    {
      LikeTable.Liked(bookLikes, userId, bookId)
    }

    function IsChapterLikedByUser(userId: int, chapterId: int): (liked: bool)
      reads this
      ensures Valid() && liked ==> UserExists(userId) && ChapterExists(chapterId)
    {
      LikeTable.Liked(chapterLikes, userId, chapterId)
    }

    /** `getBookLikesCount`: at most one like per existing user, none for a missing book. */
    function BookLikesCount(bookId: int): (count: nat)
      reads this
      ensures Valid() ==> count <= |users|
      ensures Valid() && bookId !in books ==> count == 0
    {
      LikeTable.CountBounds(bookLikes, users, books, bookId);
      LikeTable.Count(bookLikes, bookId)
    }

    function ChapterLikesCount(chapterId: int): (count: nat)
      reads this
      ensures Valid() ==> count <= |users|
      ensures Valid() && chapterId !in chapters ==> count == 0
    {
      LikeTable.CountBounds(chapterLikes, users, chapters, chapterId);
      LikeTable.Count(chapterLikes, chapterId)
    }

    /** `getBookLikeStatus`: the two reads together; a liked book has at least one like. */
    function BookLikeStatus(userId: int, bookId: int): (s: LikeStatus)
      reads this
      ensures s.isLiked == IsBookLikedByUser(userId, bookId) && s.likesCount == BookLikesCount(bookId)
      ensures s.isLiked ==> s.likesCount >= 1
    {
      if LikeTable.Liked(bookLikes, userId, bookId) then
        LikeTable.LikedCountPositive(bookLikes, userId, bookId);
        LikeStatus(true, BookLikesCount(bookId))
      else
        LikeStatus(false, BookLikesCount(bookId))
    }

    function ChapterLikeStatus(userId: int, chapterId: int): (s: LikeStatus)
      reads this
      ensures s.isLiked == IsChapterLikedByUser(userId, chapterId) && s.likesCount == ChapterLikesCount(chapterId)
      ensures s.isLiked ==> s.likesCount >= 1
    {
      if LikeTable.Liked(chapterLikes, userId, chapterId) then
        LikeTable.LikedCountPositive(chapterLikes, userId, chapterId);
        LikeStatus(true, ChapterLikesCount(chapterId))
      else
        LikeStatus(false, ChapterLikesCount(chapterId))
    }

    /**
     * `likeBook`: inserts the pair.  The insert is rejected, and the table left
     * as it was, when the pair is already there (the unique key) or when the
     * user or the book does not exist (the foreign keys).
     */
    method LikeBook(userId: int, bookId: int) returns (r: Result<BookLikeRecord, StoreError>)
      requires Valid()
      modifies this`bookLikes
      ensures Valid()
      ensures r.Success? <==> !old(IsBookLikedByUser(userId, bookId)) && UserExists(userId) && BookExists(bookId)
      ensures r.Success? ==>
                r.value == BookRecordOf(userId, bookId)
                && bookLikes == LikeTable.Insert(old(bookLikes), userId, bookId)
      ensures r.Failure? ==> r.error == LikeBookFailed && bookLikes == old(bookLikes)
    {
      if LikeTable.Liked(bookLikes, userId, bookId) || userId !in users || bookId !in books {
        return Failure(LikeBookFailed);
      }
      LikeTable.InsertKeepsReferences(bookLikes, users, books, userId, bookId);
      bookLikes := LikeTable.Insert(bookLikes, userId, bookId);
      r := Success(BookRecordOf(userId, bookId));
    }

    /** `unlikeBook`: deletes the pair and says whether there was one to delete. */
    method UnlikeBook(userId: int, bookId: int) returns (deleted: bool)
      requires Valid()
      modifies this`bookLikes
      ensures Valid()
      ensures deleted == old(IsBookLikedByUser(userId, bookId))
      ensures bookLikes == LikeTable.Delete(old(bookLikes), userId, bookId)
      ensures !deleted ==> bookLikes == old(bookLikes)
    {
      deleted := LikeTable.Liked(bookLikes, userId, bookId);
      if deleted {
        LikeTable.DeleteKeepsReferences(bookLikes, users, books, userId, bookId);
        bookLikes := LikeTable.Delete(bookLikes, userId, bookId);
      }
    }

    /** `likeChapter`: as `likeBook`, over the chapter table. */
    method LikeChapter(userId: int, chapterId: int) returns (r: Result<ChapterLikeRecord, StoreError>)
      requires Valid()
      modifies this`chapterLikes
      ensures Valid()
      ensures r.Success? <==> !old(IsChapterLikedByUser(userId, chapterId)) && UserExists(userId) && ChapterExists(chapterId)
      ensures r.Success? ==>
                r.value == ChapterRecordOf(userId, chapterId)
                && chapterLikes == LikeTable.Insert(old(chapterLikes), userId, chapterId)
      ensures r.Failure? ==> r.error == LikeChapterFailed && chapterLikes == old(chapterLikes)
    {
      if LikeTable.Liked(chapterLikes, userId, chapterId) || userId !in users || chapterId !in chapters {
        return Failure(LikeChapterFailed);
      }
      LikeTable.InsertKeepsReferences(chapterLikes, users, chapters, userId, chapterId);
      chapterLikes := LikeTable.Insert(chapterLikes, userId, chapterId);
      r := Success(ChapterRecordOf(userId, chapterId));
    }

    /** `unlikeChapter`: as `unlikeBook`, over the chapter table. */
    method UnlikeChapter(userId: int, chapterId: int) returns (deleted: bool)
      requires Valid()
      modifies this`chapterLikes
      ensures Valid()
      ensures deleted == old(IsChapterLikedByUser(userId, chapterId))
      ensures chapterLikes == LikeTable.Delete(old(chapterLikes), userId, chapterId)
      ensures !deleted ==> chapterLikes == old(chapterLikes)
    {
      deleted := LikeTable.Liked(chapterLikes, userId, chapterId);
      if deleted {
        LikeTable.DeleteKeepsReferences(chapterLikes, users, chapters, userId, chapterId);
        chapterLikes := LikeTable.Delete(chapterLikes, userId, chapterId);
      }
    }

    /**
     * `getUserLikes`: one record per book-like row and per chapter-like row of
     * the user, in the order the store returns the rows, and their total.
     */
    method GetUserLikes(userId: int) returns (v: UserLikes)
      ensures DescribesUserLikes(bookLikes, chapterLikes, userId, v)
    {
      var bookRows := LikeTable.FindUserRows(bookLikes, userId);
      var chapterRows := LikeTable.FindUserRows(chapterLikes, userId);
      var likedBooks := BookRecords(bookRows);
      var likedChapters := ChapterRecords(chapterRows);
      BookRecordsOfEnumeration(bookRows, LikeTable.UserRows(bookLikes, userId));
      ChapterRecordsOfEnumeration(chapterRows, LikeTable.UserRows(chapterLikes, userId));
      v := UserLikes(likedBooks, likedChapters, |likedBooks| + |likedChapters|);
    }
  }
}
