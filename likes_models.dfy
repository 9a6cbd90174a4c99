/**
 * Request schemas and response shapes of the likes feature.
 *
 * The two request schemas accept an id pair only when both ids are positive
 * integers.  A schema's input field is a JavaScript value: a finite number or
 * anything else (a string, a boolean, null, a missing field, NaN).  As the
 * validation library does, a wrong type stops the checks of that field, while
 * the integer check and the positivity check of a number are both run and
 * both reported.
 */
module LikesModels {
  import opened Wrappers
  import DecimalIds

  datatype NumberInput = Number(value: real) | NotANumber

  datatype Field = UserIdField | BookIdField | ChapterIdField

  datatype IssueCode = ExpectedNumber | NotAnInteger | NotPositive

  datatype Issue = Issue(path: Field, code: IssueCode)

  /** What `z.number().int().positive()` accepts. */
  predicate IsPositiveInteger(v: NumberInput) {
    v.Number? && v.value.Floor as real == v.value && v.value > 0.0
  }

  /** The issues the check chain of one field reports, in the order it runs its checks. */
  function FieldIssues(path: Field, v: NumberInput): (issues: seq<Issue>)
    ensures issues == [] <==> IsPositiveInteger(v)
    ensures Paths(issues) == if IsPositiveInteger(v) then {} else {path}
  {
    match v
    case NotANumber =>
      var issues := [Issue(path, ExpectedNumber)];
      assert issues[0].path == path;
      issues
    case Number(x) =>
      var issues := (if x.Floor as real != x then [Issue(path, NotAnInteger)] else [])
                    + (if x <= 0.0 then [Issue(path, NotPositive)] else []);
      assert forall k | 0 <= k < |issues| :: issues[k].path == path;
      assert issues != [] ==> issues[0].path == path;
      issues
  }

  function Paths(issues: seq<Issue>): set<Field> {
    set k | 0 <= k < |issues| :: issues[k].path
  }

  lemma PathsConcat(a: seq<Issue>, b: seq<Issue>)
    ensures Paths(a + b) == Paths(a) + Paths(b)
  {
    var ab := a + b;
    forall f | f in Paths(a + b) ensures f in Paths(a) + Paths(b) {
      var k :| 0 <= k < |ab| && ab[k].path == f;
      if k >= |a| { assert b[k - |a|].path == f; }
    }
    forall f | f in Paths(a) ensures f in Paths(a + b) {
      var k :| 0 <= k < |a| && a[k].path == f;
      assert ab[k].path == f;
    }
    forall f | f in Paths(b) ensures f in Paths(a + b) {
      var k :| 0 <= k < |b| && b[k].path == f;
      assert ab[k + |a|].path == f;
    }
  }

  /** The validated body of a book-like request (`LikeBookType`). */
  datatype LikeBookData = LikeBookData(userId: int, bookId: int)

  /** The validated body of a chapter-like request (`LikeChapterType`). */
  datatype LikeChapterData = LikeChapterData(userId: int, chapterId: int)

  /** `likeBookSchema.parse`: both ids must be positive integers. */
  function ParseLikeBook(userId: NumberInput, bookId: NumberInput): (r: Result<LikeBookData, seq<Issue>>)
    ensures r.Success? <==> IsPositiveInteger(userId) && IsPositiveInteger(bookId)
    ensures r.Success? ==> r.value.userId > 0 && r.value.userId as real == userId.value
    ensures r.Success? ==> r.value.bookId > 0 && r.value.bookId as real == bookId.value
    ensures r.Failure? ==>
              Paths(r.error) == (if IsPositiveInteger(userId) then {} else {UserIdField})
                              + (if IsPositiveInteger(bookId) then {} else {BookIdField})
  {
    PathsConcat(FieldIssues(UserIdField, userId), FieldIssues(BookIdField, bookId));
    var issues := FieldIssues(UserIdField, userId) + FieldIssues(BookIdField, bookId);
    if issues == [] then Success(LikeBookData(userId.value.Floor, bookId.value.Floor))
    else Failure(issues)
  }

  /** `likeChapterSchema.parse`: both ids must be positive integers. */
  function ParseLikeChapter(userId: NumberInput, chapterId: NumberInput): (r: Result<LikeChapterData, seq<Issue>>)
    ensures r.Success? <==> IsPositiveInteger(userId) && IsPositiveInteger(chapterId)
    ensures r.Success? ==> r.value.userId > 0 && r.value.userId as real == userId.value
    ensures r.Success? ==> r.value.chapterId > 0 && r.value.chapterId as real == chapterId.value
    ensures r.Failure? ==>
              Paths(r.error) == (if IsPositiveInteger(userId) then {} else {UserIdField})
                              + (if IsPositiveInteger(chapterId) then {} else {ChapterIdField})
  {
    PathsConcat(FieldIssues(UserIdField, userId), FieldIssues(ChapterIdField, chapterId));
    var issues := FieldIssues(UserIdField, userId) + FieldIssues(ChapterIdField, chapterId);
    if issues == [] then Success(LikeChapterData(userId.value.Floor, chapterId.value.Floor))
    else Failure(issues)
  }

  /** `LikeStatusResponse`: whether the user likes the entity, and how many likes it has. */
  datatype LikeStatus = LikeStatus(isLiked: bool, likesCount: nat)

  /** `LikeOperationResponse`: the outcome of a toggle. */
  datatype LikeOperation = LikeOperation(success: bool, message: string, isLiked: bool, likesCount: nat)

  /** `BookLikeResponse` without its display fields: the composite id and both ids as strings. */
  datatype BookLikeRecord = BookLikeRecord(id: string, userId: string, bookId: string)

  /** `ChapterLikeResponse` without its display fields. */
  datatype ChapterLikeRecord = ChapterLikeRecord(id: string, userId: string, chapterId: string)

  /** `UserLikesResponse`. */
  datatype UserLikes = UserLikes(likedBooks: seq<BookLikeRecord>, likedChapters: seq<ChapterLikeRecord>, totalLikes: nat)

  /** The record the repository builds from one book-like row. */
  function BookRecordOf(userId: int, bookId: int): (r: BookLikeRecord)
    ensures DecimalIds.SplitCompositeId(r.id) == Some((userId, bookId))
    ensures DecimalIds.ParseInt(r.userId) == Some(userId)
    ensures DecimalIds.ParseInt(r.bookId) == Some(bookId)
  {
    DecimalIds.CompositeIdRoundTrip(userId, bookId);
    DecimalIds.ParseIntToString(userId);
    DecimalIds.ParseIntToString(bookId);
    BookLikeRecord(DecimalIds.CompositeId(userId, bookId), DecimalIds.IntToString(userId), DecimalIds.IntToString(bookId))
  }

  /** The record the repository builds from one chapter-like row. */
  function ChapterRecordOf(userId: int, chapterId: int): (r: ChapterLikeRecord)
    ensures DecimalIds.SplitCompositeId(r.id) == Some((userId, chapterId))
    ensures DecimalIds.ParseInt(r.userId) == Some(userId)
    ensures DecimalIds.ParseInt(r.chapterId) == Some(chapterId)
  {
    DecimalIds.CompositeIdRoundTrip(userId, chapterId);
    DecimalIds.ParseIntToString(userId);
    DecimalIds.ParseIntToString(chapterId);
    ChapterLikeRecord(DecimalIds.CompositeId(userId, chapterId), DecimalIds.IntToString(userId), DecimalIds.IntToString(chapterId))
  }
}
