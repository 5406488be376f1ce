/**
 * The parts of the `Book` resolver that compute rather than query: how the
 * `books` query combines its free-text search with the filter clauses into
 * one WHERE statement and one parameter object, and which review the
 * `yourReview` field of a book resolves to.
 */
module BookResolver {
  import opened JsCore
  import opened FilterAndSortUtils

  // ---------------------------------------------------------------------------
  // The WHERE statement of `books`

  /** A line break of the search template literal, with the indentation of its continuation lines. */
  const Continuation: string := "\n                            "

  /**
   * The search clause: the title, the author's first name, the ISBN, the
   * ISBN-13 or the author's last name matches the regular expression
   * `:searchQuery`. The template literal keeps its line breaks and indentation.
   */
  const SearchMatchString: string :=
    "\"Book\".\"title\" ~ :searchQuery OR" + Continuation
    + "Book_authors.firstName ~ :searchQuery OR" + Continuation
    + "\"Book\".\"isbn\" ~ :searchQuery OR" + Continuation
    + "\"Book\".\"isbn13\" ~ :searchQuery OR Book_authors.lastName ~ :searchQuery"

  /** The name the search text is bound to. */
  const SearchQueryName: string := "searchQuery"

  /** The search text as a parameter value: the optional argument is a string, null or undefined. */
  function SearchParameter(searchQuery: Js<string>): (v: JsValue)
    ensures searchQuery.Value? <==> v.Value?
    ensures searchQuery.Value? ==> v.value == Text(searchQuery.value)
    ensures searchQuery.Null? <==> v.Null?
  {
    match searchQuery
    case Null => Null
    case Undefined => Undefined
    case Value(s) => Value(Text(s))
  }

  /** The statement and the parameters handed to `qb.where`. */
  datatype WhereClause = WhereClause(statement: string, parameters: map<string, JsValue>)

  /**
   * `completeWhereStatement` and `completeWhereParameters`: the search clause
   * alone when the filter statement is empty; otherwise the search clause,
   * " AND " and the filter statement, with the filter parameters assigned
   * over `{ searchQuery }`.
   */
  function CompleteWhere(searchQuery: Js<string>, filterStatement: string,
                         filterParameters: map<string, JsValue>): (w: WhereClause)
    ensures |filterStatement| == 0 ==>
      w == WhereClause(SearchMatchString, map[SearchQueryName := SearchParameter(searchQuery)])
    ensures |filterStatement| > 0 ==> w.statement == SearchMatchString + " AND " + filterStatement
    ensures |filterStatement| > 0 ==>
      w.parameters.Keys == filterParameters.Keys + {SearchQueryName}
      && (forall k :: k in filterParameters ==> w.parameters[k] == filterParameters[k])
      && (SearchQueryName !in filterParameters ==> w.parameters[SearchQueryName] == SearchParameter(searchQuery))
  {
    var searchMatchParameters := map[SearchQueryName := SearchParameter(searchQuery)];
    var isFilter := |filterStatement| > 0;
    if isFilter then
      WhereClause(SearchMatchString + " AND " + filterStatement, searchMatchParameters + filterParameters)
    else
      WhereClause(SearchMatchString, searchMatchParameters)
  }

  /** The WHERE clause of `books` for a list of filters. */
  function BooksWhere(searchQuery: Js<string>, filters: seq<FilterInput>): WhereClause {
    CompleteWhere(searchQuery, FilterStatement(filters), FilterParameters(filters))
  }

  /**
   * When no filter yields a clause, the query is the search alone, bound to
   * `searchQuery` alone: no parameter of a discarded filter reaches it.
   */
  lemma NoClauseMeansSearchOnly(searchQuery: Js<string>, filters: seq<FilterInput>)
    requires Clauses(filters) == []
    ensures BooksWhere(searchQuery, filters)
      == WhereClause(SearchMatchString, map[SearchQueryName := SearchParameter(searchQuery)])
  {
    StatementEmptyIffNoClause(filters);
  }

  /** When some filter yields a clause, its statement follows the search clause after " AND ". */
  lemma SomeClauseMeansConjunction(searchQuery: Js<string>, filters: seq<FilterInput>)
    requires Clauses(filters) != []
    ensures BooksWhere(searchQuery, filters).statement == SearchMatchString + " AND " + FilterStatement(filters)
  {
    StatementEmptyIffNoClause(filters);
  }

  /** A column name, and a column name with "2" appended, are never `searchQuery`. */
  lemma ColumnIsNotSearchQuery(field: string)
    requires field in BookColumns
    ensures field != SearchQueryName && field + "2" != SearchQueryName
  {
    assert forall f :: f in BookColumns ==> |f| != |SearchQueryName|;
    var other := field + "2";
    assert other[|other| - 1] == '2';
    assert SearchQueryName[|SearchQueryName| - 1] == 'y';
  }

  /** A clause binds its field and, for a range, its field with "2" appended; nothing else. */
  lemma ClauseParameterName(c: Clause, k: string)
    requires k in ClauseSql(c).1
    ensures k == c.field || k == c.field + "2"
  {
    FilterConditionToSqlShape(c.field, c.condition, "Book");
  }

  /** No filter parameter is ever named `searchQuery`: every one is a Book column, or one with "2" appended. */
  lemma SearchQueryIsNoFilterParameter(filters: seq<FilterInput>)
    ensures SearchQueryName !in FilterParameters(filters)
  {
    var cs := Clauses(filters);
    ParametersKeys(cs, SearchQueryName);
    if SearchQueryName in FilterParameters(filters) {
      var p :| 0 <= p < |cs| && SearchQueryName in ClauseSql(cs[p]).1;
      ClausesOfFilters(filters);
      ClauseParameterName(cs[p], SearchQueryName);
      ColumnIsNotSearchQuery(cs[p].field);
      assert false;
    }
  }

  /**
   * Whatever the filters, the search text stays bound to `searchQuery`, and
   * every filter parameter is bound to its own value.
   */
  lemma BooksWhereParameters(searchQuery: Js<string>, filters: seq<FilterInput>)
    ensures var w := BooksWhere(searchQuery, filters);
      && SearchQueryName in w.parameters
      && w.parameters[SearchQueryName] == SearchParameter(searchQuery)
      && w.parameters.Keys == FilterParameters(filters).Keys + {SearchQueryName}
      && (forall k :: k in FilterParameters(filters) ==> w.parameters[k] == FilterParameters(filters)[k])
  {
    SearchQueryIsNoFilterParameter(filters);
    StatementEmptyIffNoClause(filters);
  }

  // ---------------------------------------------------------------------------
  // yourReview

  /** A review of a book, by the user `reviewedById`. */
  datatype Review = Review(reviewItemId: int, reviewedById: int, rating: real, text: Js<string>)

  /** `reviews.filter((review) => review.reviewedById === userId)`. */
  function ReviewsBy(reviews: seq<Review>, userId: int): (r: seq<Review>)
    ensures forall k :: 0 <= k < |r| ==> r[k] in reviews && r[k].reviewedById == userId
    ensures r == [] <==> forall i :: 0 <= i < |reviews| ==> reviews[i].reviewedById != userId
    ensures forall i :: 0 <= i < |reviews| && reviews[i].reviewedById == userId ==> reviews[i] in r
  {
    if reviews == [] then []
    else
      var rest := ReviewsBy(reviews[1..], userId);
      assert forall k :: 0 <= k < |rest| ==> rest[k] in reviews[1..];
      assert forall i :: 1 <= i < |reviews| ==> reviews[i] == reviews[1..][i - 1];
      if reviews[0].reviewedById == userId then [reviews[0]] + rest else rest
  }

  /**
   * The filter keeps the order of the reviews: filtering `xs + [x]` filters `xs`
   * and then keeps `x` exactly when it is by the user.
   */
  lemma {:induction false} ReviewsByAppend(xs: seq<Review>, x: Review, userId: int)
    ensures ReviewsBy(xs + [x], userId)
         == ReviewsBy(xs, userId) + (if x.reviewedById == userId then [x] else [])
  {
    if xs != [] {
      assert (xs + [x])[1..] == xs[1..] + [x];
      ReviewsByAppend(xs[1..], x, userId);
    }
  }

  /** The first review the filter keeps is the first review by the user. */
  lemma {:induction false} FirstReviewBy(reviews: seq<Review>, userId: int)
    requires ReviewsBy(reviews, userId) != []
    ensures exists i :: 0 <= i < |reviews| && reviews[i] == ReviewsBy(reviews, userId)[0]
                     && forall j :: 0 <= j < i ==> reviews[j].reviewedById != userId
  {
    if reviews[0].reviewedById != userId {
      FirstReviewBy(reviews[1..], userId);
      var i :| 0 <= i < |reviews[1..]| && reviews[1..][i] == ReviewsBy(reviews[1..], userId)[0]
        && forall j :: 0 <= j < i ==> reviews[1..][j].reviewedById != userId;
      assert reviews[i + 1] == ReviewsBy(reviews, userId)[0];
      assert forall j :: 1 <= j < i + 1 ==> reviews[j] == reviews[1..][j - 1];
    }
  }

  /**
   * `reviews.filter(...)[0]` for a session user: the user's first review of
   * the book, or undefined when there is none.
   */
  function FirstReviewOf(reviews: seq<Review>, userId: int): (r: Js<Review>)
    ensures !r.Null?
    ensures r.Undefined? <==> forall i :: 0 <= i < |reviews| ==> reviews[i].reviewedById != userId
    ensures r.Value? ==> r.value.reviewedById == userId
    ensures r.Value? ==> exists i :: 0 <= i < |reviews| && reviews[i] == r.value
                                  && forall j :: 0 <= j < i ==> reviews[j].reviewedById != userId
  {
    var matching := ReviewsBy(reviews, userId);
    if |matching| == 0 then Undefined
    else
      FirstReviewBy(reviews, userId);
      Value(matching[0])
  }

  /** What a field resolver does: return a value, or throw a `TypeError`. */
  datatype Outcome<T> = Returns(value: T) | ThrowsTypeError

  /**
   * `yourReview`: null for a visitor without a session user. Otherwise the
   * user's first review of the book, or undefined when there is none; the
   * book's `reviews` relation is not eager, so a book loaded without it
   * (every book of the `books` query) has no list to filter and the
   * resolver throws.
   */
  function YourReview(reviews: Js<seq<Review>>, userId: Js<int>): (r: Outcome<Js<Review>>)
    ensures !userId.Value? ==> r == Returns(Null)
    ensures userId.Value? && !reviews.Value? ==> r.ThrowsTypeError?
    ensures r.ThrowsTypeError? ==> userId.Value? && !reviews.Value?
    ensures r.Returns? && userId.Value? ==> reviews.Value? && !r.value.Null?
    ensures userId.Value? && reviews.Value? ==>
      r.Returns? && (r.value.Undefined? <==>
        forall i :: 0 <= i < |reviews.value| ==> reviews.value[i].reviewedById != userId.value)
    ensures r.Returns? && r.value.Value? ==>
      && userId.Value? && reviews.Value? && r.value.value.reviewedById == userId.value
      && exists i :: 0 <= i < |reviews.value| && reviews.value[i] == r.value.value
                  && forall j :: 0 <= j < i ==> reviews.value[j].reviewedById != userId.value
  {
    if userId.Null? || userId.Undefined? then Returns(Null)
    else if reviews.Null? || reviews.Undefined? then ThrowsTypeError
    else Returns(FirstReviewOf(reviews.value, userId.value))
  }

  /** Reviews by other users placed in front are all dropped by the filter. */
  lemma {:induction false} ReviewsByOthersDropped(others: seq<Review>, reviews: seq<Review>, userId: int)
    requires forall i :: 0 <= i < |others| ==> others[i].reviewedById != userId
    ensures ReviewsBy(others + reviews, userId) == ReviewsBy(reviews, userId)
  {
    if others != [] {
      ReviewsByOthersDropped(others[1..], reviews, userId);
      var all := others + reviews;
      assert all[1..] == others[1..] + reviews;
      assert all[0] == others[0];
      assert ReviewsBy(all, userId) == ReviewsBy(all[1..], userId);
    } else {
      assert others + reviews == reviews;
    }
  }

  /** Reviews by other users placed in front never change which review is yours. */
  lemma OthersReviewsIgnored(others: seq<Review>, reviews: seq<Review>, userId: int)
    requires forall i :: 0 <= i < |others| ==> others[i].reviewedById != userId
    ensures YourReview(Value(others + reviews), Value(userId)) == YourReview(Value(reviews), Value(userId))
  {
    ReviewsByOthersDropped(others, reviews, userId);
  }
}
