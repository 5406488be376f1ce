# Goodreads book catalogue: filter, sort, registration and seeding logic in Dafny

The system is a GraphQL server over a PostgreSQL catalogue of books taken from
the Goodreads dataset. The project models the parts of it that compute rather
than talk to the database:

- `filter_and_sort_utils.dfy` (module `FilterAndSortUtils`) models
  `server/src/utils/filterAndSortUtils.ts`. It turns the client's filter options
  into a parameterised SQL WHERE fragment and its named parameters, merging a
  lower and an upper bound on one field into a BETWEEN. It turns the sort
  options into an ORDER BY object through `Object.fromEntries`.
- `registration.dfy` (module `Registration`) models `src/utils/validateRegister.ts`,
  the check of the `register` mutation's e-mail and password.
- `seed_database.dfy` (module `SeedDatabase`) models the `Seeder` class of
  `server/src/utils/seedDatabase.ts`. The class is a Dafny `class` whose fields are
  the author cache, the book cache and the insertion order of the book cache. Its
  methods update them as the source does, and the book batches handed to
  `Book.save` are returned.
- `book_resolver.dfy` (module `BookResolver`) models two parts of
  `src/resolvers/book.ts`. The first is how the `books` query joins the free-text
  search to the filter statement and merges the parameters. The second is which
  review the `yourReview` field resolves to.
- `js_core.dfy` (module `JsCore`) holds the small part of the JavaScript runtime
  the code relies on: `null`/`undefined`, `trim`, `split`, `join`, `toUpperCase`,
  `slice` and `${n}` for integers.

The loop of `_mapFiltersToWhere` is modelled twice:
- as the method `MapFiltersToWhere`, with the same `forEach` turn by turn;
- as the function `VisitFirst`, the state after the first `n` turns, which the lemmas reason about.

The method's contract says it returns what the function describes. In the same way:
- `GetRangeFilter` is proved against `RangeFilter`;
- `Seeder.SeedDatabase` is proved against `AddKeys` (the insertion order of the book cache),
  `RowBooks` (which book each key holds, built from which row, with which cached authors)
  and `SaveBatches` (what each `Book.save` call receives).

Three quirks of the code are modelled as written and stated as lemmas:
- `lessThanOrEqual` maps to `>`;
- the guard at `handleRangeFilter` line 88 never fires for filterA;
- with more than 10000 books, `slice(10000, -1)` leaves the last book out of every batch.

The function comment on `seedDatabase` says that `-1` seeds the entire dataset. The
code's `slice(0, -1)` drops the last row, and the model (`SeededRows`) follows the code.

## Model

| member | source | states |
|---|---|---|
| `JsCore.Trim` | server/src/utils/seedDatabase.ts:88 | the result has no leading or trailing whitespace, holds only characters of the input, and is the input when it holds no whitespace |
| `JsCore.TrimKeepsWindow` | server/src/utils/seedDatabase.ts:88 | the result is one contiguous window of the input, and everything outside that window is whitespace |
| `JsCore.TrimIdempotent` | server/src/utils/seedDatabase.ts:115-120 | trimming twice is trimming once (the last name trims an already trimmed word) |
| `JsCore.Split` | server/src/utils/seedDatabase.ts:37 | `split` gives at least one piece, no piece holds the separator, and a string without the separator splits to itself |
| `JsCore.JoinSplit` | server/src/utils/seedDatabase.ts:110-114 | joining the pieces of a split with the same separator gives the string back |
| `JsCore.Join` | server/src/utils/seedDatabase.ts:114 | no pieces join to the empty string, one piece to itself, and several pieces start with the first piece followed by the separator |
| `JsCore.JoinLast` | server/src/utils/seedDatabase.ts:110-120 | a join is the join of all but the last piece, the separator, and the last piece |
| `JsCore.JoinNonEmpty` | server/src/utils/filterAndSortUtils.ts:241 | joining at least one non-empty piece never gives the empty string |
| `JsCore.ToUpperCase` | server/src/utils/filterAndSortUtils.ts:132 | same length; every lower-case ASCII letter becomes its capital, every other character is kept |
| `JsCore.RelativeIndex` | server/src/utils/seedDatabase.ts:32 | a `slice` bound counts from the end when negative and is clamped to `0 .. length` |
| `JsCore.Slice` | server/src/utils/seedDatabase.ts:46 | `slice(start, end)` is the sub-sequence between the resolved bounds, empty when they cross |
| `JsCore.SliceConcat` | server/src/utils/seedDatabase.ts:45-46 | adjacent slices concatenate to the slice over both ranges |
| `JsCore.SliceAllButLast` | server/src/utils/seedDatabase.ts:112 | `slice(0, -1)` is every element but the last |
| `JsCore.SliceLastOne` | server/src/utils/seedDatabase.ts:117 | `slice(-1)` is the last element alone |
| `JsCore.IntToString` | src/utils/validateRegister.ts:18 | `${n}` is the decimal digits of n, with `-` in front exactly when n is negative |
| `JsCore.NatToStringValue` | src/utils/validateRegister.ts:18 | the decimal digits of a natural number spell that number |
| `JsCore.IntToStringValue` | src/utils/validateRegister.ts:18 | the text of `${n}` spells n, and for a negative n the digits after `-` spell -n |
| `JsCore.IntToStringInjective` | src/utils/validateRegister.ts:18 | two integers with the same `${n}` text are equal |
| `JsCore.NullIfNone` | server/src/utils/filterAndSortUtils.ts:92 | a missing converted value becomes `null`, a present one is kept |
| `Registration.ValidateRegister` | src/utils/validateRegister.ts:3-34 | `null` exactly when the e-mail holds `@` and is longer than 6 and the password is longer than 4; otherwise exactly one error, on `email` exactly when the e-mail is invalid, else on `password` |
| `Registration.LengthMessages` | src/utils/validateRegister.ts:13-28 | the two length messages read "length must be greater than 6" and "length must be greater than 4" |
| `Registration.MissingAtSign` | src/utils/validateRegister.ts:4-11 | an e-mail without `@` gives the one error `email`/"invalid email", whatever else is sent |
| `Registration.ShortEmail` | src/utils/validateRegister.ts:13-21 | an e-mail with `@` of at most 6 characters gives the `email` length error |
| `Registration.ShortPassword` | src/utils/validateRegister.ts:23-31 | with a valid e-mail, a password of at most 4 characters gives the `password` length error |
| `Registration.OnlyEmailAndPasswordMatter` | src/utils/validateRegister.ts:3-34 | the names and the nationality never change the outcome |
| `FilterAndSortUtils.ConvertFilterValueType` | server/src/utils/filterAndSortUtils.ts:27-55 | a value exactly when the field is a Book column of type Number, 'date' or String; the value is converted for that column type from the given text |
| `FilterAndSortUtils.MapFilterOperators` | server/src/utils/filterAndSortUtils.ts:63-74 | an operator exactly when the value converts; it carries the predicate and the converted value, with one parameter |
| `FilterAndSortUtils.HandleRangeFilter` | server/src/utils/filterAndSortUtils.ts:81-115 | `null` exactly when filterB's value does not convert or neither predicate is a lower bound; otherwise a 'between' |
| `FilterAndSortUtils.BoundPairMerges` | server/src/utils/filterAndSortUtils.ts:91-114 | a lower and an upper bound on one field give the same 'between', from the lower value to the upper value, in either order |
| `FilterAndSortUtils.LowerBoundWithoutUpperBound` | server/src/utils/filterAndSortUtils.ts:91-99 | a lower bound whose partner is no upper bound gives a 'between' whose upper end is undefined |
| `FilterAndSortUtils.LowerBoundSecondWithoutUpperBound` | server/src/utils/filterAndSortUtils.ts:101-114 | when filterB is the lower bound and filterA is neither bound, the 'between' runs from filterB's value to an undefined upper end |
| `FilterAndSortUtils.FirstConversionNotChecked` | server/src/utils/filterAndSortUtils.ts:82-92 | the guard at line 88 never rejects filterA: its failed conversion becomes a null lower end |
| `FilterAndSortUtils.SameFieldEndpointsNotNull` | server/src/utils/filterAndSortUtils.ts:179-182 | for the same-field pairs the range search makes, no endpoint of a 'between' is null |
| `FilterAndSortUtils.ConvertOperatorToSymbol` | server/src/utils/filterAndSortUtils.ts:121-134 | the four comparisons map to `>`, `<`, `>=` and `>` (lessThanOrEqual included); any other predicate to its upper-case text, so 'between' to BETWEEN |
| `FilterAndSortUtils.BetweenSymbol` | server/src/utils/filterAndSortUtils.ts:121-134 | the symbol is BETWEEN exactly when the predicate upper-cases to BETWEEN |
| `FilterAndSortUtils.FilterConditionToSql` | server/src/utils/filterAndSortUtils.ts:143-164 | the fragment always starts with the quoted column `"alias"."field"`, and the field's own name is always bound |
| `FilterAndSortUtils.FilterConditionToSqlShape` | server/src/utils/filterAndSortUtils.ts:143-164 | a 'between' gives `"Book"."f" BETWEEN :f AND :f2 ` and exactly the parameters f and f2; any other operator gives `"Book"."f" <symbol> :f` and the one parameter f |
| `FilterAndSortUtils.FirstSameField` | server/src/utils/filterAndSortUtils.ts:179-180 | the index found is the first at or after the start with the same field; none when there is no such index |
| `FilterAndSortUtils.RangeFilter` | server/src/utils/filterAndSortUtils.ts:173-188 | a result is the merge of the current filter with the first later filter on its field, with that filter's index; no result exactly when there is no such filter or its merge is `null` |
| `FilterAndSortUtils.RangeFilterTriesFirstOnly` | server/src/utils/filterAndSortUtils.ts:179-185 | when the first later filter on the field does not merge there is no range, whatever filters follow |
| `FilterAndSortUtils.NoPartnerNoRange` | server/src/utils/filterAndSortUtils.ts:179-187 | without a later filter on the same field there is no range |
| `FilterAndSortUtils.GetRangeFilter` | server/src/utils/filterAndSortUtils.ts:173-188 | the loop returns exactly `RangeFilter` |
| `FilterAndSortUtils.Decide` | server/src/utils/filterAndSortUtils.ts:209-223 | a partner is consumed only together with a condition, and is a later filter on the same field; a condition only comes from a supported column |
| `FilterAndSortUtils.Visit` | server/src/utils/filterAndSortUtils.ts:202-238 | one turn only adds: the finished set grows, the emitted clauses gain at most one, and a new clause is for this turn's filter, which is then finished |
| `FilterAndSortUtils.VisitFirst` | server/src/utils/filterAndSortUtils.ts:202-238 | after `n` turns there are at most `n` clauses |
| `FilterAndSortUtils.VisitKeepsOrder` | server/src/utils/filterAndSortUtils.ts:202-238 | one more turn of the loop keeps the clauses distinct, finished, in filter order and matching their filters |
| `FilterAndSortUtils.VisitKeepsPartnersConsumed` | server/src/utils/filterAndSortUtils.ts:216-218 | one more turn keeps every consumed partner finished and without a clause of its own |
| `FilterAndSortUtils.VisitKeepsFinishedByPartner` | server/src/utils/filterAndSortUtils.ts:204-218 | one more turn finishes a filter not yet visited only as the partner that an emitted clause's range consumed |
| `FilterAndSortUtils.VisitFirstInvariant` | server/src/utils/filterAndSortUtils.ts:202-238 | after any number of turns the three loop invariants hold |
| `FilterAndSortUtils.FragmentsOfClauses` | server/src/utils/filterAndSortUtils.ts:231-233 | one pushed fragment per clause, each the SQL of its clause |
| `FilterAndSortUtils.VisitFirstGrows` | server/src/utils/filterAndSortUtils.ts:233 | the loop only appends fragments: earlier turns' clauses are a prefix of later ones' |
| `FilterAndSortUtils.ClausesOfFilters` | server/src/utils/filterAndSortUtils.ts:195-245 | the clauses stand for distinct filters in filter order, on supported columns, each with the condition decided for its filter |
| `FilterAndSortUtils.InvalidFilterHasNoClause` | server/src/utils/filterAndSortUtils.ts:221-229 | a filter on a field without a supported Book column is never included |
| `FilterAndSortUtils.ConsumedPartnerHasNoClause` | server/src/utils/filterAndSortUtils.ts:204-218 | the partner a range consumed never yields a clause of its own |
| `FilterAndSortUtils.FinishedIsConsumed` | server/src/utils/filterAndSortUtils.ts:204-218 | a filter already finished when its turn comes is the partner that some clause's range consumed |
| `FilterAndSortUtils.UnconsumedFilterHasClause` | server/src/utils/filterAndSortUtils.ts:209-237 | every filter that has a condition and that no clause's range consumed yields its own clause, with that condition |
| `FilterAndSortUtils.UniqueValidFilterHasClause` | server/src/utils/filterAndSortUtils.ts:209-237 | a valid filter whose field no other filter uses always yields its own comparison |
| `FilterAndSortUtils.ParametersKeys` | server/src/utils/filterAndSortUtils.ts:234 | a parameter name is bound exactly when some clause binds it |
| `FilterAndSortUtils.ParametersLastWins` | server/src/utils/filterAndSortUtils.ts:234 | under a name several clauses bind, the last of them gives the value |
| `FilterAndSortUtils.StatementEmptyIffNoClause` | server/src/utils/filterAndSortUtils.ts:241 | the joined statement is empty exactly when no filter yields a clause, and then there are no parameters |
| `FilterAndSortUtils.EmptyFilters` | server/src/utils/filterAndSortUtils.ts:195-244 | no filters give an empty statement and no parameters |
| `FilterAndSortUtils.PairClauses` | server/src/utils/filterAndSortUtils.ts:209-219 | two filters on one field that merge give one clause, from the first filter |
| `FilterAndSortUtils.RangePairOrderIrrelevant` | server/src/utils/filterAndSortUtils.ts:195-245 | a lower and an upper bound on one field give the same statement and parameters in either order |
| `FilterAndSortUtils.OneClause` | server/src/utils/filterAndSortUtils.ts:231-241 | a single clause's SQL and parameters are the whole result |
| `FilterAndSortUtils.TwoClauses` | server/src/utils/filterAndSortUtils.ts:231-241 | two clauses are joined with " AND " and the second's parameters are merged over the first's |
| `FilterAndSortUtils.EqualSql` | server/src/utils/filterAndSortUtils.ts:162-163 | an `equal` comparison reads `"Book"."f" EQUAL :f` with the one parameter f |
| `FilterAndSortUtils.BetweenScenario` | server/src/utils/filterAndSortUtils.ts:195-245 | numPages moreThan 100 and lessThan 500 give `"Book"."numPages" BETWEEN :numPages AND :numPages2 ` with numPages = 100 and numPages2 = 500 |
| `FilterAndSortUtils.EqualScenario` | server/src/utils/filterAndSortUtils.ts:195-245 | languageCode equal eng gives `"Book"."languageCode" EQUAL :languageCode` bound to eng |
| `FilterAndSortUtils.UnknownFieldScenario` | server/src/utils/filterAndSortUtils.ts:221-229 | a filter on a field Book does not have gives an empty statement and no parameters |
| `FilterAndSortUtils.SharedParameterScenario` | server/src/utils/filterAndSortUtils.ts:231-234 | two equal filters on numPages repeat the fragment and share one parameter, bound to the second value |
| `FilterAndSortUtils.VisitFilter` | server/src/utils/filterAndSortUtils.ts:202-238 | one `forEach` turn moves the finished set and the emitted clauses as `Visit` says, and keeps the pushed fragments and merged parameters those of the emitted clauses; a finished filter changes nothing, and otherwise the turn only adds: at most one fragment, pushed only when the filter itself becomes finished |
| `FilterAndSortUtils.MapFiltersToWhere` | server/src/utils/filterAndSortUtils.ts:195-245 | returns the statement and the parameters of the clauses the loop emits |
| `FilterAndSortUtils.FirstIndex` | server/src/utils/filterAndSortUtils.ts:254-256 | the index of the first entry with the key, or the number of entries when there is none |
| `FilterAndSortUtils.SetPropertyKeys` | server/src/utils/filterAndSortUtils.ts:254-256 | setting a property keeps the keys distinct and the other properties in place; an existing key keeps its place, a new one goes last |
| `FilterAndSortUtils.FromEntriesStep` | server/src/utils/filterAndSortUtils.ts:254-256 | one more entry set on the object keeps it the object of the entries |
| `FilterAndSortUtils.FromEntriesIsObjectOf` | server/src/utils/filterAndSortUtils.ts:254-256 | `Object.fromEntries` gives one property per distinct key, in the order of first appearance, with the last value |
| `FilterAndSortUtils.MapSortsToOrderBy` | server/src/utils/filterAndSortUtils.ts:252-258 | each sorted field appears once, in the order of its first sort, with the direction of its last sort |
| `FilterAndSortUtils.RepeatedSortScenario` | server/src/utils/filterAndSortUtils.ts:252-258 | numPages ASC, title DESC, numPages DESC give numPages DESC then title DESC |
| `FilterAndSortUtils.TwoSortsScenario` | server/src/utils/filterAndSortUtils.ts:252-258 | two sorts on different fields give both, in order |
| `FilterAndSortUtils.MapOptionsToFindOptions` | server/src/utils/filterAndSortUtils.ts:266-274 | the ORDER BY object of the sorts and the filter statement and parameters of the filters |
| `SeedDatabase.TemplateString` | server/src/utils/seedDatabase.ts:89-90 | `${v}` of a JSON string is the string, of a JSON integer its decimal text |
| `SeedDatabase.TrimAll` | server/src/utils/seedDatabase.ts:113 | every piece is trimmed, in place |
| `SeedDatabase.LastWord` | server/src/utils/seedDatabase.ts:115-117 | the last word of a name never holds a space |
| `SeedDatabase.LeadingWords` | server/src/utils/seedDatabase.ts:110-112 | the words of a name are its leading words followed by its last word |
| `SeedDatabase.NamesFromSlices` | server/src/utils/seedDatabase.ts:110-120 | the first name is the trimmed words but the last joined with spaces; the last name is the trimmed last word |
| `SeedDatabase.FirstName` | server/src/utils/seedDatabase.ts:110-114 | a name of one word has an empty first name |
| `SeedDatabase.LastName` | server/src/utils/seedDatabase.ts:115-120 | a last name never holds a space; for a name of one word it is the trimmed name |
| `SeedDatabase.NamesKeyInjective` | server/src/utils/seedDatabase.ts:121-124 | different first/last name pairs never share a cache key |
| `SeedDatabase.AuthorKeyOfPlainName` | server/src/utils/seedDatabase.ts:110-121 | for a name whose only whitespace is the space, the key is the name itself when it has two words or more, and a space followed by the name when it has one word |
| `SeedDatabase.SeededRows` | server/src/utils/seedDatabase.ts:32 | the rows seeded for `lastRow`: the first `lastRow` rows, all of them past the end, and with a negative value all but the last `-lastRow` |
| `SeedDatabase.AddKeysSpec` | server/src/utils/seedDatabase.ts:85-99 | creating books adds exactly the rows' ISBN-13 keys, each once, after the old keys, which keep their order |
| `SeedDatabase.ParseNames` | server/src/utils/seedDatabase.ts:110-120 | one first/last name pair per `/`-separated name, in order |
| `SeedDatabase.SameKeySameAuthor` | server/src/utils/seedDatabase.ts:37-40 | two names of a row with the same cache key resolve to the same author object |
| `SeedDatabase.ResolvedStable` | server/src/utils/seedDatabase.ts:122-127 | authors resolved against the cache stay resolved while the cache only grows |
| `SeedDatabase.AuthorKeys` | server/src/utils/seedDatabase.ts:121 | one cache key per name, in order, each the name's `${firstName} ${lastName}` |
| `SeedDatabase.KeysOfAll` | server/src/utils/seedDatabase.ts:37-40 | a key is in the set of all the keys exactly when it is one of them |
| `SeedDatabase.NamesAuthorKeysSpec` | server/src/utils/seedDatabase.ts:37-40 | a key is among the keys of a list of names exactly when it is the cache key of one of the names |
| `SeedDatabase.UnionOfSpec` | server/src/utils/seedDatabase.ts:32-41 | a key is in the union of the first `n` per-row key sets exactly when it is in one of them |
| `SeedDatabase.RowKeySets` | server/src/utils/seedDatabase.ts:36-40 | one set per row, holding the cache keys of that row's `/`-separated names |
| `SeedDatabase.RowsAuthorKeysSpec` | server/src/utils/seedDatabase.ts:32-41 | a key is among the author keys of the first `n` rows exactly when it is a key of a name of one of them |
| `SeedDatabase.RowKeysOfAll` | server/src/utils/seedDatabase.ts:32-41 | the per-row key sets the row loop has gone through union to the author keys of all the rows |
| `SeedDatabase.KeysOfSpec` | server/src/utils/seedDatabase.ts:37-40 | a key is in the set of the first `n` keys exactly when it is one of them |
| `SeedDatabase.FirstRow` | server/src/utils/seedDatabase.ts:32-41 | the row found is the first with the ISBN-13, or the end when no row has it |
| `SeedDatabase.RowBooksStep` | server/src/utils/seedDatabase.ts:32-41 | seeding one more row keeps every earlier book in place and caches a new ISBN-13 with the book of its first row |
| `SeedDatabase.FullBatches` | server/src/utils/seedDatabase.ts:45-49 | one batch per turn of the batch loop |
| `SeedDatabase.FullBatchesAt` | server/src/utils/seedDatabase.ts:45-46 | the `k`-th full batch is `slice(2500 k, 2500 k + 2500)` |
| `SeedDatabase.SaveBatches` | server/src/utils/seedDatabase.ts:45-52 | five `Book.save` calls: the four slices of 2500 from 0 to 10000, then `slice(10000, -1)` |
| `SeedDatabase.FlattenFullBatches` | server/src/utils/seedDatabase.ts:45-49 | the full batches cover the books in order up to 2500 times the number of turns |
| `SeedDatabase.SaveBatchesCover` | server/src/utils/seedDatabase.ts:45-52 | five `Book.save` calls; with at most 10000 books they save every book once and in order, with more the last book is in no batch |
| `SeedDatabase.BookSaveBatches` | server/src/utils/seedDatabase.ts:45-52 | the batch loop hands exactly `SaveBatches` to `Book.save` |
| `SeedDatabase.ValuesInOrder` | server/src/utils/seedDatabase.ts:46 | the values of the book cache, listed in the insertion order of their keys |
| `SeedDatabase.Author.constructor` | server/src/utils/seedDatabase.ts:126 | an author holds the first and last name it is created with |
| `SeedDatabase.Book.constructor` | server/src/utils/seedDatabase.ts:87-98 | a book holds the properties it is created with |
| `SeedDatabase.Seeder.constructor` | server/src/utils/seedDatabase.ts:17-20 | both caches start empty |
| `SeedDatabase.Seeder.AddOrGetAuthor` | server/src/utils/seedDatabase.ts:109-129 | the author has the name's first and last name; a cached author under the same key is returned and nothing changes, otherwise a new author is cached under the key; the book cache is untouched |
| `SeedDatabase.Seeder.AddOrGetNamedAuthor` | server/src/utils/seedDatabase.ts:121-128 | the cache lookup and insertion under `${firstName} ${lastName}`, keeping every cached author stored under its own names |
| `SeedDatabase.Seeder.CreateBook` | server/src/utils/seedDatabase.ts:73-101 | a book already cached under the row's ISBN-13 is returned and nothing changes; otherwise a new book with the trimmed title, language and publisher, the ISBN text, the cover URL and the authors is cached under the ISBN-13, which goes last in the insertion order |
| `SeedDatabase.Seeder.SeedDatabase` | server/src/utils/seedDatabase.ts:29-53 | the book cache gains the ISBN-13 of every seeded row in row order; books cached before stay as they were; each new key holds the book built from the first seeded row with that ISBN-13, whose authors are the cached authors of that row's names; cached authors stay and the author cache gains exactly the keys of every `/`-separated name of every seeded row, rows with a repeated ISBN-13 included; the batches are those of the books in insertion order |
| `SeedDatabase.Seeder.SeedRows` | server/src/utils/seedDatabase.ts:32-42 | the row loop adds the rows' ISBN-13 keys in order, keeps every cached author and book, caches under each new key the book of the first row with it, and adds to the author cache exactly the keys of the names of every row |
| `SeedDatabase.Seeder.SeedNextRow` | server/src/utils/seedDatabase.ts:33-41 | one turn of the row loop: the invariants of the loop after `r` rows hold again after `r + 1`, the author cache having gained the keys of row `r`'s names |
| `SeedDatabase.Seeder.SeedOneRow` | server/src/utils/seedDatabase.ts:33-41 | one row resolves its authors, then adds its ISBN-13 key; the other books stay, a cached book under the key stays, and otherwise the key holds the book built from this row with the row's resolved authors; the author cache gains exactly the keys of the row's names, whether or not the book was new |
| `SeedDatabase.Seeder.AddOrGetAuthors` | server/src/utils/seedDatabase.ts:37-40 | one author per `/`-separated name, in order, each with that name's first and last name and cached under its key; the author cache gains exactly the keys of the names; the book cache is untouched |
| `SeedDatabase.Seeder.ResolveNextAuthor` | server/src/utils/seedDatabase.ts:38-39 | one turn of the author loop resolves the next name, keeps the earlier authors resolved, and adds exactly that name's key to the author cache |
| `BookResolver.SearchParameter` | src/resolvers/book.ts:88 | the search text is bound as text, and a null or undefined search stays null or undefined |
| `BookResolver.CompleteWhere` | src/resolvers/book.ts:84-98 | with an empty filter statement, the search clause alone bound to `searchQuery` alone; otherwise the search clause, " AND " and the filter statement, with the filter parameters assigned over `searchQuery` |
| `BookResolver.NoClauseMeansSearchOnly` | src/resolvers/book.ts:91-98 | when no filter yields a clause the query is the search alone, and no parameter of a discarded filter reaches it |
| `BookResolver.SomeClauseMeansConjunction` | src/resolvers/book.ts:91-94 | when some filter yields a clause its statement follows the search clause after " AND " |
| `BookResolver.ColumnIsNotSearchQuery` | src/resolvers/book.ts:96-97 | neither a column name nor a column name with "2" appended is `searchQuery` |
| `BookResolver.ClauseParameterName` | src/resolvers/book.ts:97 | a clause binds only its field and, for a range, its field with "2" appended |
| `BookResolver.SearchQueryIsNoFilterParameter` | src/resolvers/book.ts:96-98 | no filter parameter is ever named `searchQuery`, so `Object.assign` never overwrites the search text |
| `BookResolver.BooksWhereParameters` | src/resolvers/book.ts:96-98 | whatever the filters, the search text stays bound to `searchQuery` and every filter parameter keeps its value |
| `BookResolver.ReviewsBy` | src/resolvers/book.ts:56-58 | the filter keeps only reviews of the book by the user, keeps every one of them, and is empty exactly when the user wrote none |
| `BookResolver.ReviewsByAppend` | src/resolvers/book.ts:56-58 | the filter keeps the list's order: filtering a list with one more review at the end adds that review at the end exactly when it is by the user |
| `BookResolver.FirstReviewBy` | src/resolvers/book.ts:56-58 | the first review the filter keeps is the user's first review in the book's list |
| `BookResolver.FirstReviewOf` | src/resolvers/book.ts:56-59 | `filter(...)[0]` is undefined exactly when no review is by the user, and otherwise the user's first review |
| `BookResolver.YourReview` | src/resolvers/book.ts:51-60 | null without a session user; with a user and no loaded `reviews` a TypeError is thrown, and only then; otherwise undefined exactly when the user has no review of the book, else the user's first review |
| `BookResolver.ReviewsByOthersDropped` | src/resolvers/book.ts:56-58 | reviews by other users placed in front are all dropped by the filter |
| `BookResolver.OthersReviewsIgnored` | src/resolvers/book.ts:51-60 | reviews by other users placed in front never change which review is yours |

## Left out

- The ORM metadata lookup of `_convertFilterValueType` is replaced by the constant `BookColumns`, which lists the columns of `server/src/entities/Book.ts` with the type the metadata reports for each.
- `parseInt` and `new Date` are kept symbolic: a converted value records which conversion was applied to which text, so `NaN` and invalid dates are not modelled.
- `FindOperatorWithExtras` is a record of its type, value and `multipleParameters` flag. The TypeORM `FindOperator` class behind it is not modelled.
- The database is not modelled. This covers `findAndCount`, the `Author.create(...).save()` round trip, `Book.save` and `createSessionTable` with the `newSchema` flag:
  - a saved author is a new `Author` object, and the id the database gives it is not modelled;
  - the `Book.save` calls are modelled as the list of batches they receive;
  - a failed save, which the code only logs, is not modelled.
- The `await` sequencing of the seeder is modelled as plain sequential calls. The un-awaited `createBook` and the promise chains are not modelled.
- The seeder's default `lastRow = 1` is not modelled: `Seeder.SeedDatabase` always takes `lastRow` as an argument.
- The guard `if (newAuthor)` of the author loop always holds, because `addOrGetAuthor` always returns an object. Every resolved author is therefore kept.
- The dataset file is a parameter, `seedData`. Its JSON numbers are modelled as integers only.
- `src/resolvers/book.ts` imports `src/utils/filterAndSortUtils.ts`, which is not part of this model. The model assumes it agrees with `server/src/utils/filterAndSortUtils.ts`, which `FilterAndSortUtils` models.
- Whether a book's `reviews` relation is loaded depends on the query that fetched the book. `BookResolver.YourReview` takes it as a `Js` value; which queries load it is not modelled.
- `console.log` output is left out everywhere.
- The `averageRating` resolver is left out because it computes a floating-point mean.
- The rest of the `books` resolver (pagination, the query builder, the joins) is left out because it runs the database query.
- `src/resolvers/user.ts`, `src/resolvers/review.ts`, the server bootstrap, the entity declarations, `src/utils/updateCover.ts`, `server/src/utils/cleanData.py` and the tests are not part of this model.
- `JsCore.ToUpperCase` only upper-cases the ASCII letters a-z. The Unicode case mapping of `toUpperCase` is not modelled.
- `Registration.ValidateRegister` counts lengths in characters. JavaScript counts UTF-16 code units, which differ for characters outside the Basic Multilingual Plane.
- `FilterAndSortUtils.MapSortsToOrderBy` states the insertion order of ordinary property names. JavaScript lists integer-like property names (a sort field such as "1") first, in numeric order, and that is not modelled.
- `BookResolver.CompleteWhere` models `Object.assign(searchMatchParameters, filterParameters)` as a map merge. That the call mutates and returns the `searchMatchParameters` object itself is not modelled.
- The filter statement is not parenthesised after " AND ", so the search's ORs bind looser than the filters. `BookResolver.CompleteWhere` states the exact statement text, which shows this, and no separate lemma is given for it.
