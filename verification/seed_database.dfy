/**
 * Pre-population of the database from the Goodreads dataset. A `Seeder`
 * keeps one author per normalised name and one book per ISBN-13, so rows
 * that repeat an author or a book reuse the first object made for it; the
 * books are then saved in batches of 2500.
 */
module SeedDatabase {
  import opened JsCore

  // ---------------------------------------------------------------------------
  // The dataset

  /** A JSON value that is a number or a string, as `isbn` and `isbn13` appear in the dataset. */
  datatype JsonScalar = JNumber(n: int) | JString(s: string)

  /** The template literal `${v}`. */
  function TemplateString(v: JsonScalar): (r: string)
    ensures v.JString? ==> r == v.s
    ensures v.JNumber? && v.n >= 0 ==> r == NatToString(v.n)
    ensures v.JNumber? && v.n < 0 ==> r == "-" + NatToString(-v.n)
  {
    match v
    case JNumber(n) => IntToString(n)
    case JString(s) => s
  }

  /** A row of the dataset without its `authors` column. */
  datatype BookProps = BookProps(
    title: string,
    isbn: JsonScalar,
    isbn13: JsonScalar,
    languageCode: string,
    numPages: int,
    publicationDate: string,
    publisher: string,
    ratingsCount: int)

  /** A row of the dataset: the authors, separated by `/`, and the book. */
  datatype SeedRow = SeedRow(authors: string, bookProps: BookProps)

  /** `new Date(text)`; the date is kept as the text it is made from. */
  datatype Date = Date(text: string)

  // ---------------------------------------------------------------------------
  // Entities

  class Author {
    const firstName: string
    const lastName: string

    constructor (firstName: string, lastName: string)
      ensures this.firstName == firstName && this.lastName == lastName
    {
      this.firstName := firstName;
      this.lastName := lastName;
    }
  }

  class Book {
    const title: string
    const isbn: string
    const isbn13: string
    const languageCode: string
    const numPages: int
    const publicationDate: Date
    const publisher: string
    const goodreadsRatings: int
    const bookCoverUrl: string
    const authors: seq<Author>

    constructor (title: string, isbn: string, isbn13: string, languageCode: string,
                 numPages: int, publicationDate: Date, publisher: string,
                 goodreadsRatings: int, bookCoverUrl: string, authors: seq<Author>)
      ensures this.title == title && this.isbn == isbn && this.isbn13 == isbn13
      ensures this.languageCode == languageCode && this.numPages == numPages
      ensures this.publicationDate == publicationDate && this.publisher == publisher
      ensures this.goodreadsRatings == goodreadsRatings && this.bookCoverUrl == bookCoverUrl
      ensures this.authors == authors
    {
      this.title := title;
      this.isbn := isbn;
      this.isbn13 := isbn13;
      this.languageCode := languageCode;
      this.numPages := numPages;
      this.publicationDate := publicationDate;
      this.publisher := publisher;
      this.goodreadsRatings := goodreadsRatings;
      this.bookCoverUrl := bookCoverUrl;
      this.authors := authors;
    }
  }

  // ---------------------------------------------------------------------------
  // Author names

  function TrimAll(parts: seq<string>): (r: seq<string>)
    ensures |r| == |parts|
    ensures forall k :: 0 <= k < |parts| ==> r[k] == Trim(parts[k])
  {
    seq(|parts|, k requires 0 <= k < |parts| => Trim(parts[k]))
  }

  /** The words of a name: the pieces of `author.split(' ')`. */
  function Words(author: string): seq<string> {
    Split(author, ' ')
  }

  /** The last word of a name. */
  function LastWord(author: string): (w: string)
    ensures ' ' !in w
  {
    var words := Words(author);
    words[|words| - 1]
  }

  /** The words of a name before its last one. */
  function LeadingWords(author: string): (ws: seq<string>)
    ensures Words(author) == ws + [LastWord(author)]
  {
    var words := Words(author);
    words[..|words| - 1]
  }

  /**
   * Every word of the name but the last, each trimmed, joined with single
   * spaces: a name of one word has an empty first name.
   */
  function FirstName(author: string): (r: string)
    ensures ' ' !in author ==> r == ""
  {
    Join(TrimAll(LeadingWords(author)), " ")
  }

  /**
   * The last word of the name, trimmed. It never holds a space, so the last
   * space of a cache key ends the first name.
   */
  function LastName(author: string): (r: string)
    ensures ' ' !in r
    ensures ' ' !in author ==> r == Trim(author)
  {
    var w := LastWord(author);
    assert forall c :: c in Trim(w) ==> c in w;
    Trim(w)
  }

  /**
   * The two names are what `addOrGetAuthor` computes:
   * `author.split(' ').slice(0, -1).map(trim).join(' ')` and
   * `author.split(' ').slice(-1).map(trim).join(' ').trim()`.
   */
  lemma NamesFromSlices(author: string)
    ensures FirstName(author) == Join(TrimAll(Slice(Split(author, ' '), 0, -1)), " ")
    ensures var words := Split(author, ' ');
      LastName(author) == Trim(Join(TrimAll(Slice(words, -1, |words|)), " "))
  {
    var words := Split(author, ' ');
    SliceAllButLast(words);
    LastOfWords(words);
    TrimIdempotent(words[|words| - 1]);
  }

  lemma LastOfWords(words: seq<string>)
    requires |words| >= 1
    ensures Join(TrimAll(Slice(words, -1, |words|)), " ") == Trim(words[|words| - 1])
  {
    var last := words[|words| - 1];
    SliceLastOne(words);
    assert TrimAll([last]) == [Trim(last)];
  }

  /** `${firstName} ${lastName}`: the key under which an author is cached. */
  function NamesKey(firstName: string, lastName: string): string {
    firstName + " " + lastName
  }

  function AuthorKey(author: string): string {
    NamesKey(FirstName(author), LastName(author))
  }

  /**
   * A key splits back into its first and last name at its last space, since
   * a last name never holds one: different names never share a cache key.
   */
  lemma {:induction false} NamesKeyInjective(f1: string, l1: string, f2: string, l2: string)
    requires ' ' !in l1 && ' ' !in l2
    requires NamesKey(f1, l1) == NamesKey(f2, l2)
    ensures f1 == f2 && l1 == l2
  {
    var s := NamesKey(f1, l1);
    if |l1| < |l2| {
      LongerLastNameHasSpace(f1, l1, f2, l2);
    } else if |l2| < |l1| {
      LongerLastNameHasSpace(f2, l2, f1, l1);
    }
    assert f1 == s[..|f1|] == f2;
    assert l1 == s[|f1| + 1..] == l2;
  }

  lemma LongerLastNameHasSpace(f1: string, l1: string, f2: string, l2: string)
    requires NamesKey(f1, l1) == NamesKey(f2, l2) && |l1| < |l2|
    ensures ' ' in l2
  {
    var s := NamesKey(f1, l1);
    var p := |s| - |l1| - 1;
    assert s[p] == ' ';
    assert s[p] == l2[p - |f2| - 1];
  }

  /** Trimming the words of a name without other whitespace than spaces changes nothing. */
  lemma TrimPlain(s: string)
    requires forall c :: c in s ==> !IsWhitespace(c)
    ensures Trim(s) == s
  {
    assert forall i :: 0 <= i < |s| ==> s[i] in s;
  }

  lemma {:induction false} WordsNotTrimmed(words: seq<string>)
    requires forall k, c :: 0 <= k < |words| && c in words[k] ==> !IsWhitespace(c)
    ensures TrimAll(words) == words
  {
    forall k | 0 <= k < |words|
      ensures Trim(words[k]) == words[k]
    {
      TrimPlain(words[k]);
    }
  }

  /**
   * For a name whose only whitespace is the space, the cache key is the name
   * itself when it has two words or more, and the name after a space when it
   * has one word (its first name is then empty).
   */
  lemma AuthorKeyOfPlainName(author: string)
    requires forall c :: c in author && IsWhitespace(c) ==> c == ' '
    ensures ' ' in author ==> AuthorKey(author) == author
    ensures ' ' !in author ==> FirstName(author) == "" && LastName(author) == author
    ensures ' ' !in author ==> AuthorKey(author) == " " + author
  {
    PlainNameWords(author);
    if |Words(author)| == 1 {
      OneWordName(author);
    } else {
      SeveralWordsName(author);
    }
  }

  lemma OneWordName(author: string)
    requires FirstName(author) == Join(LeadingWords(author), " ")
    requires LastName(author) == LastWord(author)
    requires |Words(author)| == 1
    ensures ' ' !in author && FirstName(author) == "" && LastName(author) == author
    ensures AuthorKey(author) == " " + author
  {
    var words, leading, last := Words(author), LeadingWords(author), LastWord(author);
    assert leading == [] && words == [last];
    assert last == author by {
      JoinSplit(author, ' ');
    }
    assert ' ' !in author;
    assert AuthorKey(author) == NamesKey("", author);
  }

  lemma SeveralWordsName(author: string)
    requires FirstName(author) == Join(LeadingWords(author), " ")
    requires LastName(author) == LastWord(author)
    requires |Words(author)| > 1
    ensures ' ' in author && AuthorKey(author) == author
  {
    var words, leading, last := Words(author), LeadingWords(author), LastWord(author);
    JoinSplit(author, ' ');
    JoinLast(words, " ");
    assert words[..|words| - 1] == leading;
    assert author == Join(leading, " ") + " " + last;
    assert author[|Join(leading, " ")|] == ' ';
  }

  /** Without other whitespace than spaces, the names are the words, untrimmed. */
  lemma PlainNameWords(author: string)
    requires forall c :: c in author && IsWhitespace(c) ==> c == ' '
    ensures FirstName(author) == Join(LeadingWords(author), " ")
    ensures LastName(author) == LastWord(author)
  {
    PlainWords(author);
    var words, leading, last := Words(author), LeadingWords(author), LastWord(author);
    assert forall k :: 0 <= k < |leading| ==> leading[k] == words[k];
    WordsNotTrimmed(leading);
    assert last == words[|words| - 1];
    TrimPlain(last);
  }

  /** The words of a name whose only whitespace is the space hold no whitespace at all. */
  lemma PlainWords(author: string)
    requires forall c :: c in author && IsWhitespace(c) ==> c == ' '
    ensures forall k, c :: 0 <= k < |Words(author)| && c in Words(author)[k] ==> !IsWhitespace(c)
  {
    SplitChars(author, ' ');
  }

  /** Every character of every piece of a split occurs in the string. */
  lemma {:induction false} SplitChars(s: string, sep: char)
    ensures forall k, c :: 0 <= k < |Split(s, sep)| && c in Split(s, sep)[k] ==> c in s
  {
    if s != [] {
      SplitChars(s[1..], sep);
      var rest := Split(s[1..], sep);
      assert forall c :: c in s[1..] ==> c in s;
      if s[0] != sep {
        var parts := [[s[0]] + rest[0]] + rest[1..];
        assert Split(s, sep) == parts;
        forall k, c | 0 <= k < |parts| && c in parts[k]
          ensures c in s
        {
          if k > 0 {
            assert parts[k] == rest[k];
          }
        }
      } else {
        assert Split(s, sep) == [""] + rest;
      }
    }
  }

  // ---------------------------------------------------------------------------
  // Rows, keys and batches

  /** `seedData.slice(0, lastRow)`: with `-1` every row but the last one is seeded. */
  function SeededRows(seedData: seq<SeedRow>, lastRow: int): (rows: seq<SeedRow>)
    ensures 0 <= lastRow <= |seedData| ==> rows == seedData[..lastRow]
    ensures lastRow > |seedData| ==> rows == seedData
    ensures lastRow < 0 && |seedData| + lastRow >= 0 ==> rows == seedData[..|seedData| + lastRow]
    ensures lastRow < 0 && |seedData| + lastRow < 0 ==> rows == []
  {
    Slice(seedData, 0, lastRow)
  }

  function Isbn13Key(props: BookProps): string {
    TemplateString(props.isbn13)
  }

  predicate Distinct(keys: seq<string>) {
    forall i, j :: 0 <= i < j < |keys| ==> keys[i] != keys[j]
  }

  /** `map.set(key, …)` on the insertion order of a JavaScript `Map`. */
  function AddKey(keys: seq<string>, key: string): seq<string> {
    if key in keys then keys else keys + [key]
  }

  /** The insertion order of `isbn13Map` once the books of the first `n` rows have been created. */
  function AddKeys(keys: seq<string>, rows: seq<SeedRow>, n: nat): seq<string>
    requires n <= |rows|
  {
    if n == 0 then keys
    else AddKey(AddKeys(keys, rows, n - 1), Isbn13Key(rows[n - 1].bookProps))
  }

  /** Creating the books of some rows adds exactly their ISBN-13 keys, once each, after the old ones. */
  lemma {:induction false} AddKeysSpec(keys: seq<string>, rows: seq<SeedRow>, n: nat)
    requires n <= |rows| && Distinct(keys)
    ensures Distinct(AddKeys(keys, rows, n))
    ensures |AddKeys(keys, rows, n)| >= |keys|
    ensures AddKeys(keys, rows, n)[..|keys|] == keys
    ensures forall k :: k in AddKeys(keys, rows, n) <==>
      k in keys || exists i :: 0 <= i < n && Isbn13Key(rows[i].bookProps) == k
  {
    if n > 0 {
      AddKeysSpec(keys, rows, n - 1);
      var before := AddKeys(keys, rows, n - 1);
      var key := Isbn13Key(rows[n - 1].bookProps);
      forall k | k in AddKeys(keys, rows, n)
        ensures k in keys || exists i :: 0 <= i < n && Isbn13Key(rows[i].bookProps) == k
      {
        if k !in before {
          assert k == key;
        }
      }
    }
  }

  /** Every entry of `m` is still in `m'`, unchanged. */
  ghost predicate Extends(m': map<string, Author>, m: map<string, Author>) {
    forall key :: key in m ==> key in m' && m'[key] == m[key]
  }

  /** The first and last name parsed from an author's name. */
  datatype Name = Name(first: string, last: string)

  /** The names parsed from each of `names`, in order. */
  function ParseNames(names: seq<string>): (r: seq<Name>)
    ensures |r| == |names|
    ensures forall k {:trigger r[k]} :: 0 <= k < |names| ==> r[k] == Name(FirstName(names[k]), LastName(names[k]))
  {
    seq(|names|, k requires 0 <= k < |names| => Name(FirstName(names[k]), LastName(names[k])))
  }

  /**
   * The first `n` names have been resolved: the `k`-th author carries the
   * `k`-th parsed first and last name and is the one `m` caches under their key.
   */
  ghost predicate Resolved(m: map<string, Author>, authors: seq<Author>, parsed: seq<Name>, n: nat)
    requires n <= |authors| && n <= |parsed|
  {
    n == 0 ||
    (Resolved(m, authors, parsed, n - 1)
     && authors[n - 1].firstName == parsed[n - 1].first
     && authors[n - 1].lastName == parsed[n - 1].last
     && NamesKey(parsed[n - 1].first, parsed[n - 1].last) in m
     && m[NamesKey(parsed[n - 1].first, parsed[n - 1].last)] == authors[n - 1])
  }

  /** Resolving more names and caching more authors keeps the names already resolved. */
  lemma {:induction false} ResolvedExtend(m: map<string, Author>, m': map<string, Author>,
                                          authors: seq<Author>, a: Author, parsed: seq<Name>, n: nat)
    requires n <= |authors| && n <= |parsed|
    requires Resolved(m, authors, parsed, n) && Extends(m', m)
    ensures Resolved(m', authors + [a], parsed, n)
  {
    if n > 0 {
      ResolvedExtend(m, m', authors, a, parsed, n - 1);
      assert (authors + [a])[n - 1] == authors[n - 1];
    }
  }

  /** What `Resolved` says about each of the resolved names. */
  lemma {:induction false} ResolvedAt(m: map<string, Author>, authors: seq<Author>, parsed: seq<Name>, n: nat, k: nat)
    requires n <= |authors| && n <= |parsed| && k < n
    requires Resolved(m, authors, parsed, n)
    ensures authors[k].firstName == parsed[k].first && authors[k].lastName == parsed[k].last
    ensures NamesKey(parsed[k].first, parsed[k].last) in m && m[NamesKey(parsed[k].first, parsed[k].last)] == authors[k]
  {
    if k < n - 1 {
      ResolvedAt(m, authors, parsed, n - 1, k);
    }
  }

  /** Two names of a row with the same cache key resolve to the very same author. */
  lemma SameKeySameAuthor(m: map<string, Author>, authors: seq<Author>, names: seq<string>, i: nat, k: nat)
    requires |authors| == |names| && Resolved(m, authors, ParseNames(names), |names|)
    requires i < |names| && k < |names| && AuthorKey(names[i]) == AuthorKey(names[k])
    ensures authors[i] == authors[k]
  {
    var parsed := ParseNames(names);
    ResolvedAt(m, authors, parsed, |names|, i);
    ResolvedAt(m, authors, parsed, |names|, k);
    assert parsed[i] == Name(FirstName(names[i]), LastName(names[i]));
    assert parsed[k] == Name(FirstName(names[k]), LastName(names[k]));
  }

  const BatchSize: nat := 2500
  const BatchLimit: nat := 10000

  /** The batches `values.slice(2500 k, 2500 k + 2500)` for `k < n`. */
  function FullBatches<T>(values: seq<T>, n: nat): (r: seq<seq<T>>)
    ensures |r| == n
  {
    if n == 0 then []
    else FullBatches(values, n - 1) + [Slice(values, BatchSize * (n - 1), BatchSize * (n - 1) + BatchSize)]
  }

  /** The `k`-th full batch is `values.slice(2500 k, 2500 k + 2500)`. */
  lemma {:induction false} FullBatchesAt<T>(values: seq<T>, n: nat)
    ensures forall k :: 0 <= k < n ==>
      FullBatches(values, n)[k] == Slice(values, BatchSize * k, BatchSize * k + BatchSize)
  {
    if n > 0 {
      FullBatchesAt(values, n - 1);
      var init := FullBatches(values, n - 1);
      assert FullBatches(values, n) == init + [Slice(values, BatchSize * (n - 1), BatchSize * (n - 1) + BatchSize)];
    }
  }

  /**
   * What `seedDatabase` hands to `Book.save`, call by call: the slices
   * `[2500 k, 2500 k + 2500)` for `k < 4`, then `slice(10000, -1)`.
   */
  function SaveBatches<T>(values: seq<T>): (r: seq<seq<T>>)
    ensures |r| == BatchLimit / BatchSize + 1
    ensures forall k :: 0 <= k < BatchLimit / BatchSize ==> r[k] == Slice(values, BatchSize * k, BatchSize * k + BatchSize)
    ensures r[BatchLimit / BatchSize] == Slice(values, BatchLimit, -1)
  {
    FullBatchesAt(values, BatchLimit / BatchSize);
    FullBatches(values, BatchLimit / BatchSize) + [Slice(values, BatchLimit, -1)]
  }

  function Flatten<T>(batches: seq<seq<T>>): seq<T> {
    if batches == [] then [] else Flatten(batches[..|batches| - 1]) + batches[|batches| - 1]
  }

  lemma {:induction false} FlattenAppend<T>(a: seq<seq<T>>, b: seq<seq<T>>)
    ensures Flatten(a + b) == Flatten(a) + Flatten(b)
  {
    if b != [] {
      FlattenAppend(a, b[..|b| - 1]);
      assert (a + b)[..|a + b| - 1] == a + b[..|b| - 1];
      assert (a + b)[|a + b| - 1] == b[|b| - 1];
    } else {
      assert a + b == a;
    }
  }

  /** The full batches cover the values in order up to `2500 n`. */
  lemma {:induction false} FlattenFullBatches<T>(values: seq<T>, n: nat)
    ensures Flatten(FullBatches(values, n)) == Slice(values, 0, BatchSize * n)
  {
    if n > 0 {
      FlattenFullBatches(values, n - 1);
      var a, b := BatchSize * (n - 1), BatchSize * n;
      var batches, init := FullBatches(values, n), FullBatches(values, n - 1);
      assert batches == init + [Slice(values, a, b)];
      assert batches[..n - 1] == init;
      assert Flatten(batches) == Slice(values, 0, a) + Slice(values, a, b);
      SliceConcat(values, 0, a, b);
    }
  }

  /**
   * Every book is saved once and in order, except that with more than 10000
   * books the last one is in no batch: `slice(10000, -1)` stops before it.
   */
  lemma SaveBatchesCover<T>(values: seq<T>)
    ensures |SaveBatches(values)| == 5
    ensures |values| <= BatchLimit ==> Flatten(SaveBatches(values)) == values
    ensures |values| > BatchLimit ==> Flatten(SaveBatches(values)) == values[..|values| - 1]
  {
    var full := FullBatches(values, 4);
    FlattenFullBatches(values, 4);
    FlattenAppend(full, [Slice(values, BatchLimit, -1)]);
    assert Flatten([Slice(values, BatchLimit, -1)]) == Slice(values, BatchLimit, -1) by {
      assert [Slice(values, BatchLimit, -1)][..0] == [];
    }
    if |values| > BatchLimit {
      assert values[..BatchLimit] + values[BatchLimit..|values| - 1] == values[..|values| - 1];
    }
  }

  /** The `Book.save` calls of `seedDatabase`: four batches of 2500, then the rest. */
  method BookSaveBatches<T>(values: seq<T>) returns (batches: seq<seq<T>>)
    ensures batches == SaveBatches(values)
  {
    batches := [];
    var i := 0;
    ghost var n := 0;
    while i < BatchLimit
      invariant 0 <= n <= BatchLimit / BatchSize && i == BatchSize * n
      invariant batches == FullBatches(values, n)
    {
      batches := batches + [Slice(values, i, i + BatchSize)];
      i := i + BatchSize;
      n := n + 1;
    }
    batches := batches + [Slice(values, BatchLimit, -1)];
  }

  /** The values of a `Map` in insertion order. */
  function ValuesInOrder(m: map<string, Book>, keys: seq<string>): (r: seq<Book>)
    requires forall k :: k in keys ==> k in m
    ensures |r| == |keys|
    ensures forall i :: 0 <= i < |keys| ==> r[i] == m[keys[i]]
  {
    if keys == [] then [] else ValuesInOrder(m, keys[..|keys| - 1]) + [m[keys[|keys| - 1]]]
  }

  /** Resolved names stay resolved while the cache only grows. */
  lemma {:induction false} ResolvedStable(m: map<string, Author>, m': map<string, Author>,
                                          authors: seq<Author>, parsed: seq<Name>, n: nat)
    requires n <= |authors| && n <= |parsed|
    requires Resolved(m, authors, parsed, n) && Extends(m', m)
    ensures Resolved(m', authors, parsed, n)
  {
    if n > 0 {
      ResolvedStable(m, m', authors, parsed, n - 1);
    }
  }

  /** The cache key of each of `names`, in order. */
  function AuthorKeys(names: seq<string>): (r: seq<string>)
    ensures |r| == |names|
    ensures forall k {:trigger r[k]} :: 0 <= k < |names| ==> r[k] == AuthorKey(names[k])
  {
    seq(|names|, k requires 0 <= k < |names| => AuthorKey(names[k]))
  }

  /** The set of the first `n` keys. */
  function KeysOf(keys: seq<string>, n: nat): set<string>
    requires n <= |keys|
  {
    if n == 0 then {} else KeysOf(keys, n - 1) + {keys[n - 1]}
  }

  /** A key is in the set of the first `n` keys exactly when it is one of them. */
  lemma {:induction false} KeysOfSpec(keys: seq<string>, n: nat)
    requires n <= |keys|
    ensures forall key :: key in KeysOf(keys, n) <==> key in keys[..n]
  {
    if n > 0 {
      KeysOfSpec(keys, n - 1);
      assert keys[..n] == keys[..n - 1] + [keys[n - 1]];
    }
  }

  /** Adding the next key to a set that holds the first `j` keys. */
  lemma KeysOfStep(start: set<string>, before: set<string>, after: set<string>, keys: seq<string>, j: nat)
    requires j < |keys| && before == start + KeysOf(keys, j) && after == before + {keys[j]}
    ensures after == start + KeysOf(keys, j + 1)
  {
  }

  /** A key is one of the first `|keys|` keys exactly when it is at some position. */
  lemma KeysOfAll(keys: seq<string>, key: string)
    ensures key in KeysOf(keys, |keys|) <==> exists k :: 0 <= k < |keys| && keys[k] == key
  {
    KeysOfSpec(keys, |keys|);
    assert keys[..|keys|] == keys;
  }

  /** The author cache keys of a list of names. */
  function NamesAuthorKeys(names: seq<string>): set<string> {
    KeysOf(AuthorKeys(names), |names|)
  }

  /** A key is a key of the names exactly when it is the key of one of them. */
  lemma NamesAuthorKeysSpec(names: seq<string>, key: string)
    ensures key in NamesAuthorKeys(names) <==> exists k :: 0 <= k < |names| && key == AuthorKey(names[k])
  {
    var keys := AuthorKeys(names);
    KeysOfAll(keys, key);
    if key in KeysOf(keys, |names|) {
      var k :| 0 <= k < |keys| && keys[k] == key;
      assert key == AuthorKey(names[k]);
    }
    if exists k :: 0 <= k < |names| && key == AuthorKey(names[k]) {
      var k :| 0 <= k < |names| && key == AuthorKey(names[k]);
      assert keys[k] == key;
    }
  }

  /** The union of the first `n` sets. */
  function UnionOf(sets: seq<set<string>>, n: nat): set<string>
    requires n <= |sets|
  {
    if n == 0 then {} else UnionOf(sets, n - 1) + sets[n - 1]
  }

  /** A key is in the union of the first `n` sets exactly when it is in one of them. */
  lemma {:induction false} UnionOfSpec(sets: seq<set<string>>, n: nat, key: string)
    requires n <= |sets|
    ensures key in UnionOf(sets, n) <==> exists r :: 0 <= r < n && key in sets[r]
  {
    if n > 0 {
      UnionOfSpec(sets, n - 1, key);
    }
  }

  /** The author cache keys of the `/`-separated names of each row. */
  function RowKeySets(rows: seq<SeedRow>): (r: seq<set<string>>)
    ensures |r| == |rows|
    ensures forall i {:trigger r[i]} :: 0 <= i < |rows| ==> r[i] == NamesAuthorKeys(Split(rows[i].authors, '/'))
  {
    seq(|rows|, i requires 0 <= i < |rows| => NamesAuthorKeys(Split(rows[i].authors, '/')))
  }

  /**
   * The author cache keys of the `/`-separated names of the first `n` rows,
   * repeated ISBN-13s included: by `RowsAuthorKeysSpec` and `NamesAuthorKeysSpec`, a
   * key is among them exactly when it is the key of a name of one of these rows.
   */
  function RowsAuthorKeys(rows: seq<SeedRow>, n: nat): set<string>
    requires n <= |rows|
  {
    UnionOf(RowKeySets(rows), n)
  }

  /**
   * A key is among those of the first `n` rows exactly when it is a key of
   * the names of one of them; with `NamesAuthorKeysSpec`, exactly when it is
   * the key of some `/`-separated name of one of these rows.
   */
  lemma RowsAuthorKeysSpec(rows: seq<SeedRow>, n: nat, key: string)
    requires n <= |rows|
    ensures key in RowsAuthorKeys(rows, n) <==>
      exists r :: 0 <= r < n && key in NamesAuthorKeys(Split(rows[r].authors, '/'))
  {
    var sets := RowKeySets(rows);
    UnionOfSpec(sets, n, key);
    forall r | 0 <= r < n
      ensures key in sets[r] <==> key in NamesAuthorKeys(Split(rows[r].authors, '/'))
    {
    }
  }

  /** Appending sets leaves the union of the first `n` unchanged. */
  lemma {:induction false} UnionOfPrefix(sets: seq<set<string>>, more: seq<set<string>>, n: nat)
    requires n <= |sets|
    ensures UnionOf(sets + more, n) == UnionOf(sets, n)
  {
    if n > 0 {
      UnionOfPrefix(sets, more, n - 1);
      assert (sets + more)[n - 1] == sets[n - 1];
    }
  }

  /** `sets[i]`: the term the facts of `RowKeysOf` are stated on. */
  function KeysAt(sets: seq<set<string>>, i: nat): set<string>
    requires i < |sets|
  {
    sets[i]
  }

  /** `sets` lists, for each of the first `n` rows, the author keys of its `/`-separated names. */
  ghost predicate RowKeysOf(rows: seq<SeedRow>, n: nat, sets: seq<set<string>>) {
    && n <= |rows| && |sets| == n
    && forall i {:trigger KeysAt(sets, i)} :: 0 <= i < n ==> KeysAt(sets, i) == KeysAt(RowKeySets(rows), i)
  }

  /** One more set listed last: the union grows by it. */
  lemma UnionAppend(sets: seq<set<string>>, x: set<string>, start: set<string>,
                    before: set<string>, after: set<string>)
    requires before == start + UnionOf(sets, |sets|) && after == before + x
    ensures after == start + UnionOf(sets + [x], |sets| + 1)
  {
    UnionOfPrefix(sets, [x], |sets|);
    assert (sets + [x])[|sets|] == x;
  }

  /** Listing the next element of `target` keeps `sets` a prefix of it, element by element. */
  lemma PrefixStep(sets: seq<set<string>>, target: seq<set<string>>, r: nat)
    requires r < |target| && |sets| == r
    requires forall i {:trigger KeysAt(sets, i)} :: 0 <= i < r ==> KeysAt(sets, i) == KeysAt(target, i)
    ensures forall i {:trigger KeysAt(sets + [target[r]], i)} :: 0 <= i < r + 1 ==>
      KeysAt(sets + [target[r]], i) == KeysAt(target, i)
  {
    forall i | 0 <= i < r + 1
      ensures KeysAt(sets + [target[r]], i) == KeysAt(target, i)
    {
      if i < r {
        assert KeysAt(sets + [target[r]], i) == KeysAt(sets, i);
      }
    }
  }

  /** The listed keys of all the rows are `RowsAuthorKeys`. */
  lemma RowKeysOfAll(rows: seq<SeedRow>, sets: seq<set<string>>)
    requires RowKeysOf(rows, |rows|, sets)
    ensures UnionOf(sets, |rows|) == RowsAuthorKeys(rows, |rows|)
  {
    var target := RowKeySets(rows);
    forall i | 0 <= i < |rows|
      ensures sets[i] == target[i]
    {
      assert KeysAt(sets, i) == KeysAt(target, i);
    }
    assert sets == target;
  }

  /** Storing under a key adds that key and no other. */
  lemma UpdateKeys<V>(m: map<string, V>, key: string, v: V)
    ensures m[key := v].Keys == m.Keys + {key}
  {
  }

  /** `b` is the book `createBook` makes from `props` and `authors`. */
  ghost predicate BuiltFrom(b: Book, props: BookProps, authors: seq<Author>) {
    && b.title == Trim(props.title)
    && b.isbn == TemplateString(props.isbn)
    && b.isbn13 == Isbn13Key(props)
    && b.languageCode == Trim(props.languageCode)
    && b.numPages == props.numPages
    && b.publicationDate == Date(props.publicationDate)
    && b.publisher == Trim(props.publisher)
    && b.goodreadsRatings == props.ratingsCount
    && b.bookCoverUrl == "http://covers.openlibrary.org/b/isbn/" + TemplateString(props.isbn) + "-M.jpg"
    && b.authors == authors
  }

  /**
   * `b` is the book of `row`: made from its properties, with one author per
   * `/`-separated name of the row, each the one `m` caches under that name.
   */
  ghost predicate RowBook(b: Book, row: SeedRow, m: map<string, Author>) {
    var names := Split(row.authors, '/');
    && BuiltFrom(b, row.bookProps, b.authors)
    && |b.authors| == |names|
    && Resolved(m, b.authors, ParseNames(names), |names|)
  }

  /** The first row whose ISBN-13 is `key`, or `|rows|` when there is none. */
  function FirstRow(rows: seq<SeedRow>, key: string): (i: nat)
    ensures i <= |rows|
    ensures forall k :: 0 <= k < i ==> Isbn13Key(rows[k].bookProps) != key
    ensures i < |rows| ==> Isbn13Key(rows[i].bookProps) == key
  {
    if rows == [] then 0
    else if Isbn13Key(rows[0].bookProps) == key then 0
    else 1 + FirstRow(rows[1..], key)
  }

  /**
   * The book cache after the first `n` rows, started from `start`: the books
   * cached before stay as they were, every other cached key is the ISBN-13 of
   * one of these rows and holds the book of the first row with that key, and
   * a key that is not cached is the key of none of these rows.
   */
  ghost predicate RowBooks(rows: seq<SeedRow>, n: nat, start: map<string, Book>,
                           books: map<string, Book>, m: map<string, Author>)
    requires n <= |rows|
  {
    && (forall key :: key in start ==> key in books && books[key] == start[key])
    && (forall key {:trigger FirstRow(rows, key)} :: key in books && key !in start ==>
          FirstRow(rows, key) < n && RowBook(books[key], rows[FirstRow(rows, key)], m))
    && (forall key {:trigger FirstRow(rows, key)} :: key !in books ==> FirstRow(rows, key) >= n)
  }

  /** Seeding one more row keeps `RowBooks`. */
  lemma RowBooksStep(rows: seq<SeedRow>, n: nat, start: map<string, Book>,
                     books: map<string, Book>, books': map<string, Book>,
                     m: map<string, Author>, m': map<string, Author>)
    requires n < |rows| && RowBooks(rows, n, start, books, m) && Extends(m', m)
    requires var key := Isbn13Key(rows[n].bookProps);
      && key in books' && books' == books[key := books'[key]]
      && (key in books ==> books'[key] == books[key])
      && (key !in books ==> RowBook(books'[key], rows[n], m'))
    ensures RowBooks(rows, n + 1, start, books', m')
  {
    var key := Isbn13Key(rows[n].bookProps);
    forall k | k in books' && k !in start
      ensures FirstRow(rows, k) < n + 1 && RowBook(books'[k], rows[FirstRow(rows, k)], m')
    {
      if k in books {
        var b := books[k];
        assert books'[k] == b;
        var names := Split(rows[FirstRow(rows, k)].authors, '/');
        ResolvedStable(m, m', b.authors, ParseNames(names), |names|);
      } else {
        assert k == key;
        assert FirstRow(rows, k) == n;
      }
    }
    forall k | k !in books'
      ensures FirstRow(rows, k) >= n + 1
    {
      assert k != key && k !in books;
    }
  }

  /** What one more turn of the row loop keeps, given what seeding one row does. */
  lemma SeedRowStep(rows: seq<SeedRow>, r: nat,
                    startKeys: seq<string>, keys: seq<string>, keys': seq<string>,
                    start: map<string, Book>, books: map<string, Book>, books': map<string, Book>,
                    startAuthors: map<string, Author>, m: map<string, Author>, m': map<string, Author>)
    requires r < |rows|
    requires keys == AddKeys(startKeys, rows, r) && keys' == AddKey(keys, Isbn13Key(rows[r].bookProps))
    requires Extends(m, startAuthors) && Extends(m', m)
    requires RowBooks(rows, r, start, books, m)
    requires var key := Isbn13Key(rows[r].bookProps);
      && key in books' && books' == books[key := books'[key]]
      && (key in books ==> books'[key] == books[key])
      && (key !in books ==> RowBook(books'[key], rows[r], m'))
    ensures keys' == AddKeys(startKeys, rows, r + 1)
    ensures Extends(m', startAuthors)
    ensures RowBooks(rows, r + 1, start, books', m')
  {
    RowBooksStep(rows, r, start, books, books', m, m');
  }

  // ---------------------------------------------------------------------------
  // The seeder

  class Seeder {
    var authorMap: map<string, Author>
    var isbn13Map: map<string, Book>
    /** The insertion order of `isbn13Map`, the order in which its values are listed. */
    var isbn13Keys: seq<string>

    /**
     * Every cached author is stored under the key of its own names, every
     * cached book under its own ISBN-13, and `isbn13Keys` lists each key
     * of `isbn13Map` once.
     */
    ghost predicate Valid()
      reads this
    {
      (forall key {:trigger authorMap[key]} :: key in authorMap ==>
         ' ' !in authorMap[key].lastName && NamesKey(authorMap[key].firstName, authorMap[key].lastName) == key)
      && (forall key :: key in isbn13Map ==> isbn13Map[key].isbn13 == key)
      && (forall key :: key in isbn13Map <==> key in isbn13Keys)
      && Distinct(isbn13Keys)
    }

    /** `[...this.isbn13Map.values()]`. */
    function Books(): seq<Book>
      reads this
      requires Valid()
    {
      ValuesInOrder(isbn13Map, isbn13Keys)
    }

    constructor ()
      ensures Valid()
      ensures authorMap == map[] && isbn13Map == map[] && isbn13Keys == []
    {
      authorMap := map[];
      isbn13Map := map[];
      isbn13Keys := [];
    }

    /**
     * `addOrGetAuthor(author)`: the cached author with the same first and
     * last name, or a new one that is cached from then on.
     */
    method AddOrGetAuthor(author: string) returns (a: Author)
      requires Valid()
      modifies this
      ensures Valid()
      ensures a.firstName == FirstName(author) && a.lastName == LastName(author)
      ensures authorMap == old(authorMap)[AuthorKey(author) := a]
      ensures AuthorKey(author) in old(authorMap) ==> a == old(authorMap)[AuthorKey(author)] && authorMap == old(authorMap)
      ensures AuthorKey(author) !in old(authorMap) ==> fresh(a)
      ensures Extends(authorMap, old(authorMap))
      ensures isbn13Map == old(isbn13Map) && isbn13Keys == old(isbn13Keys)
    {
      var firstName := FirstName(author);
      var lastName := LastName(author);
      a := AddOrGetNamedAuthor(firstName, lastName);
    }

    /** The cache lookup of `addOrGetAuthor`, once the two names are known. */
    method AddOrGetNamedAuthor(firstName: string, lastName: string) returns (a: Author)
      requires Valid() && ' ' !in lastName
      modifies this
      ensures Valid()
      ensures a.firstName == firstName && a.lastName == lastName
      ensures authorMap == old(authorMap)[NamesKey(firstName, lastName) := a]
      ensures NamesKey(firstName, lastName) in old(authorMap) ==>
        a == old(authorMap)[NamesKey(firstName, lastName)] && authorMap == old(authorMap)
      ensures NamesKey(firstName, lastName) !in old(authorMap) ==> fresh(a)
      ensures Extends(authorMap, old(authorMap))
      ensures isbn13Map == old(isbn13Map) && isbn13Keys == old(isbn13Keys)
    {
      var trimmedName := NamesKey(firstName, lastName);
      if trimmedName in authorMap {
        a := authorMap[trimmedName];
        NamesKeyInjective(a.firstName, a.lastName, firstName, lastName);
        return;
      }
      a := new Author(firstName, lastName);
      authorMap := authorMap[trimmedName := a];
    }

    /**
     * `createBook(bookProps, authors)`: the book already cached under the
     * row's ISBN-13, or a new book made from the row and cached from then on.
     */
    method CreateBook(props: BookProps, authors: seq<Author>) returns (b: Book)
      requires Valid()
      modifies this
      ensures Valid()
      ensures b.isbn13 == Isbn13Key(props)
      ensures isbn13Map == old(isbn13Map)[Isbn13Key(props) := b]
      ensures isbn13Keys == AddKey(old(isbn13Keys), Isbn13Key(props))
      ensures Isbn13Key(props) in old(isbn13Map) ==>
        b == old(isbn13Map)[Isbn13Key(props)] && isbn13Map == old(isbn13Map) && isbn13Keys == old(isbn13Keys)
      ensures Isbn13Key(props) !in old(isbn13Map) ==> fresh(b) && BuiltFrom(b, props, authors)
      ensures authorMap == old(authorMap)
    {
      var isbn13 := TemplateString(props.isbn13);
      if isbn13 in isbn13Map {
        b := isbn13Map[isbn13];
        return;
      }
      var isbn := TemplateString(props.isbn);
      b := new Book(Trim(props.title), isbn, isbn13, Trim(props.languageCode), props.numPages,
                    Date(props.publicationDate), Trim(props.publisher), props.ratingsCount,
                    "http://covers.openlibrary.org/b/isbn/" + isbn + "-M.jpg", authors);
      isbn13Map := isbn13Map[isbn13 := b];
      isbn13Keys := isbn13Keys + [isbn13];
    }

    /**
     * `seedDatabase(lastRow)`: caches the authors and the book of every seeded
     * row, then returns the batches handed to `Book.save`, in call order.
     */
    method SeedDatabase(seedData: seq<SeedRow>, lastRow: int) returns (batches: seq<seq<Book>>)
      requires Valid()
      modifies this
      ensures Valid()
      ensures isbn13Keys == AddKeys(old(isbn13Keys), SeededRows(seedData, lastRow), |SeededRows(seedData, lastRow)|)
      ensures Extends(authorMap, old(authorMap))
      ensures var rows := SeededRows(seedData, lastRow);
        authorMap.Keys == old(authorMap).Keys + RowsAuthorKeys(rows, |rows|)
      ensures var rows := SeededRows(seedData, lastRow);
        RowBooks(rows, |rows|, old(isbn13Map), isbn13Map, authorMap)
      ensures batches == SaveBatches(Books())
    {
      var rows := SeededRows(seedData, lastRow);
      ghost var rowKeys := SeedRows(rows);
      RowKeysOfAll(rows, rowKeys);
      batches := BookSaveBatches(Books());
    }

    /**
     * The row loop of `seedDatabase`, over the rows `seedData.slice(0, lastRow)`.
     * `rowKeys[i]` is the set of author keys of the names of row `i`, so the
     * author cache gains `RowsAuthorKeys(rows, |rows|)` (`RowKeysOfAll`).
     */
    method SeedRows(rows: seq<SeedRow>) returns (ghost rowKeys: seq<set<string>>)
      requires Valid()
      modifies this
      ensures Valid()
      ensures isbn13Keys == AddKeys(old(isbn13Keys), rows, |rows|)
      ensures Extends(authorMap, old(authorMap))
      ensures RowKeysOf(rows, |rows|, rowKeys) && authorMap.Keys == old(authorMap).Keys + UnionOf(rowKeys, |rows|)
      ensures RowBooks(rows, |rows|, old(isbn13Map), isbn13Map, authorMap)
    {
      rowKeys := [];
      var r := 0;
      while r < |rows|
        invariant 0 <= r <= |rows|
        invariant Valid()
        invariant Extends(authorMap, old(authorMap))
        invariant RowKeysOf(rows, r, rowKeys) && authorMap.Keys == old(authorMap).Keys + UnionOf(rowKeys, r)
        invariant isbn13Keys == AddKeys(old(isbn13Keys), rows, r)
        invariant RowBooks(rows, r, old(isbn13Map), isbn13Map, authorMap)
      {
        rowKeys := SeedNextRow(rows, r, old(isbn13Keys), old(isbn13Map), old(authorMap), rowKeys);
        r := r + 1;
      }
    }

    /** One turn of the row loop of `seedDatabase`: the row after the first `r`. */
    method SeedNextRow(rows: seq<SeedRow>, r: nat, ghost startKeys: seq<string>,
                       ghost start: map<string, Book>, ghost startAuthors: map<string, Author>,
                       ghost sets: seq<set<string>>)
      returns (ghost sets': seq<set<string>>)
      requires Valid() && r < |rows|
      requires Extends(authorMap, startAuthors)
      requires RowKeysOf(rows, r, sets) && authorMap.Keys == startAuthors.Keys + UnionOf(sets, r)
      requires isbn13Keys == AddKeys(startKeys, rows, r)
      requires RowBooks(rows, r, start, isbn13Map, authorMap)
      modifies this
      ensures Valid()
      ensures Extends(authorMap, startAuthors)
      ensures RowKeysOf(rows, r + 1, sets') && authorMap.Keys == startAuthors.Keys + UnionOf(sets', r + 1)
      ensures isbn13Keys == AddKeys(startKeys, rows, r + 1)
      ensures RowBooks(rows, r + 1, start, isbn13Map, authorMap)
    {
      ghost var keys, books, m := isbn13Keys, isbn13Map, authorMap;
      SeedOneRow(rows[r]);
      SeedRowStep(rows, r, startKeys, keys, isbn13Keys, start, books, isbn13Map, startAuthors, m, authorMap);
      ghost var target := RowKeySets(rows);
      PrefixStep(sets, target, r);
      UnionAppend(sets, target[r], startAuthors.Keys, m.Keys, authorMap.Keys);
      sets' := sets + [target[r]];
    }

    /** The body of the row loop of `seedDatabase`: the authors of the row, then its book. */
    method SeedOneRow(row: SeedRow)
      requires Valid()
      modifies this
      ensures Valid()
      ensures isbn13Keys == AddKey(old(isbn13Keys), Isbn13Key(row.bookProps))
      ensures Extends(authorMap, old(authorMap))
      ensures authorMap.Keys == old(authorMap).Keys + NamesAuthorKeys(Split(row.authors, '/'))
      ensures var key := Isbn13Key(row.bookProps);
        && key in isbn13Map && isbn13Map == old(isbn13Map)[key := isbn13Map[key]]
        && (key in old(isbn13Map) ==> isbn13Map[key] == old(isbn13Map)[key])
        && (key !in old(isbn13Map) ==> RowBook(isbn13Map[key], row, authorMap))
    {
      var splittedAuthors := AddOrGetAuthors(Split(row.authors, '/'));
      var _ := CreateBook(row.bookProps, splittedAuthors);
    }

    /** The inner loop of `seedDatabase`: the author of every `/`-separated name of a row. */
    method AddOrGetAuthors(names: seq<string>) returns (splittedAuthors: seq<Author>)
      requires Valid()
      modifies this
      ensures Valid()
      ensures |splittedAuthors| == |names|
      ensures Resolved(authorMap, splittedAuthors, ParseNames(names), |names|)
      ensures Extends(authorMap, old(authorMap))
      ensures authorMap.Keys == old(authorMap).Keys + NamesAuthorKeys(names)
      ensures isbn13Map == old(isbn13Map) && isbn13Keys == old(isbn13Keys)
    {
      splittedAuthors := [];
      ghost var parsed := ParseNames(names);
      var j := 0;
      while j < |names|
        invariant 0 <= j <= |names| && |splittedAuthors| == j
        invariant Valid()
        invariant Resolved(authorMap, splittedAuthors, parsed, |splittedAuthors|)
        invariant Extends(authorMap, old(authorMap))
        invariant authorMap.Keys == old(authorMap).Keys + KeysOf(AuthorKeys(names), j)
        invariant isbn13Map == old(isbn13Map) && isbn13Keys == old(isbn13Keys)
      {
        ghost var keys := authorMap.Keys;
        var newAuthor := ResolveNextAuthor(names, parsed, splittedAuthors);
        splittedAuthors := splittedAuthors + [newAuthor];
        assert AuthorKeys(names)[j] == AuthorKey(names[j]);
        KeysOfStep(old(authorMap).Keys, keys, authorMap.Keys, AuthorKeys(names), j);
        j := j + 1;
      }
    }

    /** One turn of the inner loop: the author of the name after those already resolved. */
    method ResolveNextAuthor(names: seq<string>, ghost parsed: seq<Name>, authors: seq<Author>)
      returns (newAuthor: Author)
      requires Valid() && parsed == ParseNames(names)
      requires |authors| < |names| && Resolved(authorMap, authors, parsed, |authors|)
      modifies this
      ensures Valid()
      ensures Resolved(authorMap, authors + [newAuthor], parsed, |authors + [newAuthor]|)
      ensures Extends(authorMap, old(authorMap))
      ensures authorMap.Keys == old(authorMap).Keys + {AuthorKey(names[|authors|])}
      ensures isbn13Map == old(isbn13Map) && isbn13Keys == old(isbn13Keys)
    {
      var j := |authors|;
      ghost var before := authorMap;
      newAuthor := AddOrGetAuthor(names[j]);
      UpdateKeys(before, AuthorKey(names[j]), newAuthor);
      ResolvedExtend(before, authorMap, authors, newAuthor, parsed, j);
      assert parsed[j] == Name(FirstName(names[j]), LastName(names[j]));
    }
  }
}
