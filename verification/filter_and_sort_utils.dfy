/**
 * The translator of the book listing's filter and sort options
 * (server/src/utils/filterAndSortUtils.ts): filters become a parameterised
 * SQL WHERE fragment with its named parameters, sorts become an ORDER BY record.
 */
module FilterAndSortUtils {
  import opened JsCore

  /** One filter option; all three are plain GraphQL strings at runtime. */
  datatype FilterInput = FilterInput(filterField: string, filterPredicate: string, filterValue: string)

  /** One sort option; neither the field nor the direction is checked. */
  datatype SortInput = SortInput(sortField: string, sortValue: string)

  // ---------------------------------------------------------------------------
  // The column registry

  /** The `type` the ORM's metadata gives a column of Book. */
  datatype ColumnType =
    | NumberType   // the reflected `Number` constructor
    | DateName     // the literal 'date' passed to @Column
    | StringType   // the reflected `String` constructor
    | DateType     // the create/update date columns, whose metadata type is none of the three above

  /** The columns of the Book entity by property name, with the type its metadata reports. */
  const BookColumns: map<string, ColumnType> := map[
    "id" := NumberType,
    "title" := StringType,
    "bookCoverUrl" := StringType,
    "isbn" := StringType,
    "isbn13" := StringType,
    "languageCode" := StringType,
    "numPages" := NumberType,
    "publicationDate" := DateName,
    "publisher" := StringType,
    "goodreadsRatings" := NumberType,
    "categoryId" := NumberType,
    "updatedAt" := DateType,
    "createdAt" := DateType
  ]

  /** A field whose column type is one of the three the conversion switch handles. */
  predicate Filterable(field: string) {
    field in BookColumns && BookColumns[field] != DateType
  }

  // ---------------------------------------------------------------------------
  // Values and operators

  /**
   * A converted filter value. `parseInt(raw)` and `new Date(raw)` are kept
   * symbolic: the value records which conversion was applied to which text.
   */
  datatype Scalar = ParsedInt(raw: string) | ParsedDate(raw: string) | Text(raw: string)

  /** A parameter value: a converted value, or JavaScript's null or undefined. */
  type JsValue = Js<Scalar>

  /** The column type a converted value was produced for. */
  function KindOf(v: Scalar): ColumnType {
    match v
    case ParsedInt(_) => NumberType
    case ParsedDate(_) => DateName
    case Text(_) => StringType
  }

  datatype OperatorValue = Single(scalar: Scalar) | Range(from: JsValue, to: JsValue)

  /** The operator record handed from the filter mapping to the SQL generation. */
  datatype FindOperatorWithExtras = FindOperatorWithExtras(opType: string, value: OperatorValue, multipleParameters: bool)

  /**
   * The two shapes the translator builds: a comparison on one converted value
   * (multipleParameters unset), or a 'between' over two endpoints with
   * multipleParameters set.
   */
  type FindOperator = op: FindOperatorWithExtras
    | op.multipleParameters == op.value.Range? && (op.value.Range? ==> op.opType == "between")
    witness FindOperatorWithExtras("equal", Single(Text("")), false)

  function Between(from: JsValue, to: JsValue): FindOperator {
    FindOperatorWithExtras("between", Range(from, to), true)
  }

  predicate IsLowerBound(predicate_: string) {
    predicate_ == "moreThan" || predicate_ == "moreThanOrEqual"
  }

  predicate IsUpperBound(predicate_: string) {
    predicate_ == "lessThan" || predicate_ == "lessThanOrEqual"
  }

  // ---------------------------------------------------------------------------
  // _convertFilterValueType, _mapFilterOperators, handleRangeFilter

  /**
   * `_convertFilterValueType`: null when the field has no Book column or its
   * type is none of Number, 'date' and String; otherwise the text converted
   * for that column type. A non-numeric text for a Number column still
   * converts (to parseInt's NaN).
   */
  function ConvertFilterValueType(field: string, value: string): (r: Option<Scalar>)
    ensures r.Some? <==> Filterable(field)
    ensures r.Some? ==> r.value.raw == value && KindOf(r.value) == BookColumns[field]
  {
    if field !in BookColumns then None
    else
      match BookColumns[field]
      case NumberType => Some(ParsedInt(value))
      case DateName => Some(ParsedDate(value))
      case StringType => Some(Text(value))
      case DateType => None
  }

  /** `_mapFilterOperators`: a one-value operator of the given predicate, or null when the value does not convert. */
  function MapFilterOperators(predicate_: string, field: string, value: string): (r: Option<FindOperator>)
    ensures r.Some? <==> Filterable(field)
    ensures r.Some? ==> r.value.opType == predicate_ && !r.value.multipleParameters
                        && r.value.value == Single(ConvertFilterValueType(field, value).value)
  {
    match ConvertFilterValueType(field, value)
    case None => None
    case Some(v) => Some(FindOperatorWithExtras(predicate_, Single(v), false))
  }

  /**
   * `handleRangeFilter`. The guard on filterA's converted value negates it
   * before comparing with null, so it never fires: only filterB's failed
   * conversion and a pair with no lower bound give null. A lower bound whose
   * partner is not an upper bound still gives a 'between' whose upper end is
   * undefined.
   */
  function HandleRangeFilter(filterA: FilterInput, filterB: FilterInput): (r: Option<FindOperator>)
    ensures r.None? <==>
      ConvertFilterValueType(filterB.filterField, filterB.filterValue).None?
      || (!IsLowerBound(filterA.filterPredicate) && !IsLowerBound(filterB.filterPredicate))
    ensures r.Some? ==> r.value.value.Range? && Filterable(filterB.filterField)
  {
    var validA := ConvertFilterValueType(filterA.filterField, filterA.filterValue);
    var validB := ConvertFilterValueType(filterB.filterField, filterB.filterValue);
    if validB.None? then None
    else if IsLowerBound(filterA.filterPredicate) then
      var to := if IsUpperBound(filterB.filterPredicate) then Value(validB.value) else Undefined;
      Some(Between(NullIfNone(validA), to))
    else if IsLowerBound(filterB.filterPredicate) then
      var to := if IsUpperBound(filterA.filterPredicate) then NullIfNone(validA) else Undefined;
      Some(Between(Value(validB.value), to))
    else None
  }

  /** A lower and an upper bound merge to a 'between' from the lower value to the upper value, in either order. */
  lemma BoundPairMerges(lower: FilterInput, upper: FilterInput)
    requires lower.filterField == upper.filterField && Filterable(lower.filterField)
    requires IsLowerBound(lower.filterPredicate) && IsUpperBound(upper.filterPredicate)
    ensures var from := Value(ConvertFilterValueType(lower.filterField, lower.filterValue).value);
            var to := Value(ConvertFilterValueType(upper.filterField, upper.filterValue).value);
            HandleRangeFilter(lower, upper) == HandleRangeFilter(upper, lower) == Some(Between(from, to))
  {
  }

  /** A lower bound whose partner is no upper bound (two `moreThan`, say) gives a 'between' with an undefined upper end. */
  lemma LowerBoundWithoutUpperBound(filterA: FilterInput, filterB: FilterInput)
    requires filterA.filterField == filterB.filterField && Filterable(filterA.filterField)
    requires IsLowerBound(filterA.filterPredicate) && !IsUpperBound(filterB.filterPredicate)
    ensures HandleRangeFilter(filterA, filterB)
         == Some(Between(Value(ConvertFilterValueType(filterA.filterField, filterA.filterValue).value), Undefined))
  {
  }

  /** The mirror case: a lower bound in filterB whose partner filterA is no bound at all (`equal` then `moreThan`, say). */
  lemma LowerBoundSecondWithoutUpperBound(filterA: FilterInput, filterB: FilterInput)
    requires filterA.filterField == filterB.filterField && Filterable(filterA.filterField)
    requires !IsLowerBound(filterA.filterPredicate) && !IsUpperBound(filterA.filterPredicate)
    requires IsLowerBound(filterB.filterPredicate)
    ensures HandleRangeFilter(filterA, filterB)
         == Some(Between(Value(ConvertFilterValueType(filterB.filterField, filterB.filterValue).value), Undefined))
  {
  }

  /** filterA's failed conversion is not caught: its null becomes an endpoint. */
  lemma FirstConversionNotChecked(filterA: FilterInput, filterB: FilterInput)
    requires !Filterable(filterA.filterField) && Filterable(filterB.filterField)
    requires IsLowerBound(filterA.filterPredicate) && IsUpperBound(filterB.filterPredicate)
    ensures HandleRangeFilter(filterA, filterB)
         == Some(Between(Null, Value(ConvertFilterValueType(filterB.filterField, filterB.filterValue).value)))
  {
  }

  /** On two filters of one field, as the range search pairs them, no endpoint is ever null. */
  lemma SameFieldEndpointsNotNull(filterA: FilterInput, filterB: FilterInput)
    requires filterA.filterField == filterB.filterField
    requires HandleRangeFilter(filterA, filterB).Some?
    ensures HandleRangeFilter(filterA, filterB).value.value.from.Value?
    ensures HandleRangeFilter(filterA, filterB).value.value.to != Null
  {
  }

  // ---------------------------------------------------------------------------
  // _convertOperatorToSymbol, _filterConditionToSql

  /**
   * `_convertOperatorToSymbol`: the four comparison names map to symbols (with
   * `lessThanOrEqual` mapped to ">", as the code has it); any other predicate
   * to its upper-case text.
   */
  function ConvertOperatorToSymbol(comparisonOperator: string): (symbol: string)
    ensures comparisonOperator == "moreThan" ==> symbol == ">"
    ensures comparisonOperator == "lessThan" ==> symbol == "<"
    ensures comparisonOperator == "moreThanOrEqual" ==> symbol == ">="
    ensures comparisonOperator == "lessThanOrEqual" ==> symbol == ">"
    ensures !IsLowerBound(comparisonOperator) && !IsUpperBound(comparisonOperator) ==>
      symbol == ToUpperCase(comparisonOperator)
    ensures comparisonOperator == "between" ==> symbol == "BETWEEN"
  {
    assert ToUpperCase("between") == "BETWEEN";
    match comparisonOperator
    case "moreThan" => ">"
    case "lessThan" => "<"
    case "moreThanOrEqual" => ">="
    case "lessThanOrEqual" => ">"
    case _ => ToUpperCase(comparisonOperator)
  }

  /** The symbol is BETWEEN exactly for the predicates that upper-case to BETWEEN, "between" among them. */
  lemma BetweenSymbol(comparisonOperator: string)
    ensures ConvertOperatorToSymbol(comparisonOperator) == "BETWEEN" <==> ToUpperCase(comparisonOperator) == "BETWEEN"
    ensures ConvertOperatorToSymbol("between") == "BETWEEN"
  {
    assert ToUpperCase("between") == "BETWEEN";
    if IsLowerBound(comparisonOperator) || IsUpperBound(comparisonOperator) {
      assert ToUpperCase(comparisonOperator)[0] != 'B';
    }
  }

  /** `"<alias>"."<field>"`: a quoted column reference. */
  function Column(alias: string, field: string): string {
    "\"" + alias + "\".\"" + field + "\""
  }

  /** `_filterConditionToSql`: the SQL fragment for one condition on `"<alias>"."<field>"` and its parameters. */
  function FilterConditionToSql(field: string, operator: FindOperator, alias: string): (r: (string, map<string, JsValue>))
    ensures Column(alias, field) <= r.0
    ensures field in r.1
  {
    var symbolOperator := ConvertOperatorToSymbol(operator.opType);
    if symbolOperator == "BETWEEN" && operator.multipleParameters then
      var otherField := field + "2";
      (Column(alias, field) + " " + symbolOperator + " :" + field + " AND :" + otherField + " ",
       map[field := operator.value.from, otherField := operator.value.to])
    else
      (Column(alias, field) + " " + symbolOperator + " :" + field, map[field := Value(operator.value.scalar)])
  }

  /**
   * A 'between' operator gives `"<alias>"."<field>" BETWEEN :<field> AND :<field>2 `
   * (with the trailing space) and the two parameters `field` and `field + "2"`;
   * any other operator gives `"<alias>"."<field>" <symbol> :<field>` and the one
   * parameter `field`.
   */
  lemma FilterConditionToSqlShape(field: string, operator: FindOperator, alias: string)
    ensures var r := FilterConditionToSql(field, operator, alias);
      && (operator.value.Range? ==>
        && r.0 == Column(alias, field) + " BETWEEN :" + field + " AND :" + field + "2 "
        && r.1 == map[field := operator.value.from, field + "2" := operator.value.to]
        && r.1.Keys == {field, field + "2"} && |r.1| == 2)
      && (operator.value.Single? ==>
        && r.0 == Column(alias, field) + " " + ConvertOperatorToSymbol(operator.opType) + " :" + field
        && r.1 == map[field := Value(operator.value.scalar)])
  {
    var otherField := field + "2";
    assert field != otherField by { assert |otherField| == |field| + 1; }
  }

  // ---------------------------------------------------------------------------
  // _getRangeFilter

  /** The first index at or after `from` whose filter is on `field`. */
  function FirstSameField(filters: seq<FilterInput>, field: string, from: nat): (r: Option<nat>)
    decreases |filters| - from
    ensures r.Some? ==> from <= r.value < |filters| && filters[r.value].filterField == field
    ensures forall k :: from <= k < |filters| && (r.None? || k < r.value) ==> filters[k].filterField != field
  {
    if from >= |filters| then None
    else if filters[from].filterField == field then Some(from)
    else FirstSameField(filters, field, from + 1)
  }

  /**
   * What `_getRangeFilter` returns: the merge of `current` with the first
   * later filter on the same field, with that filter's index, or null.
   */
  function RangeFilter(filters: seq<FilterInput>, current: FilterInput, index: nat): (r: Option<(FindOperator, nat)>)
    ensures r.Some? ==>
      && index < r.value.1 < |filters|
      && filters[r.value.1].filterField == current.filterField
      && (forall k :: index < k < r.value.1 ==> filters[k].filterField != current.filterField)
      && HandleRangeFilter(current, filters[r.value.1]) == Some(r.value.0)
    ensures r.None? ==>
      forall j :: index < j < |filters| && filters[j].filterField == current.filterField
                  && (forall k :: index < k < j ==> filters[k].filterField != current.filterField)
        ==> HandleRangeFilter(current, filters[j]).None?
  {
    match FirstSameField(filters, current.filterField, index + 1)
    case None => None
    case Some(j) =>
      match HandleRangeFilter(current, filters[j])
      case None => None
      case Some(op) => Some((op, j))
  }

  /** Only the first later filter on the field is tried: when it does not merge there is no range, whatever follows. */
  lemma {:induction false} RangeFilterTriesFirstOnly(filters: seq<FilterInput>, current: FilterInput, index: nat, j: nat)
    requires index < j < |filters| && filters[j].filterField == current.filterField
    requires forall k :: index < k < j ==> filters[k].filterField != current.filterField
    requires HandleRangeFilter(current, filters[j]).None?
    ensures RangeFilter(filters, current, index).None?
  {
    var first := FirstSameField(filters, current.filterField, index + 1);
    assert first == Some(j);
  }

  /** Without a later filter on the same field there is no range. */
  lemma NoPartnerNoRange(filters: seq<FilterInput>, current: FilterInput, index: nat)
    requires forall k :: index < k < |filters| ==> filters[k].filterField != current.filterField
    ensures RangeFilter(filters, current, index).None?
  {
  }

  /** `_getRangeFilter`: scans the filters after `index` for the first one on the same field. */
  method GetRangeFilter(filters: seq<FilterInput>, current: FilterInput, index: nat) returns (r: Option<(FindOperator, nat)>)
    ensures r == RangeFilter(filters, current, index)
  {
    var i := index + 1;
    while i < |filters|
      invariant index + 1 <= i
      invariant FirstSameField(filters, current.filterField, i) == FirstSameField(filters, current.filterField, index + 1)
      decreases |filters| - i
    {
      if filters[i].filterField == current.filterField {
        var betweenFilter := HandleRangeFilter(current, filters[i]);
        if betweenFilter.None? {
          return None;
        }
        return Some((betweenFilter.value, i));
      }
      i := i + 1;
    }
    return None;
  }

  // ---------------------------------------------------------------------------
  // _mapFiltersToWhere

  /** A fragment of the WHERE statement: the filter it stands for, its field and its operator. */
  datatype Clause = Clause(index: nat, field: string, condition: FindOperator)

  /**
   * What the loop decides for the filter at `index` when no earlier range has
   * consumed it: its condition (none when it is invalid) and the index of the
   * partner its range consumes.
   */
  function Decide(filters: seq<FilterInput>, index: nat): (r: (Option<FindOperator>, Option<nat>))
    requires index < |filters|
    ensures r.1.Some? ==> r.0.Some? && index < r.1.value < |filters|
                          && filters[r.1.value].filterField == filters[index].filterField
    ensures r.0.Some? ==> Filterable(filters[index].filterField)
  {
    var f := filters[index];
    match RangeFilter(filters, f, index)
    case Some((op, j)) => (Some(op), Some(j))
    case None => (MapFilterOperators(f.filterPredicate, f.filterField, f.filterValue), None)
  }

  /** The state of the `forEach` loop: the finished indices and the clauses emitted so far. */
  datatype LoopState = LoopState(finished: set<nat>, emitted: seq<Clause>)

  /**
   * One turn of the loop, on the filter at `index`: a finished filter changes
   * nothing; otherwise the range search's partner is finished, and a non-null
   * condition is emitted as a clause and finishes the filter itself.
   */
  function Visit(filters: seq<FilterInput>, index: nat, st: LoopState): (r: LoopState)
    requires index < |filters|
    ensures st.finished <= r.finished
    ensures st.emitted <= r.emitted && |r.emitted| <= |st.emitted| + 1
    ensures |r.emitted| == |st.emitted| + 1 ==> r.emitted[|st.emitted|].index == index && index in r.finished
  {
    if index in st.finished then st
    else
      var (condition, partner) := Decide(filters, index);
      var finished := if partner.Some? then st.finished + {partner.value} else st.finished;
      if condition.None? then LoopState(finished, st.emitted)
      else LoopState(finished + {index}, st.emitted + [Clause(index, filters[index].filterField, condition.value)])
  }

  /** The state after the loop has visited the first `n` filters. */
  function VisitFirst(filters: seq<FilterInput>, n: nat): (r: LoopState)
    requires n <= |filters|
    ensures |r.emitted| <= n
  {
    if n == 0 then LoopState({}, []) else Visit(filters, n - 1, VisitFirst(filters, n - 1))
  }

  /** The clauses of the whole loop, in the order the fragments are pushed. */
  function Clauses(filters: seq<FilterInput>): seq<Clause> {
    VisitFirst(filters, |filters|).emitted
  }

  /** The partner a clause's range consumed, if any. */
  function PartnerOf(filters: seq<FilterInput>, c: Clause): Option<nat>
    requires c.index < |filters|
  {
    Decide(filters, c.index).1
  }

  /**
   * After `n` filters, each clause stands for a distinct, finished filter
   * before `n`, in filter order, with the field of its filter and the
   * condition decided for it.
   */
  predicate ClausesInOrder(filters: seq<FilterInput>, n: nat, st: LoopState)
    requires n <= |filters|
  {
    && (forall p :: 0 <= p < |st.emitted| ==> st.emitted[p].index < n && st.emitted[p].index in st.finished)
    && (forall p, q :: 0 <= p < q < |st.emitted| ==> st.emitted[p].index < st.emitted[q].index)
    && (forall p :: 0 <= p < |st.emitted| ==>
          && st.emitted[p].field == filters[st.emitted[p].index].filterField
          && Decide(filters, st.emitted[p].index).0 == Some(st.emitted[p].condition))
  }

  /** The partner a clause's range consumed is finished and never has a clause of its own. */
  predicate PartnersConsumed(filters: seq<FilterInput>, n: nat, st: LoopState)
    requires n <= |filters| && ClausesInOrder(filters, n, st)
  {
    && (forall p :: 0 <= p < |st.emitted| && PartnerOf(filters, st.emitted[p]).Some? ==>
          PartnerOf(filters, st.emitted[p]).value in st.finished)
    && (forall p, q :: 0 <= p < |st.emitted| && 0 <= q < |st.emitted| ==>
          PartnerOf(filters, st.emitted[p]) != Some(st.emitted[q].index))
  }

  /** A finished index at or after `n` is the partner some emitted clause's range consumed. */
  predicate FinishedByPartner(filters: seq<FilterInput>, n: nat, st: LoopState)
    requires n <= |filters| && ClausesInOrder(filters, n, st)
  {
    forall f :: f in st.finished && f >= n ==>
      exists p :: 0 <= p < |st.emitted| && PartnerOf(filters, st.emitted[p]) == Some(f)
  }

  lemma VisitKeepsOrder(filters: seq<FilterInput>, n: nat)
    requires n < |filters| && ClausesInOrder(filters, n, VisitFirst(filters, n))
    ensures ClausesInOrder(filters, n + 1, VisitFirst(filters, n + 1))
  {
    var st := VisitFirst(filters, n);
    assert VisitFirst(filters, n + 1) == Visit(filters, n, st);
  }

  lemma VisitKeepsPartnersConsumed(filters: seq<FilterInput>, n: nat)
    requires n < |filters| && ClausesInOrder(filters, n, VisitFirst(filters, n))
    requires PartnersConsumed(filters, n, VisitFirst(filters, n))
    ensures ClausesInOrder(filters, n + 1, VisitFirst(filters, n + 1))
    ensures PartnersConsumed(filters, n + 1, VisitFirst(filters, n + 1))
  {
    VisitKeepsOrder(filters, n);
    var st := VisitFirst(filters, n);
    var st' := Visit(filters, n, st);
    assert VisitFirst(filters, n + 1) == st';
    if n !in st.finished && Decide(filters, n).0.Some? {
      var old_ := st.emitted;
      assert st'.emitted == old_ + [Clause(n, filters[n].filterField, Decide(filters, n).0.value)];
      forall p, q | 0 <= p < |st'.emitted| && 0 <= q < |st'.emitted|
        ensures PartnerOf(filters, st'.emitted[p]) != Some(st'.emitted[q].index)
      {
        if p < |old_| && q < |old_| {
          assert st'.emitted[p] == old_[p] && st'.emitted[q] == old_[q];
        } else if p < |old_| {
          assert st'.emitted[p] == old_[p] && st'.emitted[q].index == n;
        } else {
          assert st'.emitted[p].index == n;
        }
      }
    }
  }

  lemma VisitKeepsFinishedByPartner(filters: seq<FilterInput>, n: nat)
    requires n < |filters| && ClausesInOrder(filters, n, VisitFirst(filters, n))
    requires FinishedByPartner(filters, n, VisitFirst(filters, n))
    ensures ClausesInOrder(filters, n + 1, VisitFirst(filters, n + 1))
    ensures FinishedByPartner(filters, n + 1, VisitFirst(filters, n + 1))
  {
    VisitKeepsOrder(filters, n);
    var st := VisitFirst(filters, n);
    var st' := Visit(filters, n, st);
    assert VisitFirst(filters, n + 1) == st';
    forall f | f in st'.finished && f >= n + 1
      ensures exists p :: 0 <= p < |st'.emitted| && PartnerOf(filters, st'.emitted[p]) == Some(f)
    {
      if f in st.finished {
        var p :| 0 <= p < |st.emitted| && PartnerOf(filters, st.emitted[p]) == Some(f);
        assert st'.emitted[p] == st.emitted[p];
      } else {
        assert Decide(filters, n).1 == Some(f);
        assert st'.emitted[|st.emitted|].index == n;
      }
    }
  }

  /** What holds of the loop state after `n` filters. */
  lemma {:induction false} VisitFirstInvariant(filters: seq<FilterInput>, n: nat)
    requires n <= |filters|
    ensures ClausesInOrder(filters, n, VisitFirst(filters, n))
    ensures PartnersConsumed(filters, n, VisitFirst(filters, n))
    ensures FinishedByPartner(filters, n, VisitFirst(filters, n))
  {
    VisitFirstConsumed(filters, n);
    VisitFirstFinished(filters, n);
  }

  lemma {:induction false} VisitFirstConsumed(filters: seq<FilterInput>, n: nat)
    requires n <= |filters|
    ensures ClausesInOrder(filters, n, VisitFirst(filters, n))
    ensures PartnersConsumed(filters, n, VisitFirst(filters, n))
  {
    if n > 0 {
      var m := n - 1;
      VisitFirstConsumed(filters, m);
      VisitKeepsPartnersConsumed(filters, m);
      assert m + 1 == n;
    }
  }

  lemma {:induction false} VisitFirstFinished(filters: seq<FilterInput>, n: nat)
    requires n <= |filters|
    ensures ClausesInOrder(filters, n, VisitFirst(filters, n))
    ensures FinishedByPartner(filters, n, VisitFirst(filters, n))
  {
    if n > 0 {
      var m := n - 1;
      VisitFirstFinished(filters, m);
      VisitKeepsFinishedByPartner(filters, m);
      assert m + 1 == n;
    }
  }

  function ClauseSql(c: Clause): (string, map<string, JsValue>) {
    FilterConditionToSql(c.field, c.condition, "Book")
  }

  /** The fragments pushed for the clauses, in order. */
  function Fragments(cs: seq<Clause>): seq<string> {
    if cs == [] then [] else Fragments(cs[..|cs| - 1]) + [ClauseSql(cs[|cs| - 1]).0]
  }

  /** The parameters of all clauses, a later clause's value replacing an earlier one under the same name. */
  function Parameters(cs: seq<Clause>): map<string, JsValue> {
    if cs == [] then map[] else Parameters(cs[..|cs| - 1]) + ClauseSql(cs[|cs| - 1]).1
  }

  /** The filter statement `_mapFiltersToWhere` returns. */
  function FilterStatement(filters: seq<FilterInput>): string {
    Join(Fragments(Clauses(filters)), " AND ")
  }

  /** The filter parameters `_mapFiltersToWhere` returns. */
  function FilterParameters(filters: seq<FilterInput>): map<string, JsValue> {
    Parameters(Clauses(filters))
  }

  lemma FragmentsAppend(cs: seq<Clause>, c: Clause)
    ensures Fragments(cs + [c]) == Fragments(cs) + [ClauseSql(c).0]
  {
    assert (cs + [c])[..|cs|] == cs;
  }

  lemma ParametersAppend(cs: seq<Clause>, c: Clause)
    ensures Parameters(cs + [c]) == Parameters(cs) + ClauseSql(c).1
  {
    assert (cs + [c])[..|cs|] == cs;
  }

  /** One fragment per clause, each the SQL of its clause. */
  lemma {:induction false} FragmentsOfClauses(cs: seq<Clause>)
    ensures |Fragments(cs)| == |cs|
    ensures forall p :: 0 <= p < |cs| ==> Fragments(cs)[p] == ClauseSql(cs[p]).0
  {
    if cs != [] {
      var init := cs[..|cs| - 1];
      FragmentsOfClauses(init);
      assert cs == init + [cs[|cs| - 1]];
      FragmentsAppend(init, cs[|cs| - 1]);
    }
  }

  /** Every clause's fragment starts with the quoted column, so none is empty. */
  lemma ClauseSqlNotEmpty(c: Clause)
    ensures |ClauseSql(c).0| > |Column("Book", c.field)|
  {
    FilterConditionToSqlShape(c.field, c.condition, "Book");
  }

  /** The loop only appends: the clauses after `m` filters begin the clauses after `n >= m`. */
  lemma {:induction false} VisitFirstGrows(filters: seq<FilterInput>, m: nat, n: nat)
    requires m <= n <= |filters|
    ensures VisitFirst(filters, m).emitted <= VisitFirst(filters, n).emitted
  {
    if m < n {
      VisitFirstGrows(filters, m, n - 1);
      var before := VisitFirst(filters, n - 1).emitted;
      var after := VisitFirst(filters, n).emitted;
      assert before <= after;
    }
  }

  /**
   * The clauses of `_mapFiltersToWhere` stand for distinct filters, in the
   * order of the filters; each has its filter's field, that field has a Book
   * column of a supported type, and its condition is the filter's range if
   * the range search found one, else the filter's own operator.
   */
  lemma ClausesOfFilters(filters: seq<FilterInput>)
    ensures var cs := Clauses(filters);
      && (forall p :: 0 <= p < |cs| ==> cs[p].index < |filters|)
      && (forall p, q :: 0 <= p < q < |cs| ==> cs[p].index < cs[q].index)
      && (forall p :: 0 <= p < |cs| ==> cs[p].field == filters[cs[p].index].filterField && Filterable(cs[p].field))
      && (forall p :: 0 <= p < |cs| ==> Decide(filters, cs[p].index).0 == Some(cs[p].condition))
  {
    VisitFirstInvariant(filters, |filters|);
  }

  /** A filter on a field without a supported Book column never yields a clause. */
  lemma InvalidFilterHasNoClause(filters: seq<FilterInput>, i: nat)
    requires i < |filters| && !Filterable(filters[i].filterField)
    ensures forall p :: 0 <= p < |Clauses(filters)| ==> Clauses(filters)[p].index != i
  {
    ClausesOfFilters(filters);
  }

  /** The partner a range consumed never yields a clause of its own. */
  lemma ConsumedPartnerHasNoClause(filters: seq<FilterInput>)
    ensures var cs := Clauses(filters);
      forall p, q :: 0 <= p < |cs| && 0 <= q < |cs| && cs[p].index < |filters| ==>
        Decide(filters, cs[p].index).1 != Some(cs[q].index)
  {
    VisitFirstInvariant(filters, |filters|);
  }

  /** A valid filter whose field no other filter uses always yields its own comparison. */
  lemma UniqueValidFilterHasClause(filters: seq<FilterInput>, i: nat) returns (p: nat)
    requires i < |filters| && Filterable(filters[i].filterField)
    requires forall k :: 0 <= k < |filters| && k != i ==> filters[k].filterField != filters[i].filterField
    ensures p < |Clauses(filters)|
    ensures var f := filters[i];
      Clauses(filters)[p] == Clause(i, f.filterField, MapFilterOperators(f.filterPredicate, f.filterField, f.filterValue).value)
  {
    VisitFirstInvariant(filters, i);
    var st := VisitFirst(filters, i);
    assert i !in st.finished;
    NoPartnerNoRange(filters, filters[i], i);
    assert VisitFirst(filters, i + 1) == Visit(filters, i, st);
    p := |st.emitted|;
    VisitFirstGrows(filters, i + 1, |filters|);
  }

  /** A filter finished before the loop reaches it is the partner of one of the clauses. */
  lemma FinishedIsConsumed(filters: seq<FilterInput>, n: nat)
    requires n <= |filters|
    ensures forall f :: f in VisitFirst(filters, n).finished && f >= n ==>
      exists q :: 0 <= q < |Clauses(filters)| && Clauses(filters)[q].index < |filters|
                  && Decide(filters, Clauses(filters)[q].index).1 == Some(f)
  {
    VisitFirstInvariant(filters, n);
    var st := VisitFirst(filters, n);
    VisitFirstGrows(filters, n, |filters|);
    forall f | f in st.finished && f >= n
      ensures exists q :: 0 <= q < |Clauses(filters)| && Clauses(filters)[q].index < |filters|
                          && Decide(filters, Clauses(filters)[q].index).1 == Some(f)
    {
      var q :| 0 <= q < |st.emitted| && PartnerOf(filters, st.emitted[q]) == Some(f);
      assert Clauses(filters)[q] == st.emitted[q];
    }
  }

  /**
   * Every filter that has a condition and that no clause's range consumed
   * yields its own clause, with that condition: a third filter on a field
   * whose first two merged is handled on its own.
   */
  lemma UnconsumedFilterHasClause(filters: seq<FilterInput>, i: nat) returns (p: nat)
    requires i < |filters| && Decide(filters, i).0.Some?
    requires forall q :: 0 <= q < |Clauses(filters)| && Clauses(filters)[q].index < |filters| ==>
      Decide(filters, Clauses(filters)[q].index).1 != Some(i)
    ensures p < |Clauses(filters)|
    ensures Clauses(filters)[p] == Clause(i, filters[i].filterField, Decide(filters, i).0.value)
  {
    var st := VisitFirst(filters, i);
    FinishedIsConsumed(filters, i);
    assert i !in st.finished;
    assert VisitFirst(filters, i + 1) == Visit(filters, i, st);
    p := |st.emitted|;
    VisitFirstGrows(filters, i + 1, |filters|);
  }

  /** A parameter name is bound exactly when some clause binds it. */
  lemma ParametersKeys(cs: seq<Clause>, k: string)
    ensures k in Parameters(cs) <==> exists p :: 0 <= p < |cs| && k in ClauseSql(cs[p]).1
  {
    if k in Parameters(cs) {
      ParametersKeysBound(cs, k);
    }
    if exists p :: 0 <= p < |cs| && k in ClauseSql(cs[p]).1 {
      var p :| 0 <= p < |cs| && k in ClauseSql(cs[p]).1;
      ParametersKeysOfClause(cs, k, p);
    }
  }

  lemma {:induction false} ParametersKeysBound(cs: seq<Clause>, k: string)
    requires k in Parameters(cs)
    ensures exists p :: 0 <= p < |cs| && k in ClauseSql(cs[p]).1
  {
    var init := cs[..|cs| - 1];
    if k !in ClauseSql(cs[|cs| - 1]).1 {
      ParametersKeysBound(init, k);
      var p :| 0 <= p < |init| && k in ClauseSql(init[p]).1;
      assert cs[p] == init[p];
    }
  }

  lemma {:induction false} ParametersKeysOfClause(cs: seq<Clause>, k: string, p: nat)
    requires p < |cs| && k in ClauseSql(cs[p]).1
    ensures k in Parameters(cs)
  {
    var init := cs[..|cs| - 1];
    if p < |init| {
      assert init[p] == cs[p];
      ParametersKeysOfClause(init, k, p);
    }
  }

  /** Under a name several clauses bind, the last of them gives the value. */
  lemma {:induction false} ParametersLastWins(cs: seq<Clause>, k: string, p: nat)
    requires p < |cs| && k in ClauseSql(cs[p]).1
    requires forall q :: p < q < |cs| ==> k !in ClauseSql(cs[q]).1
    ensures k in Parameters(cs) && Parameters(cs)[k] == ClauseSql(cs[p]).1[k]
  {
    var init := cs[..|cs| - 1];
    if p < |cs| - 1 {
      assert init[p] == cs[p];
      ParametersLastWins(init, k, p);
    }
  }

  /** The statement is empty exactly when no filter yields a clause, and then there are no parameters either. */
  lemma StatementEmptyIffNoClause(filters: seq<FilterInput>)
    ensures FilterStatement(filters) == "" <==> Clauses(filters) == []
    ensures Clauses(filters) == [] ==> FilterParameters(filters) == map[]
  {
    var cs := Clauses(filters);
    FragmentsOfClauses(cs);
    if cs != [] {
      forall p | 0 <= p < |cs|
        ensures Fragments(cs)[p] != ""
      {
        ClauseSqlNotEmpty(cs[p]);
      }
      JoinNonEmpty(Fragments(cs), " AND ");
    }
  }

  /** No filters: an empty statement and no parameters. */
  lemma EmptyFilters()
    ensures FilterStatement([]) == "" && FilterParameters([]) == map[]
  {
    assert Clauses([]) == [];
  }

  /** Two filters on one field, the only ones: a range is one clause, from the first filter, on that field. */
  lemma PairClauses(filters: seq<FilterInput>)
    requires |filters| == 2 && filters[0].filterField == filters[1].filterField
    requires RangeFilter(filters, filters[0], 0).Some?
    ensures Clauses(filters) == [Clause(0, filters[0].filterField, RangeFilter(filters, filters[0], 0).value.0)]
  {
    assert VisitFirst(filters, 0) == LoopState({}, []);
    var st1 := VisitFirst(filters, 1);
    assert st1 == Visit(filters, 0, LoopState({}, []));
    assert 1 in st1.finished;
  }

  /** A lower and an upper bound on one field give the same statement and parameters in either order. */
  lemma RangePairOrderIrrelevant(lower: FilterInput, upper: FilterInput)
    requires lower.filterField == upper.filterField && Filterable(lower.filterField)
    requires IsLowerBound(lower.filterPredicate) && IsUpperBound(upper.filterPredicate)
    ensures FilterStatement([lower, upper]) == FilterStatement([upper, lower])
    ensures FilterParameters([lower, upper]) == FilterParameters([upper, lower])
  {
    BoundPairMerges(lower, upper);
    PairClauses([lower, upper]);
    PairClauses([upper, lower]);
  }

  lemma OneClause(filters: seq<FilterInput>, c: Clause)
    requires Clauses(filters) == [c]
    ensures FilterStatement(filters) == ClauseSql(c).0 && FilterParameters(filters) == ClauseSql(c).1
  {
    FragmentsAppend([], c);
    ParametersAppend([], c);
    assert [] + [c] == [c];
  }

  lemma TwoClauses(filters: seq<FilterInput>, c1: Clause, c2: Clause)
    requires Clauses(filters) == [c1, c2]
    ensures FilterStatement(filters) == ClauseSql(c1).0 + " AND " + ClauseSql(c2).0
    ensures FilterParameters(filters) == ClauseSql(c1).1 + ClauseSql(c2).1
  {
    TwoClausesSql(c1, c2);
    JoinTwo(ClauseSql(c1).0, ClauseSql(c2).0, " AND ");
  }

  lemma TwoClausesSql(c1: Clause, c2: Clause)
    ensures Fragments([c1, c2]) == [ClauseSql(c1).0, ClauseSql(c2).0]
    ensures Parameters([c1, c2]) == ClauseSql(c1).1 + ClauseSql(c2).1
  {
    assert [c1, c2][..1] == [c1];
    assert [] + [c1] == [c1];
    FragmentsAppend([], c1);
    ParametersAppend([], c1);
    FragmentsAppend([c1], c2);
    ParametersAppend([c1], c2);
    assert [c1] + [c2] == [c1, c2];
  }

  lemma EqualSql(index: nat, field: string, scalar: Scalar)
    ensures var op := FindOperatorWithExtras("equal", Single(scalar), false);
      ClauseSql(Clause(index, field, op)) == (Column("Book", field) + " EQUAL :" + field, map[field := Value(scalar)])
  {
    var op := FindOperatorWithExtras("equal", Single(scalar), false);
    assert ConvertOperatorToSymbol("equal") == "EQUAL" by {
      assert ToUpperCase("equal") == "EQUAL";
    }
    FilterConditionToSqlShape(field, op, "Book");
    assert Column("Book", field) + " " + "EQUAL" + " :" + field == Column("Book", field) + " EQUAL :" + field;
  }

  lemma NumPagesBetweenText()
    ensures Column("Book", "numPages") + " BETWEEN :" + "numPages" + " AND :" + "numPages" + "2 "
         == "\"Book\".\"numPages\" BETWEEN :numPages AND :numPages2 "
  {
    assert Column("Book", "numPages") == "\"Book\".\"numPages\"";
    assert "\"Book\".\"numPages\"" + " BETWEEN :" == "\"Book\".\"numPages\" BETWEEN :";
    assert "\"Book\".\"numPages\" BETWEEN :" + "numPages" == "\"Book\".\"numPages\" BETWEEN :numPages";
    assert "\"Book\".\"numPages\" BETWEEN :numPages" + " AND :" == "\"Book\".\"numPages\" BETWEEN :numPages AND :";
    assert "\"Book\".\"numPages\" BETWEEN :numPages AND :" + "numPages"
        == "\"Book\".\"numPages\" BETWEEN :numPages AND :numPages";
  }

  lemma LanguageCodeEqualText()
    ensures Column("Book", "languageCode") + " EQUAL :" + "languageCode" == "\"Book\".\"languageCode\" EQUAL :languageCode"
  {
    assert Column("Book", "languageCode") == "\"Book\".\"languageCode\"";
  }

  lemma NumPagesEqualText()
    ensures Column("Book", "numPages") + " EQUAL :" + "numPages" == "\"Book\".\"numPages\" EQUAL :numPages"
  {
    assert Column("Book", "numPages") == "\"Book\".\"numPages\"";
  }

  /** `numPages` more than 100 and less than 500 become one BETWEEN over `numPages` and `numPages2`. */
  lemma BetweenScenario()
    ensures var filters := [FilterInput("numPages", "moreThan", "100"), FilterInput("numPages", "lessThan", "500")];
      && FilterStatement(filters) == "\"Book\".\"numPages\" BETWEEN :numPages AND :numPages2 "
      && FilterParameters(filters) == map["numPages" := Value(ParsedInt("100")), "numPages2" := Value(ParsedInt("500"))]
  {
    var filters := [FilterInput("numPages", "moreThan", "100"), FilterInput("numPages", "lessThan", "500")];
    var op := Between(Value(ParsedInt("100")), Value(ParsedInt("500")));
    BoundPairMerges(filters[0], filters[1]);
    PairClauses(filters);
    OneClause(filters, Clause(0, "numPages", op));
    FilterConditionToSqlShape("numPages", op, "Book");
    NumPagesBetweenText();
    assert "numPages" + "2" == "numPages2";
  }

  lemma EqualScenarioClauses()
    ensures Clauses([FilterInput("languageCode", "equal", "eng")])
         == [Clause(0, "languageCode", FindOperatorWithExtras("equal", Single(Text("eng")), false))]
  {
    var filters := [FilterInput("languageCode", "equal", "eng")];
    assert VisitFirst(filters, 0) == LoopState({}, []);
    assert VisitFirst(filters, 1) == Visit(filters, 0, LoopState({}, []));
  }

  /** A language filter of predicate `equal` gives an upper-cased EQUAL comparison. */
  lemma EqualScenario()
    ensures var filters := [FilterInput("languageCode", "equal", "eng")];
      && FilterStatement(filters) == "\"Book\".\"languageCode\" EQUAL :languageCode"
      && FilterParameters(filters) == map["languageCode" := Value(Text("eng"))]
  {
    var filters := [FilterInput("languageCode", "equal", "eng")];
    EqualScenarioClauses();
    OneClause(filters, Clause(0, "languageCode", FindOperatorWithExtras("equal", Single(Text("eng")), false)));
    EqualSql(0, "languageCode", Text("eng"));
    LanguageCodeEqualText();
  }

  /** A filter on a field Book does not have is dropped: empty statement, no parameters. */
  lemma UnknownFieldScenario()
    ensures var filters := [FilterInput("unknownField", "equal", "x")];
      FilterStatement(filters) == "" && FilterParameters(filters) == map[]
  {
    var filters := [FilterInput("unknownField", "equal", "x")];
    assert VisitFirst(filters, 0) == LoopState({}, []);
    assert VisitFirst(filters, 1) == Visit(filters, 0, LoopState({}, []));
  }

  lemma SharedParameterScenarioClauses()
    ensures Clauses([FilterInput("numPages", "equal", "100"), FilterInput("numPages", "equal", "200")])
         == [Clause(0, "numPages", FindOperatorWithExtras("equal", Single(ParsedInt("100")), false)),
             Clause(1, "numPages", FindOperatorWithExtras("equal", Single(ParsedInt("200")), false))]
  {
    var filters := [FilterInput("numPages", "equal", "100"), FilterInput("numPages", "equal", "200")];
    var c1 := Clause(0, "numPages", FindOperatorWithExtras("equal", Single(ParsedInt("100")), false));
    assert RangeFilter(filters, filters[0], 0).None?;
    assert VisitFirst(filters, 0) == LoopState({}, []);
    assert VisitFirst(filters, 1) == LoopState({0}, [c1]);
    assert VisitFirst(filters, 2) == Visit(filters, 1, LoopState({0}, [c1]));
  }

  /** Two comparisons on one field that do not merge share the parameter name; the second value is the one bound. */
  lemma SharedParameterScenario()
    ensures var filters := [FilterInput("numPages", "equal", "100"), FilterInput("numPages", "equal", "200")];
      var fragment := "\"Book\".\"numPages\" EQUAL :numPages";
      && FilterStatement(filters) == fragment + " AND " + fragment
      && FilterParameters(filters) == map["numPages" := Value(ParsedInt("200"))]
  {
    var filters := [FilterInput("numPages", "equal", "100"), FilterInput("numPages", "equal", "200")];
    SharedParameterScenarioClauses();
    TwoClauses(filters, Clause(0, "numPages", FindOperatorWithExtras("equal", Single(ParsedInt("100")), false)),
                        Clause(1, "numPages", FindOperatorWithExtras("equal", Single(ParsedInt("200")), false)));
    EqualSql(0, "numPages", ParsedInt("100"));
    EqualSql(1, "numPages", ParsedInt("200"));
    NumPagesEqualText();
    assert map["numPages" := Value(ParsedInt("100"))] + map["numPages" := Value(ParsedInt("200"))]
        == map["numPages" := Value(ParsedInt("200"))];
  }

  /**
   * The `forEach` callback of `_mapFiltersToWhere` for the filter at `index`:
   * skips a finished filter; otherwise takes the range filter if there is one
   * (finishing its partner), else the filter's own operator, and when that is
   * not null pushes the SQL fragment, merges its parameters over the earlier
   * ones and finishes the filter.
   */
  method VisitFilter(filters: seq<FilterInput>, index: nat, finishedIndices: set<nat>,
                     filterQueryList: seq<string>, filterParameters: map<string, JsValue>, ghost emitted: seq<Clause>)
    returns (finishedIndices': set<nat>, filterQueryList': seq<string>, filterParameters': map<string, JsValue>,
             ghost emitted': seq<Clause>)
    requires index < |filters|
    requires filterQueryList == Fragments(emitted) && filterParameters == Parameters(emitted)
    ensures LoopState(finishedIndices', emitted') == Visit(filters, index, LoopState(finishedIndices, emitted))
    ensures filterQueryList' == Fragments(emitted') && filterParameters' == Parameters(emitted')
    ensures index in finishedIndices ==>
      finishedIndices' == finishedIndices && filterQueryList' == filterQueryList && filterParameters' == filterParameters
    ensures finishedIndices <= finishedIndices'
    ensures filterQueryList <= filterQueryList' && |filterQueryList'| <= |filterQueryList| + 1
    ensures |filterQueryList'| == |filterQueryList| + 1 ==> index in finishedIndices'
  {
    finishedIndices', filterQueryList', filterParameters', emitted' := finishedIndices, filterQueryList, filterParameters, emitted;
    var filter := filters[index];
    if index in finishedIndices {
      return;
    }
    var filterCondition: Option<FindOperator> := None;
    var betweenFilter := GetRangeFilter(filters, filter, index);
    if betweenFilter.Some? {
      filterCondition := Some(betweenFilter.value.0);
      finishedIndices' := finishedIndices' + {betweenFilter.value.1};
    }
    if filterCondition.None? {
      filterCondition := MapFilterOperators(filter.filterPredicate, filter.filterField, filter.filterValue);
    }
    if filterCondition.None? {
      return;
    }
    var clause := Clause(index, filter.filterField, filterCondition.value);
    var sql := FilterConditionToSql(filter.filterField, filterCondition.value, "Book");
    filterQueryList' := filterQueryList' + [sql.0];
    filterParameters' := filterParameters' + sql.1;
    FragmentsAppend(emitted, clause);
    ParametersAppend(emitted, clause);
    finishedIndices' := finishedIndices' + {index};
    emitted' := emitted + [clause];
  }

  /** `_mapFiltersToWhere`: visits the filters in order, then joins the fragments with " AND ". */
  method MapFiltersToWhere(filters: seq<FilterInput>) returns (filterStatement: string, filterParameters: map<string, JsValue>)
    ensures filterStatement == FilterStatement(filters)
    ensures filterParameters == FilterParameters(filters)
  {
    var finishedIndices: set<nat> := {};
    var filterQueryList: seq<string> := [];
    filterParameters := map[];
    ghost var emitted: seq<Clause> := [];
    var index := 0;
    while index < |filters|
      invariant index <= |filters|
      invariant LoopState(finishedIndices, emitted) == VisitFirst(filters, index)
      invariant filterQueryList == Fragments(emitted)
      invariant filterParameters == Parameters(emitted)
    {
      finishedIndices, filterQueryList, filterParameters, emitted :=
        VisitFilter(filters, index, finishedIndices, filterQueryList, filterParameters, emitted);
      index := index + 1;
    }
    filterStatement := Join(filterQueryList, " AND ");
  }

  // ---------------------------------------------------------------------------
  // _mapSortsToOrderBy, mapOptionsToFindOptions

  /** A plain JavaScript object with string values: its properties in their enumeration order. */
  type Entries = seq<(string, string)>

  /** The index of the first entry with the key, or the number of entries when there is none. */
  function FirstIndex(entries: Entries, key: string): (r: nat)
    ensures r <= |entries|
    ensures r < |entries| ==> entries[r].0 == key
    ensures forall i :: 0 <= i < r && i < |entries| ==> entries[i].0 != key
  {
    if entries == [] then 0
    else
      var first := FirstIndex(entries[..|entries| - 1], key);
      if first < |entries| - 1 then first
      else if entries[|entries| - 1].0 == key then |entries| - 1
      else |entries|
  }

  /** The value of the last entry with the key. */
  function LastValue(entries: Entries, key: string): (v: string)
    requires FirstIndex(entries, key) < |entries|
  {
    if entries[|entries| - 1].0 == key then entries[|entries| - 1].1
    else LastValue(entries[..|entries| - 1], key)
  }

  predicate DistinctKeys(obj: Entries) {
    forall i, j :: 0 <= i < j < |obj| ==> obj[i].0 != obj[j].0
  }

  /**
   * `obj[key] = value`: an existing property keeps its place and takes the
   * new value; a new property goes last.
   */
  function SetProperty(obj: Entries, key: string, value: string): Entries {
    var i := FirstIndex(obj, key);
    if i < |obj| then obj[i := (key, value)] else obj + [(key, value)]
  }

  /** Every key of the entries is a property of the object. */
  predicate KeysCovered(entries: Entries, obj: Entries) {
    forall i :: 0 <= i < |entries| ==> FirstIndex(obj, entries[i].0) < |obj|
  }

  /** Every property is a key of the entries and holds the value of that key's last entry. */
  predicate ValuesLast(entries: Entries, obj: Entries) {
    forall p :: 0 <= p < |obj| ==>
      FirstIndex(entries, obj[p].0) < |entries| && obj[p].1 == LastValue(entries, obj[p].0)
  }

  /** The properties come in the order of their keys' first entries. */
  predicate KeysInFirstOrder(entries: Entries, obj: Entries) {
    forall p, q :: 0 <= p < q < |obj| ==> FirstIndex(entries, obj[p].0) < FirstIndex(entries, obj[q].0)
  }

  /** What `Object.fromEntries(entries)` is: one property per distinct key, as the three predicates above say. */
  predicate ObjectOf(entries: Entries, obj: Entries) {
    DistinctKeys(obj) && KeysCovered(entries, obj) && ValuesLast(entries, obj) && KeysInFirstOrder(entries, obj)
  }

  /** `Object.fromEntries(entries)`: the entries set one after the other on an empty object. */
  function FromEntries(entries: Entries): Entries {
    if entries == [] then []
    else
      var (key, value) := entries[|entries| - 1];
      SetProperty(FromEntries(entries[..|entries| - 1]), key, value)
  }

  /** Appending an entry leaves the first index of any key already present unchanged. */
  lemma FirstIndexAppend(entries: Entries, x: (string, string), key: string)
    ensures FirstIndex(entries + [x], key) ==
      if FirstIndex(entries, key) < |entries| then FirstIndex(entries, key)
      else if x.0 == key then |entries| else |entries| + 1
  {
    assert (entries + [x])[..|entries|] == entries;
  }

  lemma LastValueAppend(entries: Entries, x: (string, string), key: string)
    requires FirstIndex(entries + [x], key) < |entries| + 1
    ensures LastValue(entries + [x], key) == if x.0 == key then x.1 else LastValue(entries, key)
  {
    assert (entries + [x])[..|entries|] == entries;
    FirstIndexAppend(entries, x, key);
  }

  /** Objects with the same keys in the same places agree on every key's index. */
  lemma {:induction false} FirstIndexSameKeys(a: Entries, b: Entries, key: string)
    requires |a| == |b| && forall i :: 0 <= i < |a| ==> a[i].0 == b[i].0
    ensures FirstIndex(a, key) == FirstIndex(b, key)
  {
    if a != [] {
      FirstIndexSameKeys(a[..|a| - 1], b[..|b| - 1], key);
    }
  }

  /** Setting one property keeps the object's keys distinct, and sets exactly that key. */
  lemma SetPropertyKeys(obj: Entries, key: string, value: string)
    requires DistinctKeys(obj)
    ensures var r := SetProperty(obj, key, value);
      && DistinctKeys(r)
      && FirstIndex(r, key) < |r| && r[FirstIndex(r, key)] == (key, value)
      && (forall k :: k != key && FirstIndex(obj, k) < |obj| ==> FirstIndex(r, k) == FirstIndex(obj, k))
      && (forall k :: k != key && FirstIndex(obj, k) == |obj| ==> FirstIndex(r, k) == |r|)
      && (forall p :: 0 <= p < |obj| ==> r[p].0 == obj[p].0 && (obj[p].0 != key ==> r[p] == obj[p]))
      && (FirstIndex(obj, key) == |obj| ==> |r| == |obj| + 1)
      && (FirstIndex(obj, key) < |obj| ==> |r| == |obj|)
  {
    var r := SetProperty(obj, key, value);
    var i := FirstIndex(obj, key);
    if i < |obj| {
      forall k ensures FirstIndex(r, k) == FirstIndex(obj, k) {
        FirstIndexSameKeys(r, obj, k);
      }
    } else {
      forall k ensures k != key && FirstIndex(obj, k) < |obj| ==> FirstIndex(r, k) == FirstIndex(obj, k) {
        FirstIndexAppend(obj, (key, value), k);
      }
      FirstIndexAppend(obj, (key, value), key);
    }
  }

  lemma StepKeysCovered(init: Entries, key: string, value: string, prev: Entries)
    requires ObjectOf(init, prev)
    ensures KeysCovered(init + [(key, value)], SetProperty(prev, key, value))
  {
    var entries := init + [(key, value)];
    SetPropertyKeys(prev, key, value);
    forall i | 0 <= i < |entries|
      ensures FirstIndex(SetProperty(prev, key, value), entries[i].0) < |SetProperty(prev, key, value)|
    {
      if i < |init| {
        assert entries[i] == init[i];
      }
    }
  }

  lemma StepValuesLast(init: Entries, key: string, value: string, prev: Entries)
    requires ObjectOf(init, prev)
    ensures ValuesLast(init + [(key, value)], SetProperty(prev, key, value))
  {
    var entries := init + [(key, value)];
    var obj := SetProperty(prev, key, value);
    SetPropertyKeys(prev, key, value);
    forall p | 0 <= p < |obj|
      ensures FirstIndex(entries, obj[p].0) < |entries| && obj[p].1 == LastValue(entries, obj[p].0)
    {
      FirstIndexAppend(init, (key, value), obj[p].0);
      LastValueAppend(init, (key, value), obj[p].0);
      if p < |prev| && prev[p].0 != key {
        assert obj[p] == prev[p];
      }
    }
  }

  lemma StepKeysInFirstOrder(init: Entries, key: string, value: string, prev: Entries)
    requires ObjectOf(init, prev)
    ensures KeysInFirstOrder(init + [(key, value)], SetProperty(prev, key, value))
  {
    var entries := init + [(key, value)];
    var obj := SetProperty(prev, key, value);
    SetPropertyKeys(prev, key, value);
    forall p, q | 0 <= p < q < |obj|
      ensures FirstIndex(entries, obj[p].0) < FirstIndex(entries, obj[q].0)
    {
      FirstIndexAppend(init, (key, value), obj[p].0);
      FirstIndexAppend(init, (key, value), obj[q].0);
      if q == |prev| {
        // the new key: absent from `init`, after every key that is present
        assert obj[q].0 == key && FirstIndex(prev, key) == |prev|;
      }
    }
  }

  lemma FromEntriesStep(init: Entries, key: string, value: string, prev: Entries)
    requires ObjectOf(init, prev)
    ensures ObjectOf(init + [(key, value)], SetProperty(prev, key, value))
  {
    SetPropertyKeys(prev, key, value);
    StepKeysCovered(init, key, value, prev);
    StepValuesLast(init, key, value, prev);
    StepKeysInFirstOrder(init, key, value, prev);
  }

  /** `Object.fromEntries` meets its description. */
  lemma {:induction false} FromEntriesIsObjectOf(entries: Entries)
    ensures ObjectOf(entries, FromEntries(entries))
  {
    if entries != [] {
      var init, last := entries[..|entries| - 1], entries[|entries| - 1];
      assert init + [(last.0, last.1)] == entries;
      assert FromEntries(entries) == SetProperty(FromEntries(init), last.0, last.1);
      FromEntriesIsObjectOf(init);
      FromEntriesStep(init, last.0, last.1, FromEntries(init));
    }
  }

  /**
   * `_mapSortsToOrderBy`: the sorts as an object from field to direction, through
   * `Object.fromEntries`. Each sorted field appears once, in the order of its
   * first sort, with the direction of its last sort.
   */
  function MapSortsToOrderBy(sorts: seq<SortInput>): (r: Entries)
    ensures ObjectOf(SortEntries(sorts), r)
  {
    FromEntriesIsObjectOf(SortEntries(sorts));
    FromEntries(SortEntries(sorts))
  }

  function SortEntries(sorts: seq<SortInput>): Entries {
    seq(|sorts|, i requires 0 <= i < |sorts| => (sorts[i].sortField, sorts[i].sortValue))
  }

  /** Sorting twice on one field keeps the field's first place and takes the second direction. */
  lemma RepeatedSortScenario()
    ensures MapSortsToOrderBy([SortInput("numPages", "ASC"), SortInput("title", "DESC"), SortInput("numPages", "DESC")])
         == [("numPages", "DESC"), ("title", "DESC")]
  {
    var sorts := [SortInput("numPages", "ASC"), SortInput("title", "DESC"), SortInput("numPages", "DESC")];
    var entries := [("numPages", "ASC"), ("title", "DESC"), ("numPages", "DESC")];
    var two := [("numPages", "ASC"), ("title", "DESC")];
    assert SortEntries(sorts) == entries;
    assert FromEntries(entries) == SetProperty(two, "numPages", "DESC") by {
      assert entries[..2] == two;
      TwoSortsScenario();
    }
    assert SetProperty(two, "numPages", "DESC") == two[0 := ("numPages", "DESC")] by {
      assert FirstIndex(two, "numPages") == 0;
    }
  }

  /** Two sorts on different fields give both, in order. */
  lemma TwoSortsScenario()
    ensures FromEntries([("numPages", "ASC"), ("title", "DESC")]) == [("numPages", "ASC"), ("title", "DESC")]
  {
    var one, two := [("numPages", "ASC")], [("numPages", "ASC"), ("title", "DESC")];
    assert two[..1] == one && one[..0] == [];
    assert FromEntries(one) == one by {
      assert FirstIndex([], "numPages") == 0;
    }
    assert FirstIndex(one, "title") == 1 by {
      assert "numPages"[0] != "title"[0];
    }
  }

  /** The WHERE part of the find options. */
  datatype FilterQuery = FilterQuery(filterStatement: string, filterParameters: map<string, JsValue>)

  /** `mapOptionsToFindOptions`: the ORDER BY object of the sorts and the WHERE statement of the filters. */
  method MapOptionsToFindOptions(sorts: seq<SortInput>, filters: seq<FilterInput>) returns (orderByClauses: Entries, filterOption: FilterQuery)
    ensures orderByClauses == MapSortsToOrderBy(sorts)
    ensures filterOption == FilterQuery(FilterStatement(filters), FilterParameters(filters))
  {
    orderByClauses := MapSortsToOrderBy(sorts);
    var filterStatement, filterParameters := MapFiltersToWhere(filters);
    filterOption := FilterQuery(filterStatement, filterParameters);
  }
}
