/** The record list logic of `src/pages/Health.jsx`: the search filter over the loaded
    records, the reset of the filtered list when the records change, the range check
    on submit, the ten-record display cap and the type table with its fallback. */
module Health {
  import opened Wrappers
  import opened Text
  import Helpers
  import opened Sequences

  /** A health record; `valueText` is what `record.value.toString()` gives. */
  datatype Record = Record(kind: string, valueText: string, date: string)

  // ---------------------------------------------------------------------------
  // handleSearch

  /** The search test for one record against the cleaned query. */
  predicate Matches(r: Record, query: string) {
    Contains(ToLower(r.kind), query) || Contains(r.valueText, query)
  }

  /** `records.filter(record => Matches(record, query))`. */
  function FilterRecords(records: seq<Record>, query: string): (r: seq<Record>)
    ensures |r| <= |records|
    ensures forall i :: 0 <= i < |r| ==> Matches(r[i], query)
  {
    Filter(records, x => Matches(x, query))
  }

  /** The filter keeps the matching records, each as often as it occurs, in their
      order, and nothing else. */
  lemma FilterRecordsSpec(records: seq<Record>, query: string)
    ensures IsSubsequence(FilterRecords(records, query), records)
    ensures forall x :: Matches(x, query) ==> multiset(FilterRecords(records, query))[x] == multiset(records)[x]
    ensures forall x :: !Matches(x, query) ==> multiset(FilterRecords(records, query))[x] == 0
  {
    FilterSpec(records, x => Matches(x, query));
  }

  /** The query after `sanitizeString(query.toLowerCase())`. */
  function CleanQuery(query: string): string {
    Helpers.SanitizeString(ToLower(query))
  }

  /** `handleSearch(query)`: the new `filteredRecords`. */
  function Search(records: seq<Record>, query: string): (r: seq<Record>)
    ensures CleanQuery(query) == "" ==> r == records
    ensures CleanQuery(query) != "" ==> r == FilterRecords(records, CleanQuery(query))
  {
    var q := CleanQuery(query);
    if q == "" then records else FilterRecords(records, q)
  }

  /** A query that is empty after cleaning restores every record; any other keeps
      exactly the matching records, in order. */
  lemma SearchSpec(records: seq<Record>, query: string)
    ensures IsSubsequence(Search(records, query), records)
    ensures forall i :: 0 <= i < |Search(records, query)| ==>
      CleanQuery(query) == "" || Matches(Search(records, query)[i], CleanQuery(query))
    ensures CleanQuery(query) != "" ==> forall x :: Matches(x, CleanQuery(query)) ==>
      multiset(Search(records, query))[x] == multiset(records)[x]
  {
    if CleanQuery(query) == "" {
      SubsequenceRefl(records);
    } else {
      FilterRecordsSpec(records, CleanQuery(query));
    }
  }

  /** Cleaning only lower-cases a query of letters, digits and `_`: there is no
      markup, no pattern and no white space in it to remove. */
  lemma CleanQueryWord(query: string)
    requires forall i :: 0 <= i < |query| ==> Helpers.IsWordChar(query[i])
    ensures CleanQuery(query) == ToLower(query)
  {
    var q := ToLower(query);
    assert forall i :: 0 <= i < |q| ==> Helpers.IsWordChar(q[i]);
    Helpers.WordsHarmless(q);
    Helpers.SanitizeStringKeeps(q);
  }

  /** Searching for such a word keeps the records whose type or value holds it in
      lower case: a search for `Weight` filters on `weight`. */
  lemma SearchWord(records: seq<Record>, query: string)
    requires query != [] && forall i :: 0 <= i < |query| ==> Helpers.IsWordChar(query[i])
    ensures Search(records, query) == FilterRecords(records, ToLower(query))
  {
    CleanQueryWord(query);
  }

  /** A record matches a query once its type holds the query, whatever its value. */
  lemma MatchByType(r: Record, query: string, i: int)
    requires OccursAt(ToLower(r.kind), query, i)
    ensures Matches(r, query)
  {
    ContainsAt(ToLower(r.kind), query);
  }

  // ---------------------------------------------------------------------------
  // The page state

  class HealthPage {
    var records: seq<Record>
    var filteredRecords: seq<Record>

    /** `setRecords(rs)` followed by the effect that copies the records into the
        filtered list. */
    method SetRecords(rs: seq<Record>)
      modifies this
      ensures records == rs && filteredRecords == rs
    {
      records := rs;
      filteredRecords := records;
    }

    method HandleSearch(query: string)
      modifies this
      ensures records == old(records)
      ensures filteredRecords == Search(records, query)
    {
      filteredRecords := Search(records, query);
    }

    /** `filteredRecords.slice(0, 10)`. */
    function Displayed(): (shown: seq<Record>)
      reads this
      ensures |shown| == if |filteredRecords| < 10 then |filteredRecords| else 10
      ensures shown == filteredRecords[..|shown|]
    {
      if |filteredRecords| < 10 then filteredRecords else filteredRecords[..10]
    }
  }

  // ---------------------------------------------------------------------------
  // Submit guard

  const RangeError: string := "Please enter a valid value between 0 and 500"

  /** The check on submit, for the value `parseFloat` gave (`None` for NaN): the error
      shown, or `None` when the record goes on to be created. */
  function SubmitError(value: Option<real>): (r: Option<string>)
    ensures r.None? <==> value.Some? && 0.0 <= value.value <= 500.0
    ensures r.Some? ==> r.value == RangeError
  {
    if value.Some? && 0.0 <= value.value && value.value <= 500.0 then None else Some(RangeError)
  }

  // ---------------------------------------------------------------------------
  // Type table

  /** An entry of `healthTypes`; `name` holds its `label`, a word Dafny reserves. */
  datatype HealthType = HealthType(value: string, name: string, icon: string, unit: string, placeholder: string)

  /** What a record row shows of its type: icon, label and unit. */
  datatype TypeInfo = TypeInfo(icon: string, name: string, unit: string)

  const HealthTypes: seq<HealthType> := [
    HealthType("weight", "Weight", "\U{2696}\U{FE0F}", "kg", "e.g., 70"),
    HealthType("height", "Height", "\U{1F4CF}", "cm", "e.g., 170"),
    HealthType("steps", "Steps", "\U{1F463}", "steps", "e.g., 10000"),
    HealthType("heart_rate", "Heart Rate", "\U{2764}\U{FE0F}", "bpm", "e.g., 75"),
    HealthType("blood_pressure", "Blood Pressure", "\U{1FA78}", "mmHg", "e.g., 120 (systolic)"),
    HealthType("blood_sugar", "Blood Sugar", "\U{1F36C}", "mg/dL", "e.g., 100"),
    HealthType("sleep_hours", "Sleep Time", "\U{1F634}", "hours", "e.g., 7.5"),
    HealthType("menstruation", "Menstruation Cycle", "\U{1F338}", "day", "Day of cycle (1-28)")
  ]

  /** The test `healthTypes.find` applies: the entry's value is the record's type. */
  function KindIs(kind: string): HealthType -> bool {
    (t: HealthType) => t.value == kind
  }

  /** The icon, label and unit of a record's type; an unknown type shows a chart icon,
      its own name as label, and no unit. */
  function TypeInfoOf(kind: string): (r: TypeInfo)
    ensures forall j :: 0 <= j < |HealthTypes| && HealthTypes[j].value == kind ==>
      r == TypeInfo(HealthTypes[j].icon, HealthTypes[j].name, HealthTypes[j].unit)
    ensures (forall j :: 0 <= j < |HealthTypes| ==> HealthTypes[j].value != kind) ==>
      r == TypeInfo("\U{1F4CA}", kind, "")
  {
    FoundEntry(kind);
    match FindFirst(HealthTypes, KindIs(kind))
    case Some(i) => TypeInfo(HealthTypes[i].icon, HealthTypes[i].name, HealthTypes[i].unit)
    case None => TypeInfo("\U{1F4CA}", kind, "")
  }

  /** The entry `find` gives for a type is the only one with that value, and no entry
      is found only when none has it. */
  lemma FoundEntry(kind: string)
    ensures var r := FindFirst(HealthTypes, KindIs(kind));
      (r.Some? ==>
        r.value < |HealthTypes| && forall j :: 0 <= j < |HealthTypes| && HealthTypes[j].value == kind ==> j == r.value)
      && (r.None? ==> forall j :: 0 <= j < |HealthTypes| ==> HealthTypes[j].value != kind)
  {
    var r := FindFirst(HealthTypes, KindIs(kind));
    if r.Some? {
      assert HealthTypes[r.value].value == kind;
      HealthTypesDistinct();
    } else {
      forall j | 0 <= j < |HealthTypes|
        ensures HealthTypes[j].value != kind
      {
        assert !KindIs(kind)(HealthTypes[j]);
      }
    }
  }

  /** No two entries of the type table share a value. */
  lemma HealthTypesDistinct()
    ensures forall i, j :: 0 <= i < |HealthTypes| && 0 <= j < |HealthTypes| && i != j ==>
      HealthTypes[i].value != HealthTypes[j].value
  {
    forall i, j | 0 <= i < |HealthTypes| && 0 <= j < |HealthTypes| && i != j
      ensures HealthTypes[i].value != HealthTypes[j].value
    {
      var a, b := HealthTypes[i].value, HealthTypes[j].value;
      assert a[0] != b[0] || |a| != |b|;
    }
  }
}
