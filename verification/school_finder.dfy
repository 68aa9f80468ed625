/** The school-compliance lookup: a fixed table of schools, a
    case-insensitive search over name, city and ZIP, a dropdown capped at
    five results, and the selection that is remembered in browser storage. */
module SchoolFinder {
  import opened Wrappers
  import opened Text
  import Seqs

  datatype School = School(
    id: nat,
    name: string,
    city: string,
    state: string,
    zip: string,
    allowedColors: seq<string>,
    notes: string)

  /** The built-in table of schools, in display order. */
  const SchoolData: seq<School> := [
    School(1, "Lincoln Elementary", "Brooklyn", "NY", "11201", ["Navy", "Khaki"], "No logos, belt required"),
    School(2, "Roosevelt Middle School", "Queens", "NY", "11375", ["Navy", "Black", "Khaki"], "Wrinkle-resistant preferred"),
    School(3, "Washington High", "Manhattan", "NY", "10001", ["Black", "Navy"], "Belt loops required"),
    School(4, "Jefferson Academy", "Bronx", "NY", "10451", ["Navy", "Khaki"], "Logo-free uniform"),
    School(5, "Madison Elementary", "Staten Island", "NY", "10301", ["Khaki", "Black"], "Loose fit acceptable"),
    School(6, "Hamilton Charter", "Los Angeles", "CA", "90001", ["Navy", "Khaki", "Black"], "Standard uniform code"),
    School(7, "Franklin School", "Chicago", "IL", "60601", ["Navy"], "Navy only policy"),
    School(8, "Kennedy Prep", "Houston", "TX", "77001", ["Khaki", "Navy"], "Belt required, no cargo")
  ]

  /** At most this many schools are listed in the dropdown. */
  const MaxResults: nat := 5

  /** The storage key the chosen school is written under. */
  const SelectedSchoolKey := "selectedSchool"

  /** Name and city are compared lower-cased; the ZIP is compared with the
      term exactly as typed. Spelled out with the substring relation: a term
      matches iff its lower-case form occurs in the lower-cased name or city,
      or the unmodified term occurs in the ZIP. */
  function Matches(school: School, term: string): (r: bool)
    ensures r <==>
      || (exists i :: OccursAt(ToLower(school.name), ToLower(term), i))
      || (exists i :: OccursAt(ToLower(school.city), ToLower(term), i))
      || (exists i :: OccursAt(school.zip, term, i))
    ensures term == "" ==> r
  {
    IncludesIffOccurs(ToLower(school.name), ToLower(term));
    IncludesIffOccurs(ToLower(school.city), ToLower(term));
    IncludesIffOccurs(school.zip, term);
    || Includes(ToLower(school.name), ToLower(term))
    || Includes(ToLower(school.city), ToLower(term))
    || Includes(school.zip, term)
  }

  function MatchOn(term: string): School -> bool
  {
    s => Matches(s, term)
  }

  /** The schools of `schools` that match `term`, in table order. */
  function FilterSchools(schools: seq<School>, term: string): (r: seq<School>)
    ensures |r| <= |schools|
    ensures forall k :: 0 <= k < |r| ==> Matches(r[k], term)
  {
    Seqs.Filter(schools, MatchOn(term))
  }

  /** The filtered list is the table restricted to the matching schools:
      `idx` gives, in increasing order, the table position of each result,
      and a position appears in `idx` exactly when its school matches. */
  lemma FilterSchoolsExact(schools: seq<School>, term: string) returns (idx: seq<nat>)
    ensures |idx| == |FilterSchools(schools, term)|
    ensures forall k :: 0 <= k < |idx| ==>
      idx[k] < |schools| && FilterSchools(schools, term)[k] == schools[idx[k]]
    ensures forall k, l :: 0 <= k < l < |idx| ==> idx[k] < idx[l]
    ensures forall i :: 0 <= i < |schools| ==> (Matches(schools[i], term) <==> i in idx)
  {
    idx := Seqs.FilterSelectsExactly(schools, MatchOn(term));
  }

  /** Every string contains the empty string, so an empty term keeps every school. */
  lemma EmptyTermMatchesAll(schools: seq<School>)
    ensures FilterSchools(schools, "") == schools
  {
    assert ToLower("") == "";
    Seqs.FilterKeepsAll(schools, MatchOn(""));
  }

  /** The search finds nothing exactly when no school of `schools` matches. */
  lemma NothingFoundIffNoneMatch(schools: seq<School>, term: string)
    ensures FilterSchools(schools, term) == [] <==>
      forall i :: 0 <= i < |schools| ==> !Matches(schools[i], term)
  {
    var idx := FilterSchoolsExact(schools, term);
    if |idx| > 0 {
      assert idx[0] in idx;
    }
  }

  /** Every ZIP in the table is made of digits. */
  lemma TableZipsAreDigits()
    ensures forall i, k :: 0 <= i < |SchoolData| && 0 <= k < |SchoolData[i].zip| ==>
      IsDigit(SchoolData[i].zip[k])
  {
  }

  /** Matching against a school whose ZIP is all digits ignores the case of
      the term, even though the ZIP comparison itself is case-sensitive. */
  lemma DigitZipMatchIgnoresCase(school: School, term: string)
    requires forall k :: 0 <= k < |school.zip| ==> IsDigit(school.zip[k])
    ensures Matches(school, term) <==> Matches(school, ToLower(term))
  {
    ToLowerIdempotent(term);
    DigitsIgnoreCase(school.zip, term);
  }

  /** On the built-in table the search as a whole is case-insensitive. */
  lemma SearchIgnoresCase(term: string)
    ensures FilterSchools(SchoolData, term) == FilterSchools(SchoolData, ToLower(term))
  {
    TableZipsAreDigits();
    forall i | 0 <= i < |SchoolData|
      ensures MatchOn(term)(SchoolData[i]) == MatchOn(ToLower(term))(SchoolData[i])
    {
      DigitZipMatchIgnoresCase(SchoolData[i], term);
    }
    Seqs.FilterCongruent(SchoolData, MatchOn(term), MatchOn(ToLower(term)));
  }

  /** The first min(5, n) of the `n` filtered schools. */
  function Capped(filtered: seq<School>): (r: seq<School>)
    ensures |r| == if |filtered| < MaxResults then |filtered| else MaxResults
    ensures forall k :: 0 <= k < |r| ==> r[k] == filtered[k]
  {
    if |filtered| < MaxResults then filtered else filtered[..MaxResults]
  }

  // ---------------------------------------------------------------------
  // Component state

  /** The component's state together with the storage it writes to. */
  datatype Finder = Finder(
    searchTerm: string,
    showResults: bool,
    selected: Option<School>,
    storage: map<string, School>)

  /** Results are only visible for a non-empty term, and a selected school
      is the one recorded in storage. */
  ghost predicate Valid(f: Finder)
  {
    && (f.showResults ==> f.searchTerm != "")
    && (f.selected.Some? ==>
          SelectedSchoolKey in f.storage && f.storage[SelectedSchoolKey] == f.selected.value)
  }

  /** First render: empty term, nothing shown, nothing selected. */
  function Mount(storage: map<string, School>): (f: Finder)
    ensures f.searchTerm == "" && !f.showResults && f.selected.None?
    ensures Valid(f)
    ensures f.storage == storage
  {
    Finder("", false, None, storage)
  }

  /** Typing into the search box. */
  function Search(f: Finder, value: string): (r: Finder)
    ensures r.searchTerm == value
    ensures r.showResults <==> |value| > 0
    ensures r.selected == f.selected && r.storage == f.storage
    ensures Valid(f) ==> Valid(r)
  {
    f.(searchTerm := value, showResults := value != "")
  }

  /** Focusing the search box re-opens the results when a term is present. */
  function Focus(f: Finder): (r: Finder)
    ensures r.showResults <==> f.showResults || f.searchTerm != ""
    ensures r.searchTerm == f.searchTerm && r.selected == f.selected && r.storage == f.storage
    ensures Valid(f) ==> Valid(r)
  {
    if f.searchTerm != "" then f.(showResults := true) else f
  }

  /** Choosing a school from the dropdown. */
  function Select(f: Finder, school: School): (r: Finder)
    ensures r.selected == Some(school)
    ensures !r.showResults && r.searchTerm == ""
    ensures SelectedSchoolKey in r.storage && r.storage[SelectedSchoolKey] == school
    ensures forall k :: k != SelectedSchoolKey ==>
      (k in r.storage <==> k in f.storage) && (k in f.storage ==> r.storage[k] == f.storage[k])
    ensures Valid(r)
  {
    Finder("", false, Some(school), f.storage[SelectedSchoolKey := school])
  }

  // ---------------------------------------------------------------------
  // What is on screen

  /** The schools listed as buttons in the dropdown (empty when it is hidden). */
  function Listed(f: Finder): (r: seq<School>)
    ensures |r| <= MaxResults
    ensures f.showResults ==> r == Capped(FilterSchools(SchoolData, f.searchTerm))
    ensures !f.showResults ==> r == []
  {
    var filtered := FilterSchools(SchoolData, f.searchTerm);
    if f.showResults && |filtered| > 0 then Capped(filtered) else []
  }

  /** The "No schools found" notice. */
  predicate ShowsNoResults(f: Finder)
    ensures ShowsNoResults(f) <==>
      && f.showResults
      && f.searchTerm != ""
      && forall i :: 0 <= i < |SchoolData| ==> !Matches(SchoolData[i], f.searchTerm)
    ensures ShowsNoResults(f) ==> Listed(f) == []
  {
    NothingFoundIffNoneMatch(SchoolData, f.searchTerm);
    f.showResults && |FilterSchools(SchoolData, f.searchTerm)| == 0 && f.searchTerm != ""
  }

  /** The dropdown lists at most five schools, each matching the term, taken
      from the table in table order; with fewer than five listed, every
      matching school is listed. */
  lemma ListedAreFirstMatches(f: Finder) returns (idx: seq<nat>)
    requires f.showResults
    ensures |idx| == |Listed(f)| <= MaxResults
    ensures forall k :: 0 <= k < |idx| ==>
      idx[k] < |SchoolData| && Listed(f)[k] == SchoolData[idx[k]] && Matches(SchoolData[idx[k]], f.searchTerm)
    ensures forall k, l :: 0 <= k < l < |idx| ==> idx[k] < idx[l]
    ensures |idx| < MaxResults ==>
      forall i :: 0 <= i < |SchoolData| && Matches(SchoolData[i], f.searchTerm) ==> i in idx
    ensures forall i ::
      (0 <= i < |SchoolData| && Matches(SchoolData[i], f.searchTerm) && |idx| > 0 && i <= idx[|idx| - 1])
      ==> i in idx
  {
    var all := FilterSchoolsExact(SchoolData, f.searchTerm);
    idx := all[..|Listed(f)|];
    forall i | 0 <= i < |SchoolData| && Matches(SchoolData[i], f.searchTerm) && |idx| > 0 && i <= idx[|idx| - 1]
      ensures i in idx
    {
      assert i in all;
      var k :| 0 <= k < |all| && all[k] == i;
      assert k < |idx|;
      assert idx[k] == i;
    }
  }

  /** In a valid state the notice appears exactly when results are shown and
      no school of the table matches; it never appears with the dropdown. */
  lemma NoResultsMeaning(f: Finder)
    requires Valid(f)
    ensures ShowsNoResults(f) <==>
      f.showResults && forall i :: 0 <= i < |SchoolData| ==> !Matches(SchoolData[i], f.searchTerm)
    ensures ShowsNoResults(f) ==> Listed(f) == []
  {
  }

  /** After a search edit, results are visible iff the new term is
      non-empty, and the notice shows iff that term matches no school. */
  lemma SearchThenRender(f: Finder, value: string)
    ensures Listed(Search(f, value)) == if value == "" then [] else Capped(FilterSchools(SchoolData, value))
    ensures ShowsNoResults(Search(f, value)) <==>
      value != "" && forall i :: 0 <= i < |SchoolData| ==> !Matches(SchoolData[i], value)
  {
  }
}
