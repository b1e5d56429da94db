/**
 * The review page: the stored candidates shown as a table that can be filtered by
 * free text over four fields and sorted by one column, with a remove action per row.
 */
module ReviewTable {
  import opened Candidates
  import opened Sequences
  import opened AcceptanceStore

  /** The four sortable columns. */
  datatype Field = Name | Login | Location | Company

  datatype Direction = Asc | Desc

  /** The active sort column (none at first) and its direction. */
  datatype SortSpec = SortSpec(field: Option<Field>, direction: Direction)

  /** The value of a column for a candidate; `login` is never null. */
  function ValueOf(c: Candidate, f: Field): Option<string>
  {
    match f
    case Name => c.name
    case Login => Some(c.login)
    case Location => c.location
    case Company => c.company
  }

  // ---------------------------------------------------------------------------
  // Filter

  function LowerChar(ch: char): char
  {
    if 'A' <= ch <= 'Z' then (ch as int + 32) as char else ch
  }

  /** Lower-casing, restricted to the ASCII letters. */
  function Lower(s: string): (r: string)
    ensures |r| == |s|
    ensures forall i :: 0 <= i < |r| ==> !('A' <= r[i] <= 'Z')
    ensures forall i :: 0 <= i < |s| && !('A' <= s[i] <= 'Z') ==> r[i] == s[i]
    ensures forall i :: 0 <= i < |s| && 'A' <= s[i] <= 'Z' ==> r[i] as int == s[i] as int + 32
  {
    seq(|s|, i requires 0 <= i < |s| => LowerChar(s[i]))
  }

  /** Lower-casing twice is lower-casing once, and only the empty string lowers to empty. */
  lemma LowerIdempotent(s: string)
    ensures Lower(Lower(s)) == Lower(s)
    ensures Lower(s) == "" <==> s == ""
  {
    assert |Lower(s)| == |s|;
  }

  /** `needle` occurs in `hay` starting at position `i`. */
  predicate OccursAt(hay: string, needle: string, i: int)
  {
    0 <= i && i + |needle| <= |hay| && hay[i..i + |needle|] == needle
  }

  /** String.prototype.includes. */
  function Contains(hay: string, needle: string): (r: bool)
    ensures needle == "" ==> r
    ensures r ==> |needle| <= |hay|
    decreases |hay|
  {
    if |needle| > |hay| then false
    else if hay[..|needle|] == needle then true
    else Contains(hay[1..], needle)
  }

  /** `Contains` holds exactly when the needle occurs at some position. */
  lemma {:induction false} ContainsSpec(hay: string, needle: string)
    ensures Contains(hay, needle) <==> exists i :: OccursAt(hay, needle, i)
    decreases |hay|
  {
    if |needle| > |hay| {
    } else if hay[..|needle|] == needle {
      assert OccursAt(hay, needle, 0);
    } else {
      ContainsSpec(hay[1..], needle);
      if i :| OccursAt(hay, needle, i) {
        assert i != 0;
        assert hay[1..][i - 1..i - 1 + |needle|] == hay[i..i + |needle|];
        assert OccursAt(hay[1..], needle, i - 1);
      }
      if j :| OccursAt(hay[1..], needle, j) {
        assert hay[1..][j..j + |needle|] == hay[j + 1..j + 1 + |needle|];
        assert OccursAt(hay, needle, j + 1);
      }
    }
  }

  /** A nullable field matches when it is present and its lower-cased text includes the needle. */
  predicate FieldMatches(v: Option<string>, needle: string)
  {
    v.Some? && Contains(Lower(v.value), needle)
  }

  /** The filter box's test for one candidate. */
  predicate Matches(c: Candidate, filterText: string): (r: bool)
    ensures filterText == "" ==> r
    ensures r && c.name.None? && c.location.None? && c.company.None? && filterText != ""
            ==> Contains(Lower(c.login), Lower(filterText)) && |filterText| <= |c.login|
  {
    filterText == "" ||
    var needle := Lower(filterText);
    FieldMatches(c.name, needle) || Contains(Lower(c.login), needle) ||
    FieldMatches(c.location, needle) || FieldMatches(c.company, needle)
  }

  /** Column `f` of `c` is present and its lower-cased text has `needle` at some position. */
  ghost predicate ColumnHas(c: Candidate, f: Field, needle: string)
  {
    ValueOf(c, f).Some? && exists i :: OccursAt(Lower(ValueOf(c, f).value), needle, i)
  }

  /**
   * A candidate passes the filter exactly when the text is empty or the lower-cased
   * text occurs in one of the four columns; a null column never matches.
   */
  lemma MatchesSpec(c: Candidate, filterText: string)
    ensures Matches(c, filterText) <==> filterText == "" || exists f :: ColumnHas(c, f, Lower(filterText))
  {
    var needle := Lower(filterText);
    forall f: Field ensures ColumnHas(c, f, needle) <==> FieldMatches(ValueOf(c, f), needle) {
      if ValueOf(c, f).Some? {
        ContainsSpec(Lower(ValueOf(c, f).value), needle);
      }
    }
    if filterText != "" && exists f :: ColumnHas(c, f, needle) {
      var f :| ColumnHas(c, f, needle);
      match f
      case Name =>
      case Login =>
      case Location =>
      case Company =>
    }
    if filterText != "" && Matches(c, filterText) {
      if FieldMatches(c.name, needle) {
        assert ColumnHas(c, Name, needle);
      } else if Contains(Lower(c.login), needle) {
        assert ColumnHas(c, Login, needle);
      } else if FieldMatches(c.location, needle) {
        assert ColumnHas(c, Location, needle);
      } else {
        assert ColumnHas(c, Company, needle);
      }
    }
  }

  /** The filter is case-insensitive in its text. */
  lemma MatchesIgnoresCase(c: Candidate, filterText: string)
    ensures Matches(c, filterText) == Matches(c, Lower(filterText))
  {
    LowerIdempotent(filterText);
  }

  /** The rows that pass the filter box, in stored order. */
  function FilterCandidates(list: seq<Candidate>, filterText: string): (r: seq<Candidate>)
    ensures |r| <= |list|
    ensures forall i :: 0 <= i < |r| ==> Matches(r[i], filterText)
  {
    Filter(list, (c: Candidate) => Matches(c, filterText))
  }

  /** The filter keeps every occurrence of a matching candidate and nothing else, in stored order. */
  lemma FilterCandidatesSpec(list: seq<Candidate>, filterText: string)
    ensures forall x :: multiset(FilterCandidates(list, filterText))[x] == if Matches(x, filterText) then multiset(list)[x] else 0
    ensures IsSubsequence(FilterCandidates(list, filterText), list)
  {
    var p := (c: Candidate) => Matches(c, filterText);
    forall x ensures multiset(FilterCandidates(list, filterText))[x] == if Matches(x, filterText) then multiset(list)[x] else 0 {
      FilterCount(list, p, x);
    }
    FilterIsSubsequence(list, p);
  }

  /** An empty text keeps the whole list; a text that matches no row keeps none. */
  lemma FilterCandidatesEdgeCases(list: seq<Candidate>, filterText: string)
    ensures filterText == "" ==> FilterCandidates(list, filterText) == list
    ensures (forall i :: 0 <= i < |list| ==> !Matches(list[i], filterText)) ==> FilterCandidates(list, filterText) == []
  {
    var p := (c: Candidate) => Matches(c, filterText);
    if filterText == "" {
      FilterAllPass(list, p);
    }
    if forall i :: 0 <= i < |list| ==> !Matches(list[i], filterText) {
      FilterNonePass(list, p);
    }
  }

  // ---------------------------------------------------------------------------
  // Comparator

  /** `localeCompare`, simplified to code-point lexicographic order, as its sign. */
  function CompareStrings(a: string, b: string): (r: int)
    ensures -1 <= r <= 1
  {
    if a == [] then (if b == [] then 0 else -1)
    else if b == [] then 1
    else if a[0] < b[0] then -1
    else if a[0] > b[0] then 1
    else CompareStrings(a[1..], b[1..])
  }

  /** Swapping the arguments negates the comparison. */
  lemma {:induction false} CompareStringsAntisymmetric(a: string, b: string)
    ensures CompareStrings(a, b) == -CompareStrings(b, a)
  {
    if a != [] && b != [] && a[0] == b[0] {
      CompareStringsAntisymmetric(a[1..], b[1..]);
    }
  }

  /** Only equal strings compare equal. */
  lemma {:induction false} CompareStringsZero(a: string, b: string)
    ensures CompareStrings(a, b) == 0 <==> a == b
  {
    if a != [] && b != [] && a[0] == b[0] {
      CompareStringsZero(a[1..], b[1..]);
      assert a == [a[0]] + a[1..] && b == [b[0]] + b[1..];
    }
  }

  /** "Not after" is transitive. */
  lemma {:induction false} CompareStringsTransitive(a: string, b: string, c: string)
    requires CompareStrings(a, b) <= 0 && CompareStrings(b, c) <= 0
    ensures CompareStrings(a, c) <= 0
  {
    if a != [] && b != [] && c != [] && a[0] == b[0] && b[0] == c[0] {
      CompareStringsTransitive(a[1..], b[1..], c[1..]);
    }
  }

  /** The table's comparator on two column values: both null are equal, one null goes to the end that the direction says. */
  function CompareValues(a: Option<string>, b: Option<string>, dir: Direction): (r: int)
    ensures -1 <= r <= 1
    ensures r == 0 <==> a == b
  {
    if a.None? && b.None? then 0
    else if a.None? then (if dir == Asc then 1 else -1)
    else if b.None? then (if dir == Asc then -1 else 1)
    else
      CompareStringsZero(a.value, b.value);
      CompareStringsZero(b.value, a.value);
      if dir == Asc then CompareStrings(a.value, b.value) else CompareStrings(b.value, a.value)
  }

  /** Nulls: equal to each other, after every string ascending, before every string descending. */
  lemma NullOrdering(s: string, dir: Direction)
    ensures CompareValues(None, None, dir) == 0
    ensures CompareValues(None, Some(s), dir) > 0 <==> dir == Asc
    ensures CompareValues(Some(s), None, dir) < 0 <==> dir == Asc
  {
  }

  /** Descending order on (a, b) is ascending order on (b, a), nulls included. */
  lemma DescendingFlipsAscending(a: Option<string>, b: Option<string>)
    ensures CompareValues(a, b, Desc) == CompareValues(b, a, Asc)
  {
  }

  lemma CompareValuesAntisymmetric(a: Option<string>, b: Option<string>, dir: Direction)
    ensures CompareValues(a, b, dir) == -CompareValues(b, a, dir)
  {
    if a.Some? && b.Some? {
      CompareStringsAntisymmetric(a.value, b.value);
    }
  }

  lemma CompareValuesTransitive(a: Option<string>, b: Option<string>, c: Option<string>, dir: Direction)
    requires CompareValues(a, b, dir) <= 0 && CompareValues(b, c, dir) <= 0
    ensures CompareValues(a, c, dir) <= 0
  {
    if a.Some? && b.Some? && c.Some? {
      if dir == Asc {
        CompareStringsTransitive(a.value, b.value, c.value);
      } else {
        CompareStringsTransitive(c.value, b.value, a.value);
      }
    }
  }

  /** The `sort` callback: 0 when no column is active, else the column comparator. */
  function CompareCandidates(a: Candidate, b: Candidate, spec: SortSpec): (r: int)
    ensures -1 <= r <= 1
    ensures r == 0 <==> spec.field.None? || ValueOf(a, spec.field.value) == ValueOf(b, spec.field.value)
  {
    if spec.field.None? then 0
    else CompareValues(ValueOf(a, spec.field.value), ValueOf(b, spec.field.value), spec.direction)
  }

  lemma CompareCandidatesAntisymmetric(a: Candidate, b: Candidate, spec: SortSpec)
    ensures CompareCandidates(a, b, spec) == -CompareCandidates(b, a, spec)
  {
    if spec.field.Some? {
      CompareValuesAntisymmetric(ValueOf(a, spec.field.value), ValueOf(b, spec.field.value), spec.direction);
    }
  }

  lemma CompareCandidatesTransitive(a: Candidate, b: Candidate, c: Candidate, spec: SortSpec)
    requires CompareCandidates(a, b, spec) <= 0 && CompareCandidates(b, c, spec) <= 0
    ensures CompareCandidates(a, c, spec) <= 0
  {
    if spec.field.Some? {
      var f := spec.field.value;
      CompareValuesTransitive(ValueOf(a, f), ValueOf(b, f), ValueOf(c, f), spec.direction);
    }
  }

  // ---------------------------------------------------------------------------
  // Sort (Array.prototype.sort is stable)

  /** No row is after a later row in comparator order. */
  predicate Sorted(s: seq<Candidate>, spec: SortSpec)
  {
    forall i, j :: 0 <= i < j < |s| ==> CompareCandidates(s[i], s[j], spec) <= 0
  }

  /** Places `x` before the first row it is not after. */
  function Insert(x: Candidate, r: seq<Candidate>, spec: SortSpec): (t: seq<Candidate>)
    ensures |t| == |r| + 1
    ensures x in t
  {
    if r == [] then [x]
    else if CompareCandidates(x, r[0], spec) <= 0 then [x] + r
    else [r[0]] + Insert(x, r[1..], spec)
  }

  /** A stable sort by the comparator. */
  function Sort(s: seq<Candidate>, spec: SortSpec): (r: seq<Candidate>)
    ensures |r| == |s|
  {
    if s == [] then [] else Insert(s[0], Sort(s[1..], spec), spec)
  }

  lemma {:induction false} InsertPermutes(x: Candidate, r: seq<Candidate>, spec: SortSpec)
    ensures multiset(Insert(x, r, spec)) == multiset(r) + multiset{x}
  {
    if r != [] && CompareCandidates(x, r[0], spec) > 0 {
      InsertPermutes(x, r[1..], spec);
      assert r == [r[0]] + r[1..];
    }
  }

  /** Dropping the first row keeps a list sorted. */
  lemma SortedTail(r: seq<Candidate>, spec: SortSpec)
    requires r != [] && Sorted(r, spec)
    ensures Sorted(r[1..], spec)
  {
    var rest := r[1..];
    forall i, j | 0 <= i < j < |rest| ensures CompareCandidates(rest[i], rest[j], spec) <= 0 {
      assert rest[i] == r[i + 1] && rest[j] == r[j + 1];
    }
  }

  /** A row not after any row of a sorted list can go in front of it. */
  lemma SortedCons(h: Candidate, u: seq<Candidate>, spec: SortSpec)
    requires Sorted(u, spec)
    requires forall k :: 0 <= k < |u| ==> CompareCandidates(h, u[k], spec) <= 0
    ensures Sorted([h] + u, spec)
  {
    var t := [h] + u;
    forall i, j | 0 <= i < j < |t| ensures CompareCandidates(t[i], t[j], spec) <= 0 {
      if i == 0 {
        assert t[j] == u[j - 1];
      } else {
        assert t[i] == u[i - 1] && t[j] == u[j - 1];
      }
    }
  }

  /** The first row of a sorted list is not after any row of it. */
  lemma SortedHeadFirst(x: Candidate, r: seq<Candidate>, spec: SortSpec)
    requires r != [] && Sorted(r, spec) && CompareCandidates(x, r[0], spec) <= 0
    ensures forall k :: 0 <= k < |r| ==> CompareCandidates(x, r[k], spec) <= 0
  {
    forall k | 0 < k < |r| ensures CompareCandidates(x, r[k], spec) <= 0 {
      CompareCandidatesTransitive(x, r[0], r[k], spec);
    }
  }

  lemma {:induction false} InsertSorted(x: Candidate, r: seq<Candidate>, spec: SortSpec)
    requires Sorted(r, spec)
    ensures Sorted(Insert(x, r, spec), spec)
  {
    if r == [] {
    } else if CompareCandidates(x, r[0], spec) <= 0 {
      SortedHeadFirst(x, r, spec);
      SortedCons(x, r, spec);
    } else {
      var rest := r[1..];
      SortedTail(r, spec);
      var u := Insert(x, rest, spec);
      InsertSorted(x, rest, spec);
      InsertPermutes(x, rest, spec);
      forall k | 0 <= k < |u| ensures CompareCandidates(r[0], u[k], spec) <= 0 {
        assert u[k] in multiset(u);
        if u[k] == x {
          CompareCandidatesAntisymmetric(x, r[0], spec);
        } else {
          assert u[k] in multiset(rest);
          var m :| 0 <= m < |rest| && rest[m] == u[k];
          assert r[m + 1] == u[k];
        }
      }
      SortedCons(r[0], u, spec);
    }
  }

  /** The sort returns a permutation of its input, ordered by the comparator. */
  lemma {:induction false} SortSpecification(s: seq<Candidate>, spec: SortSpec)
    ensures multiset(Sort(s, spec)) == multiset(s)
    ensures Sorted(Sort(s, spec), spec)
  {
    if s != [] {
      SortSpecification(s[1..], spec);
      InsertPermutes(s[0], Sort(s[1..], spec), spec);
      InsertSorted(s[0], Sort(s[1..], spec), spec);
      assert s == [s[0]] + s[1..];
    }
  }

  /** A list that is already in order comes back unchanged. */
  lemma {:induction false} SortKeepsSorted(s: seq<Candidate>, spec: SortSpec)
    requires Sorted(s, spec)
    ensures Sort(s, spec) == s
  {
    if s != [] {
      var rest := s[1..];
      SortedTail(s, spec);
      SortKeepsSorted(rest, spec);
      if rest != [] {
        assert CompareCandidates(s[0], rest[0], spec) <= 0;
        assert Insert(s[0], rest, spec) == [s[0]] + rest;
      }
      assert s == [s[0]] + rest;
    }
  }

  /** With no active column every comparison is 0 and the order is the stored one. */
  lemma UnsortedKeepsOrder(s: seq<Candidate>, dir: Direction)
    ensures Sort(s, SortSpec(None, dir)) == s
  {
    SortKeepsSorted(s, SortSpec(None, dir));
  }

  /** The rows in reverse order. */
  function Reverse(s: seq<Candidate>): (r: seq<Candidate>)
    ensures |r| == |s|
  {
    if s == [] then [] else Reverse(s[1..]) + [s[0]]
  }

  lemma {:induction false} ReverseAt(s: seq<Candidate>, k: int)
    requires 0 <= k < |s|
    ensures |Reverse(s)| == |s| && Reverse(s)[k] == s[|s| - 1 - k]
  {
    if k < |s| - 1 {
      ReverseAt(s[1..], k);
    } else if |s| > 1 {
      ReverseAt(s[1..], 0);
    }
  }

  lemma {:induction false} ReversePermutes(s: seq<Candidate>)
    ensures multiset(Reverse(s)) == multiset(s)
  {
    if s != [] {
      ReversePermutes(s[1..]);
      assert s == [s[0]] + s[1..];
    }
  }

  /** A list is in descending order by a column exactly when its reverse is in ascending order by it. */
  lemma DescendingIsReversedAscending(s: seq<Candidate>, f: Field)
    ensures Sorted(s, SortSpec(Some(f), Desc)) <==> Sorted(Reverse(s), SortSpec(Some(f), Asc))
  {
    var n := |s|;
    var asc, desc := SortSpec(Some(f), Asc), SortSpec(Some(f), Desc);
    var r := Reverse(s);
    if n > 0 {
      ReverseAt(s, 0);
    }
    forall i, j | 0 <= i < j < n
      ensures CompareCandidates(r[i], r[j], asc) == CompareCandidates(s[n - 1 - j], s[n - 1 - i], desc)
    {
      ReverseAt(s, i);
      ReverseAt(s, j);
      DescendingFlipsAscending(ValueOf(s[n - 1 - j], f), ValueOf(s[n - 1 - i], f));
    }
    if Sorted(s, desc) {
      forall i, j | 0 <= i < j < n ensures CompareCandidates(r[i], r[j], asc) <= 0 {
        assert CompareCandidates(s[n - 1 - j], s[n - 1 - i], desc) <= 0;
      }
    }
    if Sorted(r, asc) {
      forall i, j | 0 <= i < j < n ensures CompareCandidates(s[i], s[j], desc) <= 0 {
        assert CompareCandidates(r[n - 1 - j], r[n - 1 - i], asc) <= 0;
      }
    }
  }

  /** No two different rows compare equal. */
  predicate NoTies(s: seq<Candidate>, spec: SortSpec)
  {
    forall i, j :: 0 <= i < |s| && 0 <= j < |s| && CompareCandidates(s[i], s[j], spec) == 0 ==> s[i] == s[j]
  }

  /** Two sorted orderings of the same tie-free rows start with the same row. */
  lemma SortedSameHead(a: seq<Candidate>, b: seq<Candidate>, spec: SortSpec)
    requires a != [] && multiset(a) == multiset(b)
    requires Sorted(a, spec) && Sorted(b, spec) && NoTies(a, spec)
    ensures b != [] && a[0] == b[0]
  {
    assert a[0] in multiset(b);
    var j :| 0 <= j < |b| && b[j] == a[0];
    assert b[0] in multiset(a);
    var i :| 0 <= i < |a| && a[i] == b[0];
    if i != 0 && j != 0 {
      assert CompareCandidates(a[0], a[i], spec) <= 0;
      assert CompareCandidates(b[0], b[j], spec) <= 0;
      CompareCandidatesAntisymmetric(a[0], b[0], spec);
      assert CompareCandidates(a[0], a[i], spec) == 0;
    }
  }

  lemma NoTiesTail(a: seq<Candidate>, spec: SortSpec)
    requires a != [] && NoTies(a, spec)
    ensures NoTies(a[1..], spec)
  {
    var a' := a[1..];
    forall p, q | 0 <= p < |a'| && 0 <= q < |a'| && CompareCandidates(a'[p], a'[q], spec) == 0 ensures a'[p] == a'[q] {
      assert a'[p] == a[p + 1] && a'[q] == a[q + 1];
    }
  }

  /** Without ties there is only one ordering of a multiset of rows. */
  lemma {:induction false} SortedUnique(a: seq<Candidate>, b: seq<Candidate>, spec: SortSpec)
    requires multiset(a) == multiset(b)
    requires Sorted(a, spec) && Sorted(b, spec) && NoTies(a, spec)
    ensures a == b
  {
    if a == [] {
      assert |multiset(b)| == 0;
    } else {
      SortedSameHead(a, b, spec);
      var a', b' := a[1..], b[1..];
      assert a == [a[0]] + a' && b == [b[0]] + b';
      assert multiset(a') == multiset(b') by {
        assert multiset(a) == multiset{a[0]} + multiset(a');
        assert multiset(b) == multiset{b[0]} + multiset(b');
        assert multiset(a') == multiset(a) - multiset{a[0]};
        assert multiset(b') == multiset(b) - multiset{b[0]};
      }
      SortedTail(a, spec);
      SortedTail(b, spec);
      NoTiesTail(a, spec);
      SortedUnique(a', b', spec);
    }
  }

  lemma ReverseReverse(s: seq<Candidate>)
    ensures Reverse(Reverse(s)) == s
  {
    var r := Reverse(s);
    forall k | 0 <= k < |s| ensures Reverse(r)[k] == s[k] {
      ReverseAt(s, |s| - 1 - k);
      ReverseAt(r, k);
    }
    if s != [] {
      ReverseAt(r, 0);
      ReverseAt(s, 0);
    }
  }

  /** Ties are the same in both directions, so a permutation of a tie-free list is tie-free descending. */
  lemma NoTiesDescending(s: seq<Candidate>, t: seq<Candidate>, f: Field)
    requires NoTies(s, SortSpec(Some(f), Asc)) && multiset(t) == multiset(s)
    ensures NoTies(t, SortSpec(Some(f), Desc))
  {
    var asc, desc := SortSpec(Some(f), Asc), SortSpec(Some(f), Desc);
    forall i, j | 0 <= i < |t| && 0 <= j < |t| && CompareCandidates(t[i], t[j], desc) == 0
      ensures t[i] == t[j]
    {
      assert t[i] in multiset(s) && t[j] in multiset(s);
      var p :| 0 <= p < |s| && s[p] == t[i];
      var q :| 0 <= q < |s| && s[q] == t[j];
      DescendingFlipsAscending(ValueOf(s[p], f), ValueOf(s[q], f));
      assert CompareCandidates(s[q], s[p], asc) == 0;
    }
  }

  /** When no two rows tie on the column, the descending table is the ascending table reversed. */
  lemma DescendingSortIsReverse(s: seq<Candidate>, f: Field)
    requires NoTies(s, SortSpec(Some(f), Asc))
    ensures Sort(s, SortSpec(Some(f), Desc)) == Reverse(Sort(s, SortSpec(Some(f), Asc)))
  {
    var asc, desc := SortSpec(Some(f), Asc), SortSpec(Some(f), Desc);
    var up := Sort(s, asc);
    var down := Sort(s, desc);
    SortSpecification(s, asc);
    SortSpecification(s, desc);
    var r := Reverse(up);
    ReversePermutes(up);
    ReverseReverse(up);
    DescendingIsReversedAscending(r, f);
    NoTiesDescending(s, down, f);
    SortedUnique(down, r, desc);
  }

  /** The rows that compare equal to `y` under the comparator. */
  function TiedWith(y: Candidate, spec: SortSpec): Candidate -> bool
  {
    (x: Candidate) => CompareCandidates(x, y, spec) == 0
  }

  /** A row tied with `y` is not after any row tied with `y`, so a row it is after is not tied with `y`. */
  lemma AfterTiedIsUntied(x: Candidate, h: Candidate, y: Candidate, spec: SortSpec)
    requires CompareCandidates(x, y, spec) == 0 && CompareCandidates(x, h, spec) > 0
    ensures !TiedWith(y, spec)(h)
  {
  }

  /** Inserting `x` adds it to the rows tied with `y` in front of them when it ties too, and changes nothing else among them. */
  lemma {:induction false} InsertTies(x: Candidate, r: seq<Candidate>, spec: SortSpec, y: Candidate)
    ensures Filter(Insert(x, r, spec), TiedWith(y, spec))
         == (if CompareCandidates(x, y, spec) == 0 then [x] else []) + Filter(r, TiedWith(y, spec))
  {
    var q := TiedWith(y, spec);
    var head := if CompareCandidates(x, y, spec) == 0 then [x] else [];
    if r == [] {
      FilterCons(x, [], q);
    } else if CompareCandidates(x, r[0], spec) <= 0 {
      assert Insert(x, r, spec) == [x] + r;
      FilterCons(x, r, q);
    } else {
      var h, rest := r[0], r[1..];
      var u := Insert(x, rest, spec);
      assert r == [h] + rest;
      assert Insert(x, r, spec) == [h] + u;
      InsertTies(x, rest, spec, y);
      FilterCons(h, u, q);
      FilterCons(h, rest, q);
      if head == [x] {
        AfterTiedIsUntied(x, h, y, spec);
        assert Filter([h] + u, q) == Filter(u, q);
        assert Filter(r, q) == Filter(rest, q);
      } else {
        assert Filter(u, q) == Filter(rest, q);
      }
    }
  }

  /** Stability: among rows that compare equal, the sorted table keeps the stored order. */
  lemma {:induction false} SortStable(s: seq<Candidate>, spec: SortSpec, y: Candidate)
    ensures Filter(Sort(s, spec), TiedWith(y, spec)) == Filter(s, TiedWith(y, spec))
  {
    if s != [] {
      SortStable(s[1..], spec, y);
      InsertTies(s[0], Sort(s[1..], spec), spec, y);
    }
  }

  /** The rows whose value in column `f` is null, and those where it is present. */
  function NullAt(f: Field): Candidate -> bool
  {
    (c: Candidate) => ValueOf(c, f).None?
  }

  function PresentAt(f: Field): Candidate -> bool
  {
    (c: Candidate) => ValueOf(c, f).Some?
  }

  /** Inserting in front of a block that `x` is not after leaves that block untouched at the end. */
  lemma {:induction false} InsertBeforeAppended(x: Candidate, a: seq<Candidate>, b: seq<Candidate>, spec: SortSpec)
    requires b == [] || CompareCandidates(x, b[0], spec) <= 0
    ensures Insert(x, a + b, spec) == Insert(x, a, spec) + b
  {
    if a == [] {
      assert a + b == b;
    } else if CompareCandidates(x, a[0], spec) <= 0 {
      assert (a + b)[0] == a[0];
    } else {
      assert (a + b)[0] == a[0] && (a + b)[1..] == a[1..] + b;
      InsertBeforeAppended(x, a[1..], b, spec);
    }
  }

  /** Inserting after a block of rows that `x` is after leaves that block untouched at the front. */
  lemma {:induction false} InsertAfterAll(x: Candidate, a: seq<Candidate>, b: seq<Candidate>, spec: SortSpec)
    requires forall i :: 0 <= i < |a| ==> CompareCandidates(x, a[i], spec) > 0
    ensures Insert(x, a + b, spec) == a + Insert(x, b, spec)
  {
    if a == [] {
      assert a + b == b;
    } else {
      assert (a + b)[0] == a[0] && (a + b)[1..] == a[1..] + b;
      InsertAfterAll(x, a[1..], b, spec);
    }
  }

  /** Every row of a sort of filtered rows passes the filter. */
  lemma SortOfFilterPasses(s: seq<Candidate>, p: Candidate -> bool, spec: SortSpec)
    ensures forall i :: 0 <= i < |Sort(Filter(s, p), spec)| ==> p(Sort(Filter(s, p), spec)[i])
  {
    var u := Filter(s, p);
    var t := Sort(u, spec);
    SortSpecification(u, spec);
    forall i | 0 <= i < |t| ensures p(t[i]) {
      assert t[i] in multiset(u);
      var k :| 0 <= k < |u| && u[k] == t[i];
    }
  }

  /** One step of the ascending split: a row with a value goes among the rows with a value, in front of all null rows. */
  lemma NullsLastPresentStep(x: Candidate, rest: seq<Candidate>, f: Field)
    requires ValueOf(x, f).Some?
    requires Sort(rest, SortSpec(Some(f), Asc))
          == Sort(Filter(rest, PresentAt(f)), SortSpec(Some(f), Asc)) + Filter(rest, NullAt(f))
    ensures Sort([x] + rest, SortSpec(Some(f), Asc))
         == Sort([x] + Filter(rest, PresentAt(f)), SortSpec(Some(f), Asc)) + Filter(rest, NullAt(f))
  {
    var asc := SortSpec(Some(f), Asc);
    var a := Sort(Filter(rest, PresentAt(f)), asc);
    var b := Filter(rest, NullAt(f));
    var s := [x] + rest;
    assert s[0] == x && s[1..] == rest;
    var pu := [x] + Filter(rest, PresentAt(f));
    assert pu[0] == x && pu[1..] == Filter(rest, PresentAt(f));
    if b != [] {
      assert NullAt(f)(b[0]);
    }
    InsertBeforeAppended(x, a, b, asc);
  }

  /** One step of the ascending split: a null row goes behind every row with a value and behind the earlier null rows' place. */
  lemma NullsLastNullStep(x: Candidate, rest: seq<Candidate>, f: Field)
    requires ValueOf(x, f).None?
    requires Sort(rest, SortSpec(Some(f), Asc))
          == Sort(Filter(rest, PresentAt(f)), SortSpec(Some(f), Asc)) + Filter(rest, NullAt(f))
    ensures Sort([x] + rest, SortSpec(Some(f), Asc))
         == Sort(Filter(rest, PresentAt(f)), SortSpec(Some(f), Asc)) + ([x] + Filter(rest, NullAt(f)))
  {
    var asc := SortSpec(Some(f), Asc);
    var a := Sort(Filter(rest, PresentAt(f)), asc);
    var b := Filter(rest, NullAt(f));
    var s := [x] + rest;
    assert s[0] == x && s[1..] == rest;
    assert Sort(s, asc) == Insert(x, a + b, asc);
    assert Insert(x, a + b, asc) == a + Insert(x, b, asc) by {
      SortOfFilterPasses(rest, PresentAt(f), asc);
      forall i | 0 <= i < |a| ensures CompareCandidates(x, a[i], asc) > 0 {
        assert PresentAt(f)(a[i]);
      }
      InsertAfterAll(x, a, b, asc);
    }
    assert Insert(x, b, asc) == [x] + b by {
      if b != [] {
        assert NullAt(f)(b[0]);
        assert CompareCandidates(x, b[0], asc) == 0;
      }
    }
  }

  /** Ascending, the rows with a value come in sorted order and the null rows follow in stored order. */
  lemma {:induction false} NullsLastAscending(s: seq<Candidate>, f: Field)
    ensures Sort(s, SortSpec(Some(f), Asc))
         == Sort(Filter(s, PresentAt(f)), SortSpec(Some(f), Asc)) + Filter(s, NullAt(f))
  {
    if s != [] {
      var x, rest := s[0], s[1..];
      NullsLastAscending(rest, f);
      assert s == [x] + rest;
      FilterCons(x, rest, PresentAt(f));
      FilterCons(x, rest, NullAt(f));
      if ValueOf(x, f).Some? {
        assert PresentAt(f)(x) && !NullAt(f)(x);
        assert Filter(s, PresentAt(f)) == [x] + Filter(rest, PresentAt(f));
        assert Filter(s, NullAt(f)) == Filter(rest, NullAt(f));
        NullsLastPresentStep(x, rest, f);
      } else {
        assert !PresentAt(f)(x) && NullAt(f)(x);
        assert Filter(s, PresentAt(f)) == Filter(rest, PresentAt(f));
        assert Filter(s, NullAt(f)) == [x] + Filter(rest, NullAt(f));
        NullsLastNullStep(x, rest, f);
      }
    }
  }

  /** Descending, a row whose value is null is never after any row, so it goes in front. */
  lemma InsertNullDescending(x: Candidate, c: seq<Candidate>, f: Field)
    requires ValueOf(x, f).None?
    ensures Insert(x, c, SortSpec(Some(f), Desc)) == [x] + c
  {
  }

  /** One step of the descending split: a row with a value goes among the rows with a value, behind all null rows. */
  lemma NullsFirstPresentStep(x: Candidate, rest: seq<Candidate>, f: Field)
    requires ValueOf(x, f).Some?
    requires Sort(rest, SortSpec(Some(f), Desc))
          == Filter(rest, NullAt(f)) + Sort(Filter(rest, PresentAt(f)), SortSpec(Some(f), Desc))
    ensures Sort([x] + rest, SortSpec(Some(f), Desc))
         == Filter(rest, NullAt(f)) + Sort([x] + Filter(rest, PresentAt(f)), SortSpec(Some(f), Desc))
  {
    var desc := SortSpec(Some(f), Desc);
    var a := Filter(rest, NullAt(f));
    var b := Sort(Filter(rest, PresentAt(f)), desc);
    var s := [x] + rest;
    assert s[0] == x && s[1..] == rest;
    var pu := [x] + Filter(rest, PresentAt(f));
    assert pu[0] == x && pu[1..] == Filter(rest, PresentAt(f));
    forall i | 0 <= i < |a| ensures CompareCandidates(x, a[i], desc) > 0 {
      assert NullAt(f)(a[i]);
    }
    InsertAfterAll(x, a, b, desc);
  }

  /** One step of the descending split: a null row goes in front of everything. */
  lemma NullsFirstNullStep(x: Candidate, rest: seq<Candidate>, f: Field)
    requires ValueOf(x, f).None?
    requires Sort(rest, SortSpec(Some(f), Desc))
          == Filter(rest, NullAt(f)) + Sort(Filter(rest, PresentAt(f)), SortSpec(Some(f), Desc))
    ensures Sort([x] + rest, SortSpec(Some(f), Desc))
         == ([x] + Filter(rest, NullAt(f))) + Sort(Filter(rest, PresentAt(f)), SortSpec(Some(f), Desc))
  {
    var desc := SortSpec(Some(f), Desc);
    var a := Filter(rest, NullAt(f));
    var b := Sort(Filter(rest, PresentAt(f)), desc);
    var s := [x] + rest;
    assert s[0] == x && s[1..] == rest;
    InsertNullDescending(x, a + b, f);
    assert [x] + (a + b) == ([x] + a) + b;
  }

  /** Descending, the null rows come first in stored order and the rows with a value follow in sorted order. */
  lemma {:induction false} NullsFirstDescending(s: seq<Candidate>, f: Field)
    ensures Sort(s, SortSpec(Some(f), Desc))
         == Filter(s, NullAt(f)) + Sort(Filter(s, PresentAt(f)), SortSpec(Some(f), Desc))
  {
    if s != [] {
      var x, rest := s[0], s[1..];
      NullsFirstDescending(rest, f);
      assert s == [x] + rest;
      FilterCons(x, rest, PresentAt(f));
      FilterCons(x, rest, NullAt(f));
      if ValueOf(x, f).Some? {
        assert PresentAt(f)(x) && !NullAt(f)(x);
        assert Filter(s, PresentAt(f)) == [x] + Filter(rest, PresentAt(f));
        assert Filter(s, NullAt(f)) == Filter(rest, NullAt(f));
        NullsFirstPresentStep(x, rest, f);
      } else {
        assert !PresentAt(f)(x) && NullAt(f)(x);
        assert Filter(s, PresentAt(f)) == Filter(rest, PresentAt(f));
        assert Filter(s, NullAt(f)) == [x] + Filter(rest, NullAt(f));
        NullsFirstNullStep(x, rest, f);
      }
    }
  }

  /** When no two rows with a value tie on the column, the descending table is the null rows
      in stored order followed by the ascending order of the other rows reversed. */
  lemma DescendingSortWithNulls(s: seq<Candidate>, f: Field)
    requires NoTies(Filter(s, PresentAt(f)), SortSpec(Some(f), Asc))
    ensures Sort(s, SortSpec(Some(f), Desc))
         == Filter(s, NullAt(f)) + Reverse(Sort(Filter(s, PresentAt(f)), SortSpec(Some(f), Asc)))
  {
    NullsFirstDescending(s, f);
    DescendingSortIsReverse(Filter(s, PresentAt(f)), f);
  }

  /** A named row sorts before a row whose name is null ascending, and after it descending. */
  lemma ScenarioNullNameSort(amy: Candidate, bob: Candidate)
    requires amy.name == Some("Amy") && bob.name == None
    ensures Sort([amy, bob], SortSpec(Some(Name), Asc)) == [amy, bob]
    ensures Sort([amy, bob], SortSpec(Some(Name), Desc)) == [bob, amy]
  {
    var asc, desc := SortSpec(Some(Name), Asc), SortSpec(Some(Name), Desc);
    assert [amy, bob][1..] == [bob];
    assert [bob][1..] == [];
    assert Sort([bob], asc) == Insert(bob, [], asc) == [bob];
    assert Sort([bob], desc) == Insert(bob, [], desc) == [bob];
    assert CompareCandidates(amy, bob, asc) < 0;
    assert CompareCandidates(amy, bob, desc) > 0;
    assert Insert(amy, [bob], desc) == [bob] + Insert(amy, [], desc);
  }

  /** The rows the table shows: the filter's rows, sorted on a copy. */
  function DisplayedCandidates(saved: seq<Candidate>, filterText: string, spec: SortSpec): (r: seq<Candidate>)
    ensures multiset(r) == multiset(FilterCandidates(saved, filterText))
    ensures Sorted(r, spec)
  {
    SortSpecification(FilterCandidates(saved, filterText), spec);
    Sort(FilterCandidates(saved, filterText), spec)
  }

  /** With an empty filter and no active column the table shows the stored list as it is. */
  lemma DisplayedUnfiltered(saved: seq<Candidate>, dir: Direction)
    ensures DisplayedCandidates(saved, "", SortSpec(None, dir)) == saved
  {
    FilterCandidatesEdgeCases(saved, "");
    UnsortedKeepsOrder(saved, dir);
  }

  // ---------------------------------------------------------------------------
  // Header clicks

  function Flip(d: Direction): Direction
  {
    if d == Asc then Desc else Asc
  }

  /** `handleSort`: the clicked column becomes active; it is ascending unless it was already active and ascending. */
  function NextSort(spec: SortSpec, clicked: Field): (r: SortSpec)
    ensures r.field == Some(clicked)
    ensures r.direction == Asc <==> spec.field != Some(clicked) || spec.direction == Desc
  {
    if spec.field == Some(clicked) then SortSpec(spec.field, Flip(spec.direction))
    else SortSpec(Some(clicked), Asc)
  }

  /** Two clicks on the active column restore the spec; two on another column leave it descending. */
  lemma ClickTwice(spec: SortSpec, f: Field)
    ensures NextSort(NextSort(spec, f), f) == if spec.field == Some(f) then spec else SortSpec(Some(f), Desc)
  {
  }

  /** The review page's state and its storage slot. */
  class ReviewPage {
    var saved: seq<Candidate>
    var sortField: Option<Field>
    var sortDirection: Direction
    var filterText: string
    const store: Store

    constructor (store: Store)
      ensures saved == [] && sortField == None && sortDirection == Asc && filterText == ""
      ensures this.store == store
    {
      saved, sortField, sortDirection, filterText := [], None, Asc, "";
      this.store := store;
    }

    function Sorting(): SortSpec
      reads this
    {
      SortSpec(sortField, sortDirection)
    }

    /** The mount effect and the storage-event handler: the list becomes what is stored; a malformed slot throws. */
    method Load() returns (ok: bool)
      modifies this`saved
      ensures ok <==> Decode(store.slot).Some?
      ensures ok ==> saved == Decode(store.slot).value
      ensures !ok ==> saved == old(saved)
    {
      var stored := Decode(store.slot);
      ok := stored.Some?;
      if ok {
        saved := stored.value;
      }
    }

    /** `removeCandidate`: drops every row with that id and writes the new list to the slot. */
    method RemoveCandidate(id: int)
      modifies this`saved, store
      ensures saved == RemoveId(old(saved), id)
      ensures store.slot == Holds(saved)
    {
      var updated := RemoveId(saved, id);
      saved := updated;
      store.slot := Holds(updated);
    }

    /** `handleSort`, on a header click. */
    method HandleSort(field: Field)
      modifies this`sortField, this`sortDirection
      ensures Sorting() == NextSort(old(Sorting()), field)
    {
      if sortField == Some(field) {
        sortDirection := if sortDirection == Asc then Desc else Asc;
      } else {
        sortField := Some(field);
        sortDirection := Asc;
      }
    }

    /** `handleFilterChange`. */
    method SetFilterText(text: string)
      modifies this`filterText
      ensures filterText == text
    {
      filterText := text;
    }

    /**
     * `displayedCandidates`: the rows shown are exactly the stored rows that pass the
     * filter, each as often as stored, in comparator order; the stored list is not changed.
     */
    method Render() returns (rows: seq<Candidate>)
      ensures rows == DisplayedCandidates(saved, filterText, Sorting())
      ensures filterText == "" && sortField.None? ==> rows == saved
      ensures multiset(rows) == multiset(FilterCandidates(saved, filterText))
      ensures forall x :: x in rows <==> x in saved && Matches(x, filterText)
      ensures Sorted(rows, Sorting())
    {
      var copy := saved;
      rows := DisplayedCandidates(copy, filterText, Sorting());
      FilterCandidatesSpec(copy, filterText);
      if filterText == "" && sortField.None? {
        DisplayedUnfiltered(copy, sortDirection);
      }
      forall x ensures x in rows <==> x in saved && Matches(x, filterText) {
        assert x in rows <==> x in multiset(rows);
        assert x in saved <==> x in multiset(saved);
      }
    }
  }
}
