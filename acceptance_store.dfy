/**
 * The accepted-candidates list kept in the browser's storage slot, and the three
 * list operations the pages apply to it: de-duplicating append, unconditional
 * append of the built-in test profile, and removal by id.
 */
module AcceptanceStore {
  import opened Candidates
  import opened Sequences

  /** The id of the fixed test profile. */
  const TestId := 12345

  /** The profile that the "Save Test Candidate" button stores. */
  const TestCandidate := Candidate(
    TestId, "testuser", Some("Test User"), Some("Test Location"), Some("Test Company"),
    Some("test@example.com"), Some("This is a test user"),
    "https://avatars.githubusercontent.com/u/12345", "https://github.com/testuser")

  /** Some stored entry carries this id (the `some` test before an accept). */
  predicate HasId(list: seq<Candidate>, id: int): (r: bool)
    ensures r <==> exists c :: c in list && c.id == id
  {
    exists i :: 0 <= i < |list| && list[i].id == id
  }

  /** How many stored entries carry this id. */
  function CountId(list: seq<Candidate>, id: int): nat
  {
    if list == [] then 0 else (if list[0].id == id then 1 else 0) + CountId(list[1..], id)
  }

  /** No two stored entries share an id: the store's intended invariant. */
  predicate UniqueIds(list: seq<Candidate>)
  {
    forall i, j :: 0 <= i < j < |list| ==> list[i].id != list[j].id
  }

  /** The list an accept writes: the old list, followed by `c` unless its id is already stored. */
  function AppendIfAbsent(list: seq<Candidate>, c: Candidate): (r: seq<Candidate>)
    ensures HasId(r, c.id)
    ensures list <= r
    ensures UniqueIds(list) ==> UniqueIds(r)
  {
    if HasId(list, c.id) then list
    else
      assert (list + [c])[|list|] == c;
      list + [c]
  }

  /** The list the test button writes: always one entry longer, whatever is stored. */
  function AppendTest(list: seq<Candidate>): (r: seq<Candidate>)
    ensures |r| == |list| + 1 && list <= r
    ensures r[|list|] == TestCandidate
  {
    list + [TestCandidate]
  }

  /** The list after the review table's remove action: every entry with another id, in order. */
  function RemoveId(list: seq<Candidate>, id: int): (r: seq<Candidate>)
    ensures |r| <= |list|
    ensures forall i :: 0 <= i < |r| ==> r[i].id != id
    ensures UniqueIds(list) ==> UniqueIds(r)
  {
    var p := (c: Candidate) => c.id != id;
    FilterKeepsUniqueIds(list, p);
    Filter(list, p)
  }

  /** Dropping the first entry keeps ids unique. */
  lemma UniqueIdsTail(list: seq<Candidate>)
    requires list != [] && UniqueIds(list)
    ensures UniqueIds(list[1..])
  {
    forall i, j | 0 <= i < j < |list[1..]| ensures list[1..][i].id != list[1..][j].id {
      assert list[1..][i] == list[i + 1] && list[1..][j] == list[j + 1];
    }
  }

  /** Filtering only deletes entries, so a list with unique ids keeps them unique. */
  lemma {:induction false} FilterKeepsUniqueIds(list: seq<Candidate>, p: Candidate -> bool)
    ensures UniqueIds(list) ==> UniqueIds(Filter(list, p))
  {
    if list != [] && UniqueIds(list) {
      var rest := list[1..];
      UniqueIdsTail(list);
      FilterKeepsUniqueIds(rest, p);
      var fr := Filter(rest, p);
      if p(list[0]) {
        var r := [list[0]] + fr;
        assert Filter(list, p) == r;
        forall i, j | 0 <= i < j < |r| ensures r[i].id != r[j].id {
          assert r[j] == fr[j - 1];
          if i == 0 {
            FilterMembers(rest, p, fr[j - 1]);
            var k :| 0 <= k < |rest| && rest[k] == fr[j - 1];
            assert list[k + 1] == rest[k];
          } else {
            assert r[i] == fr[i - 1];
          }
        }
      }
    }
  }

  /** Contents of the storage slot: nothing yet, a decodable list, or text that does not decode to a list. */
  datatype Slot = Unset | Holds(list: seq<Candidate>) | Malformed

  /** Reading the slot: an unset slot reads as the empty list; a malformed one makes decoding throw. */
  function Decode(slot: Slot): (r: Option<seq<Candidate>>)
    ensures r.None? <==> slot.Malformed?
    ensures slot.Holds? ==> r == Some(slot.list)
    ensures slot.Unset? ==> r == Some([])
  {
    match slot
    case Unset => Some([])
    case Holds(list) => Some(list)
    case Malformed => None
  }

  /** The browser's storage slot that both pages read and write. */
  class Store {
    var slot: Slot

    constructor (initial: Slot)
      ensures slot == initial
    {
      slot := initial;
    }
  }

  /** HasId is the positive count. */
  lemma {:induction false} HasIdIffCounted(list: seq<Candidate>, id: int)
    ensures HasId(list, id) <==> CountId(list, id) > 0
  {
    if list != [] {
      HasIdIffCounted(list[1..], id);
      if list[0].id != id && HasId(list, id) {
        var i :| 0 <= i < |list| && list[i].id == id;
        assert list[1..][i - 1].id == id;
      }
      if HasId(list[1..], id) {
        var i :| 0 <= i < |list[1..]| && list[1..][i].id == id;
        assert list[i + 1].id == id;
      }
    }
  }

  /** Appending one entry adds one to its id's count and nothing to the others. */
  lemma {:induction false} CountIdAppend(list: seq<Candidate>, c: Candidate, id: int)
    ensures CountId(list + [c], id) == CountId(list, id) + (if c.id == id then 1 else 0)
  {
    if list != [] {
      CountIdAppend(list[1..], c, id);
      assert (list + [c])[1..] == list[1..] + [c];
    }
  }

  /** With unique ids every id is stored at most once. */
  lemma {:induction false} UniqueCountsAtMostOne(list: seq<Candidate>, id: int)
    requires UniqueIds(list)
    ensures CountId(list, id) <= 1
  {
    if list != [] {
      assert UniqueIds(list[1..]) by {
        forall i, j | 0 <= i < j < |list[1..]| ensures list[1..][i].id != list[1..][j].id {
          assert list[1..][i] == list[i + 1] && list[1..][j] == list[j + 1];
        }
      }
      UniqueCountsAtMostOne(list[1..], id);
      if list[0].id == id {
        assert !HasId(list[1..], id) by {
          forall k | 0 <= k < |list[1..]| ensures list[1..][k].id != id {
            assert list[1..][k] == list[k + 1];
          }
        }
        HasIdIffCounted(list[1..], id);
      }
    }
  }

  /** Accepting a candidate whose id is already stored leaves the list exactly as it was. */
  lemma AcceptDuplicateUnchanged(list: seq<Candidate>, c: Candidate, i: int)
    requires 0 <= i < |list| && list[i].id == c.id
    ensures AppendIfAbsent(list, c) == list
  {
  }

  /** Accepting a candidate with a new id stores the old list followed by that candidate. */
  lemma AcceptNewAppends(list: seq<Candidate>, c: Candidate)
    requires forall i :: 0 <= i < |list| ==> list[i].id != c.id
    ensures AppendIfAbsent(list, c) == list + [c]
  {
  }

  /** Accepting the same id twice leaves exactly one entry with it, unless it was already duplicated. */
  lemma AcceptTwiceStoresOnce(list: seq<Candidate>, c: Candidate, d: Candidate)
    requires c.id == d.id
    requires CountId(list, c.id) <= 1
    ensures CountId(AppendIfAbsent(AppendIfAbsent(list, c), d), c.id) == 1
  {
    HasIdIffCounted(list, c.id);
    if !HasId(list, c.id) {
      CountIdAppend(list, c, c.id);
    }
  }

  /** The test button stores a second 12345 entry when one is already there. */
  lemma TestAppendBreaksUniqueness(list: seq<Candidate>)
    requires HasId(list, TestId)
    ensures !UniqueIds(AppendTest(list))
  {
    var i :| 0 <= i < |list| && list[i].id == TestId;
    assert AppendTest(list)[i].id == AppendTest(list)[|list|].id;
  }

  /**
   * After removal no entry with that id is left (duplicates included), every other
   * entry keeps all its occurrences, and the survivors stay in their relative order.
   */
  lemma RemoveIdSpec(list: seq<Candidate>, id: int)
    ensures !HasId(RemoveId(list, id), id)
    ensures forall x :: multiset(RemoveId(list, id))[x] == if x.id != id then multiset(list)[x] else 0
    ensures IsSubsequence(RemoveId(list, id), list)
  {
    var p := (c: Candidate) => c.id != id;
    forall x ensures multiset(RemoveId(list, id))[x] == if x.id != id then multiset(list)[x] else 0 {
      FilterCount(list, p, x);
    }
    FilterIsSubsequence(list, p);
  }

  /** Removal shortens the list by exactly the number of entries with the id. */
  lemma {:induction false} RemoveLength(list: seq<Candidate>, id: int)
    ensures |RemoveId(list, id)| == |list| - CountId(list, id)
  {
    if list != [] {
      RemoveLength(list[1..], id);
    }
  }

  /**
   * With unique ids, removing all entries with an id is removing the one entry the row
   * shows: the list loses exactly that entry and keeps the rest in order.
   */
  lemma RemoveUniqueIsRemoveOne(list: seq<Candidate>, i: int)
    requires UniqueIds(list) && 0 <= i < |list|
    ensures RemoveId(list, list[i].id) == list[..i] + list[i + 1..]
    ensures |RemoveId(list, list[i].id)| == |list| - 1
  {
    var id := list[i].id;
    var p := (c: Candidate) => c.id != id;
    var before, after := list[..i], list[i + 1..];
    assert RemoveId(list, id) == Filter(before + ([list[i]] + after), p) by {
      assert list == before + ([list[i]] + after);
    }
    assert Filter(before, p) == before by {
      forall k | 0 <= k < |before| ensures p(before[k]) {
        assert before[k] == list[k];
      }
      FilterAllPass(before, p);
    }
    assert Filter(after, p) == after by {
      forall k | 0 <= k < |after| ensures p(after[k]) {
        assert after[k] == list[i + 1 + k];
      }
      FilterAllPass(after, p);
    }
    assert Filter([list[i]] + after, p) == after by {
      FilterCons(list[i], after, p);
    }
    FilterConcat(before, [list[i]] + after, p);
  }

  /** Removing an id that is not stored leaves the list unchanged. */
  lemma RemoveAbsentUnchanged(list: seq<Candidate>, id: int)
    requires !HasId(list, id)
    ensures RemoveId(list, id) == list
  {
    FilterAllPass(list, (c: Candidate) => c.id != id);
  }
}
