/** The dashboard of frontend/src/App.tsx: the set names chosen so far, in the
    order they were added, the text in the input box, and the price range each
    set's chart shows. Rendering and the charts themselves are left out; what is
    kept is the state the three handlers maintain. */
module Dashboard {
  import opened Text
  import opened PriceApi

  /** `selectedSets`, `currentSet` and `setRanges`, the component's three
      pieces of state. */
  datatype Dashboard = Dashboard(selectedSets: seq<string>, currentSet: string, setRanges: map<string, RangeCode>)

  /** The state on first render: nothing selected, an empty input, no ranges. */
  const Initial: Dashboard := Dashboard([], "", map[])

  /** The names a list holds. */
  function Elements(names: seq<string>): set<string> {
    set n | n in names
  }

  /** No name occurs twice. */
  predicate Distinct(names: seq<string>) {
    forall i, j :: 0 <= i < j < |names| ==> names[i] != names[j]
  }

  /** A non-empty name that neither begins nor ends with white space, as
      `trim` leaves it. */
  predicate IsTrimmedName(name: string) {
    name != [] && !IsSpace(name[0]) && !IsSpace(name[|name| - 1])
  }

  /** Every name is a trimmed one. */
  predicate AllTrimmed(names: seq<string>) {
    forall k :: 0 <= k < |names| ==> IsTrimmedName(names[k])
  }

  /** What the handlers keep true together: every selected name is non-empty,
      trimmed and selected once, and a range is stored for exactly the selected
      names. */
  predicate Valid(d: Dashboard) {
    && Distinct(d.selectedSets)
    && AllTrimmed(d.selectedSets)
    && d.setRanges.Keys == Elements(d.selectedSets)
  }

  lemma InitialValid()
    ensures Valid(Initial)
  {
  }

  /** The guard of `handleAddSet`: the trimmed input is non-empty and not
      already selected. */
  predicate Adds(d: Dashboard) {
    Trim(d.currentSet) != "" && Trim(d.currentSet) !in d.selectedSets
  }

  /** `range={setRanges[set] || 'quarter'}`: the range a set's chart is given. A
      stored range is never falsy, so the fallback applies only when none is
      stored; in a valid dashboard a listed set always has one stored. */
  function DisplayedRange(d: Dashboard, name: string): (r: RangeCode)
    ensures Valid(d) && name in d.selectedSets ==> name in d.setRanges && r == d.setRanges[name]
    ensures name !in d.setRanges ==> r == Quarter
  {
    if name in d.setRanges then d.setRanges[name] else DefaultRange
  }

  /** The two maps hold the same entries for every name other than `name`. */
  ghost predicate SameEntriesExcept(a: map<string, RangeCode>, b: map<string, RangeCode>, name: string) {
    forall n :: n != name ==> (n in a <==> n in b) && (n in a ==> a[n] == b[n])
  }

  /** `handleAddSet`: the trimmed input joins the end of the list with the
      default range and the input is cleared; an empty or already selected
      input changes nothing at all. */
  function AddSet(d: Dashboard): (e: Dashboard)
    ensures e != d <==> Adds(d)
    ensures e != d ==> e.selectedSets == d.selectedSets + [Trim(d.currentSet)] && e.currentSet == ""
    ensures Trim(d.currentSet) != "" ==> Trim(d.currentSet) in e.selectedSets
    ensures e != d ==> Trim(d.currentSet) in e.setRanges && e.setRanges[Trim(d.currentSet)] == Quarter
    ensures SameEntriesExcept(e.setRanges, d.setRanges, Trim(d.currentSet))
  {
    if Adds(d) then AddName(d, Trim(d.currentSet)) else d
  }

  /** The accepting branch of `handleAddSet` for the name `newSet`. */
  function AddName(d: Dashboard, newSet: string): Dashboard {
    Dashboard(d.selectedSets + [newSet], "", d.setRanges[newSet := DefaultRange])
  }

  /** `selectedSets.filter(set => set !== name)`. */
  function Remove(names: seq<string>, name: string): (r: seq<string>)
    ensures forall n :: n in r <==> n in names && n != name
    ensures |r| <= |names|
    decreases |names|
  {
    if names == [] then []
    else (if names[0] == name then [] else [names[0]]) + Remove(names[1..], name)
  }

  /** Filtering a concatenation filters each part in place, so the names kept
      stay in their order. */
  lemma {:induction false} RemoveAppend(a: seq<string>, b: seq<string>, name: string)
    ensures Remove(a + b, name) == Remove(a, name) + Remove(b, name)
    decreases |a|
  {
    if a == [] {
      assert a + b == b;
    } else {
      assert (a + b)[1..] == a[1..] + b;
      RemoveAppend(a[1..], b, name);
      var h := if a[0] == name then [] else [a[0]];
      assert h + (Remove(a[1..], name) + Remove(b, name)) == (h + Remove(a[1..], name)) + Remove(b, name);
    }
  }

  /** Filtering out a name that is not there changes nothing. */
  lemma {:induction false} RemoveAbsent(names: seq<string>, name: string)
    requires name !in names
    ensures Remove(names, name) == names
    decreases |names|
  {
    if names != [] {
      RemoveAbsent(names[1..], name);
      assert [names[0]] + names[1..] == names;
    }
  }

  /** Filtering keeps a list free of repeats, and from such a list it drops
      exactly one entry when the name is there. */
  lemma {:induction false} RemoveDistinct(names: seq<string>, name: string)
    requires Distinct(names)
    ensures Distinct(Remove(names, name))
    ensures name in names ==> |Remove(names, name)| == |names| - 1
    decreases |names|
  {
    if names != [] {
      var t := names[1..];
      assert Distinct(t) by {
        forall i, j | 0 <= i < j < |t| ensures t[i] != t[j] {
          assert t[i] == names[i + 1] && t[j] == names[j + 1];
        }
      }
      RemoveDistinct(t, name);
      var r := Remove(t, name);
      assert names[0] !in t by {
        forall k | 0 <= k < |t| ensures t[k] != names[0] {
          assert t[k] == names[k + 1];
        }
      }
      if names[0] == name {
        RemoveAbsent(t, name);
      } else {
        assert names[0] !in r;
        var s := [names[0]] + r;
        forall i, j | 0 <= i < j < |s| ensures s[i] != s[j] {
          assert s[j] == r[j - 1];
          if i > 0 {
            assert s[i] == r[i - 1];
          }
        }
      }
    }
  }

  /** In a list without repeats, filtering out a name that is there deletes
      its one entry and leaves the names before and after it in place. */
  lemma RemoveOne(names: seq<string>, k: nat)
    requires Distinct(names) && k < |names|
    ensures Remove(names, names[k]) == names[..k] + names[k + 1..]
  {
    DistinctApart(names, k);
    assert names == names[..k] + [names[k]] + names[k + 1..];
    RemoveBetween(names[..k], names[k], names[k + 1..]);
  }

  /** In a list without repeats, a name occurs neither before nor after its
      own position. */
  lemma DistinctApart(names: seq<string>, k: nat)
    requires Distinct(names) && k < |names|
    ensures names[k] !in names[..k] && names[k] !in names[k + 1..]
  {
    var name, a, b := names[k], names[..k], names[k + 1..];
    forall i | 0 <= i < |a| ensures a[i] != name {
      assert a[i] == names[i];
    }
    forall i | 0 <= i < |b| ensures b[i] != name {
      assert b[i] == names[k + 1 + i];
    }
  }

  /** Filtering out the one occurrence of a name between two lists without it
      joins the two lists. */
  lemma RemoveBetween(a: seq<string>, name: string, b: seq<string>)
    requires name !in a && name !in b
    ensures Remove(a + [name] + b, name) == a + b
  {
    RemoveAppend(a + [name], b, name);
    RemoveAppend(a, [name], name);
    RemoveAbsent(a, name);
    RemoveAbsent(b, name);
    assert Remove([name], name) == [];
    assert a + [] == a;
  }

  /** `handleRemoveSet`: the name leaves the list and its range is deleted; every
      other name keeps its place (see `RemoveOne`) and its range, and the input
      is untouched. */
  function RemoveSet(d: Dashboard, name: string): (e: Dashboard)
    ensures name !in e.selectedSets && name !in e.setRanges
    ensures forall n :: n != name ==> (n in e.selectedSets <==> n in d.selectedSets)
    ensures e.selectedSets == Remove(d.selectedSets, name)
    ensures SameEntriesExcept(e.setRanges, d.setRanges, name)
    ensures e.currentSet == d.currentSet
  {
    Dashboard(Remove(d.selectedSets, name), d.currentSet, d.setRanges - {name})
  }

  /** `handleRangeChange`: the set's chart now shows the chosen range and every
      other chart keeps its own; the list and the input are untouched. */
  function RangeChange(d: Dashboard, name: string, range: RangeCode): (e: Dashboard)
    ensures name in e.setRanges && e.setRanges[name] == range
    ensures SameEntriesExcept(e.setRanges, d.setRanges, name)
    ensures e.selectedSets == d.selectedSets && e.currentSet == d.currentSet
  {
    d.(setRanges := d.setRanges[name := range])
  }

  /** Appending a new trimmed name keeps a list of trimmed names free of repeats. */
  lemma AppendNewName(names: seq<string>, t: string)
    requires Distinct(names) && AllTrimmed(names)
    requires t !in names && IsTrimmedName(t)
    ensures Distinct(names + [t]) && AllTrimmed(names + [t])
    ensures Elements(names + [t]) == Elements(names) + {t}
  {
    var s := names + [t];
    forall i, j | 0 <= i < j < |s| ensures s[i] != s[j] {
      assert s[i] == names[i];
      if j < |names| {
        assert s[j] == names[j];
      }
    }
    forall k | 0 <= k < |s| ensures IsTrimmedName(s[k]) {
      if k < |names| {
        assert s[k] == names[k];
      }
    }
  }

  /** Adding keeps the dashboard valid. */
  lemma AddSetPreservesValid(d: Dashboard)
    requires Valid(d)
    ensures Valid(AddSet(d))
  {
    var t := Trim(d.currentSet);
    if t != "" && t !in d.selectedSets {
      AddNamePreservesValid(d, t);
      assert AddSet(d) == AddName(d, t);
    } else {
      assert AddSet(d) == d;
    }
  }

  lemma AddNamePreservesValid(d: Dashboard, t: string)
    requires Valid(d) && t !in d.selectedSets && IsTrimmedName(t)
    ensures Valid(AddName(d, t))
  {
    AppendNewName(d.selectedSets, t);
    assert AddName(d, t).setRanges.Keys == d.setRanges.Keys + {t};
  }

  /** Removing keeps the dashboard valid. */
  lemma RemoveSetPreservesValid(d: Dashboard, name: string)
    requires Valid(d)
    ensures Valid(RemoveSet(d, name))
  {
    var e := RemoveSet(d, name);
    RemoveDistinct(d.selectedSets, name);
    forall k | 0 <= k < |e.selectedSets| ensures IsTrimmedName(e.selectedSets[k]) {
      var n := e.selectedSets[k];
      assert n in d.selectedSets;
      var i :| 0 <= i < |d.selectedSets| && d.selectedSets[i] == n;
    }
  }

  /** Changing the range of a selected set keeps the dashboard valid. */
  lemma RangeChangePreservesValid(d: Dashboard, name: string, range: RangeCode)
    requires Valid(d) && name in d.selectedSets
    ensures Valid(RangeChange(d, name, range))
  {
    var e := RangeChange(d, name, range);
    assert e.setRanges.Keys == d.setRanges.Keys;
  }

  /** The handler itself does not check the name: a change for a set that is
      not selected would store a range nobody displays. Only the charts of
      selected sets offer the control, which is what keeps this from arising. */
  lemma RangeChangeUnselectedBreaksValid(d: Dashboard, name: string, range: RangeCode)
    requires name !in d.selectedSets
    ensures !Valid(RangeChange(d, name, range))
  {
    assert name in RangeChange(d, name, range).setRanges;
  }

  /** Removing a set just added restores the list and the ranges from before
      the addition; only the cleared input remains. */
  lemma RemoveUndoesAdd(d: Dashboard)
    requires Valid(d) && Adds(d)
    ensures RemoveSet(AddSet(d), Trim(d.currentSet)) == d.(currentSet := "")
  {
    var t := Trim(d.currentSet);
    RemoveUndoesAppend(d.selectedSets, d.setRanges, t);
  }

  /** The list and map half of `RemoveUndoesAdd`. */
  lemma RemoveUndoesAppend(names: seq<string>, ranges: map<string, RangeCode>, t: string)
    requires t !in names && ranges.Keys == Elements(names)
    ensures Remove(names + [t], t) == names
    ensures ranges[t := DefaultRange] - {t} == ranges
  {
    RemoveAppend(names, [t], t);
    RemoveAbsent(names, t);
    assert Remove([t], t) == [];
    assert names + [] == names;
  }

  /** Typing the same name again after adding it is rejected: the list holds
      each name once. */
  lemma AddingAgainRejected(d: Dashboard)
    ensures !Adds(AddSet(d).(currentSet := d.currentSet))
  {
  }

  /** In a valid dashboard every chart is given the range stored for its set:
      the `'quarter'` fallback never applies. */
  lemma DisplayedRangeIsStored(d: Dashboard)
    requires Valid(d)
    ensures forall k :: 0 <= k < |d.selectedSets| ==>
              d.selectedSets[k] in d.setRanges && DisplayedRange(d, d.selectedSets[k]) == d.setRanges[d.selectedSets[k]]
  {
  }

  /** What the user can do: type into the input, press Add (or Enter), press a
      set's Remove button, or pick a range on a set's chart. */
  datatype Action =
    | Type(text: string)
    | Add
    | RemoveButton(name: string)
    | PickRange(name: string, range: RangeCode)

  /** One user action. Range controls exist only on the charts of selected sets,
      so a pick for any other name cannot be made and leaves the state as it is. */
  function Step(d: Dashboard, a: Action): (e: Dashboard)
    ensures e.selectedSets != d.selectedSets ==> a.Add? || a.RemoveButton?
    ensures |e.selectedSets| > |d.selectedSets| ==> a.Add? && |e.selectedSets| == |d.selectedSets| + 1
    ensures e.currentSet != d.currentSet ==> a.Type? || (a.Add? && e.currentSet == "")
    ensures e.setRanges != d.setRanges ==> !a.Type?
  {
    match a
    case Type(text) => d.(currentSet := text)
    case Add => AddSet(d)
    case RemoveButton(name) => RemoveSet(d, name)
    case PickRange(name, range) => if name in d.selectedSets then RangeChange(d, name, range) else d
  }

  /** The dashboard after a sequence of actions, the first applied first. */
  function Run(d: Dashboard, actions: seq<Action>): Dashboard
    decreases |actions|
  {
    if actions == [] then d else Run(Step(d, actions[0]), actions[1..])
  }

  /** Each single action keeps the dashboard valid. */
  lemma StepPreservesValid(d: Dashboard, a: Action)
    requires Valid(d)
    ensures Valid(Step(d, a))
  {
    match a {
      case Type(text) =>
      case Add => AddSetPreservesValid(d);
      case RemoveButton(name) => RemoveSetPreservesValid(d, name);
      case PickRange(name, range) =>
        if name in d.selectedSets {
          RangeChangePreservesValid(d, name, range);
        }
    }
  }

  /** Every state the user can reach from the first render is valid. */
  lemma {:induction false} RunPreservesValid(d: Dashboard, actions: seq<Action>)
    requires Valid(d)
    ensures Valid(Run(d, actions))
    decreases |actions|
  {
    if actions != [] {
      StepPreservesValid(d, actions[0]);
      RunPreservesValid(Step(d, actions[0]), actions[1..]);
    }
  }

  lemma ReachableValid(actions: seq<Action>)
    ensures Valid(Run(Initial, actions))
  {
    InitialValid();
    RunPreservesValid(Initial, actions);
  }
}
