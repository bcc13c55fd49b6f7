/**
 * The selection logic of the multi-select control (`components/multi-select.tsx`)
 * used for a teacher's courses and qualifications: toggling a value and
 * clearing the selection.
 */
module MultiSelect {
  import Seqs

  function Other(v: string): string -> bool {
    (x: string) => x != v
  }

  /** `handleSelect`: a selected value is removed (every occurrence), any other is appended. */
  function Toggle(selected: seq<string>, v: string): seq<string> {
    if v in selected then Seqs.Filter(selected, Other(v)) else selected + [v]
  }

  /** `handleClearAll`. */
  function ClearAll(selected: seq<string>): (r: seq<string>)
    ensures forall x :: x !in r
  {
    []
  }

  /**
   * Toggling flips the membership of `v` and leaves every other value where
   * it was: the values other than `v` stay the same list, in the same order.
   */
  lemma ToggleSpec(selected: seq<string>, v: string)
    ensures var r := Toggle(selected, v);
      && (v in r <==> v !in selected)
      && (forall x :: x != v ==> (x in r <==> x in selected))
      && Seqs.Filter(r, Other(v)) == Seqs.Filter(selected, Other(v))
  {
    var p := Other(v);
    var r := Toggle(selected, v);
    if v in selected {
      Seqs.FilterKeepsAll(Seqs.Filter(selected, p), p);
    } else {
      Seqs.FilterAppend(selected, [v], p);
      assert Seqs.Filter([v], p) == [] by {
        assert [v][1..] == [];
      }
    }
    forall x | x != v ensures x in r <==> x in selected {
      if v in selected {
        if x in selected {
          var i :| 0 <= i < |selected| && selected[i] == x;
          assert p(selected[i]);
        }
      }
    }
  }

  /** Selecting a value and selecting it again gives back the original selection. */
  lemma ToggleTwiceUnselected(selected: seq<string>, v: string)
    requires v !in selected
    ensures Toggle(Toggle(selected, v), v) == selected
  {
    var p := Other(v);
    Seqs.FilterAppend(selected, [v], p);
    assert Seqs.Filter([v], p) == [] by {
      assert [v][1..] == [];
    }
    Seqs.FilterKeepsAll(selected, p);
  }

  /** Deselecting a selected value and selecting it again moves it to the end. */
  lemma ToggleTwiceSelected(selected: seq<string>, v: string)
    requires v in selected
    ensures Toggle(Toggle(selected, v), v) == Seqs.Filter(selected, Other(v)) + [v]
  {
  }

  /** A selection without repeats keeps having none. */
  lemma ToggleNoDuplicates(selected: seq<string>, v: string)
    requires Seqs.NoDuplicates(selected)
    ensures Seqs.NoDuplicates(Toggle(selected, v))
  {
    var p := Other(v);
    if v in selected {
      Seqs.FilterPairwise(selected, p, (a: string, b: string) => a != b);
    } else {
      var r := selected + [v];
      forall i, j | 0 <= i < j < |r| ensures r[i] != r[j] {
        if j == |selected| {
          assert r[i] == selected[i];
        }
      }
    }
  }
}
