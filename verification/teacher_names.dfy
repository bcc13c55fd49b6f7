/**
 * The list of predefined teacher names (`components/predefined-teacher-names-form.tsx`):
 * adding, renaming and removing a name, and the check before the list is
 * saved. Names are compared without regard to case; new and edited names are
 * stored trimmed.
 */
module TeacherNames {
  import opened Wrappers
  import Seqs
  import Text

  datatype Name = Name(id: string, name: string)

  datatype NameError = EmptyName | DuplicateName | NoNames | DuplicatesInList

  /** The comparison key of a stored name: `name.toLowerCase()`. */
  function Key(n: Name): string {
    Text.ToLower(n.name)
  }

  /** No two entries share a key. */
  predicate Distinct(names: seq<Name>) {
    forall i, j :: 0 <= i < j < |names| ==> Key(names[i]) != Key(names[j])
  }

  /** No two entries share an id. */
  predicate UniqueIds(names: seq<Name>) {
    forall i, j :: 0 <= i < j < |names| ==> names[i].id != names[j].id
  }

  /** Some entry other than the one with id `except` has the key of `value`. */
  predicate Taken(names: seq<Name>, value: string, except: Option<string>) {
    exists i :: 0 <= i < |names| && (except.None? || names[i].id != except.value)
                && Key(names[i]) == Text.ToLower(Text.Trim(value))
  }

  /** `handleAddName`: the list with the trimmed name appended under a fresh id, or the message. */
  function AddName(names: seq<Name>, newName: string, freshId: string): (r: Result<seq<Name>, NameError>)
    ensures r.Ok? ==> |r.value| == |names| + 1 && r.value[..|names|] == names
  {
    if Text.Trim(newName) == "" then Err(EmptyName)
    else if Taken(names, newName, None) then Err(DuplicateName)
    else Ok(names + [Name(freshId, Text.Trim(newName))])
  }

  /**
   * A name is added exactly when it is not blank and no stored name has the
   * same key; then it goes last, trimmed, and a list without repeated keys
   * keeps that property.
   */
  lemma AddNameSpec(names: seq<Name>, newName: string, freshId: string)
    ensures var r := AddName(names, newName, freshId);
      && (r == Err(EmptyName) <==> Text.IsBlank(newName))
      && (r.Ok? <==> !Text.IsBlank(newName) && forall i :: 0 <= i < |names| ==> Key(names[i]) != Text.ToLower(Text.Trim(newName)))
      && (r.Ok? ==> r.value == names + [Name(freshId, Text.Trim(newName))])
      && (r.Ok? && Distinct(names) ==> Distinct(r.value))
  {
    Text.TrimEmptyIffBlank(newName);
    var r := AddName(names, newName, freshId);
    if r.Ok? && Distinct(names) {
      var s := r.value;
      forall i, j | 0 <= i < j < |s| ensures Key(s[i]) != Key(s[j]) {
        if j == |names| {
          assert s[i] == names[i];
        }
      }
    }
  }

  /** `handleRemoveName`: every entry with the id goes; the rest keep their order. */
  function RemoveName(names: seq<Name>, id: string): (r: seq<Name>)
    ensures forall i :: 0 <= i < |r| ==> r[i].id != id
  {
    Seqs.Filter(names, (n: Name) => n.id != id)
  }

  /** Removing keeps the other entries in order. */
  lemma RemoveNameSpec(names: seq<Name>, id: string)
    ensures Seqs.IsSubsequence(RemoveName(names, id), names)
    ensures forall n :: n in names && n.id != id ==> n in RemoveName(names, id)
  {
    Seqs.FilterIsSubsequence(names, (n: Name) => n.id != id);
  }

  /** Removing cannot create a repeated key or id. */
  lemma RemoveNameDistinct(names: seq<Name>, id: string)
    ensures Distinct(names) ==> Distinct(RemoveName(names, id))
    ensures UniqueIds(names) ==> UniqueIds(RemoveName(names, id))
  {
    var keep := (n: Name) => n.id != id;
    var r := RemoveName(names, id);
    if Distinct(names) {
      var rel := (a: Name, b: Name) => Key(a) != Key(b);
      assert forall i, j :: 0 <= i < j < |names| ==> rel(names[i], names[j]);
      Seqs.FilterPairwise(names, keep, rel);
      forall i, j | 0 <= i < j < |r| ensures Key(r[i]) != Key(r[j]) {
        assert rel(r[i], r[j]);
      }
    }
    if UniqueIds(names) {
      var rel := (a: Name, b: Name) => a.id != b.id;
      assert forall i, j :: 0 <= i < j < |names| ==> rel(names[i], names[j]);
      Seqs.FilterPairwise(names, keep, rel);
      forall i, j | 0 <= i < j < |r| ensures r[i].id != r[j].id {
        assert rel(r[i], r[j]);
      }
    }
  }

  /** `handleSaveEdit`: every entry with the id gets the trimmed value, or the message. */
  function SaveEdit(names: seq<Name>, id: string, value: string): (r: Result<seq<Name>, NameError>)
    ensures r.Ok? ==> |r.value| == |names|
  {
    if Text.Trim(value) == "" then Err(EmptyName)
    else if Taken(names, value, Some(id)) then Err(DuplicateName)
    else Ok(seq(|names|, i requires 0 <= i < |names| =>
                if names[i].id == id then names[i].(name := Text.Trim(value)) else names[i]))
  }

  /**
   * An edit is accepted exactly when the value is not blank and no other
   * entry has its key; then only the entry with the id changes, to the
   * trimmed value. With unique ids an edit cannot create a repeated key.
   */
  lemma SaveEditSpec(names: seq<Name>, id: string, value: string)
    ensures var r := SaveEdit(names, id, value);
      && (r == Err(EmptyName) <==> Text.IsBlank(value))
      && (r.Ok? <==> !Text.IsBlank(value) && !Taken(names, value, Some(id)))
      && (r.Ok? ==> forall i :: 0 <= i < |names| ==>
            && r.value[i].id == names[i].id
            && r.value[i].name == (if names[i].id == id then Text.Trim(value) else names[i].name))
      && (r.Ok? && Distinct(names) && UniqueIds(names) ==> Distinct(r.value) && UniqueIds(r.value))
  {
    Text.TrimEmptyIffBlank(value);
    var r := SaveEdit(names, id, value);
    if r.Ok? && Distinct(names) && UniqueIds(names) {
      var s := r.value;
      forall i, j | 0 <= i < j < |s| ensures Key(s[i]) != Key(s[j]) {
        if names[i].id == id {
          assert names[j].id != id;
          assert Key(names[j]) != Text.ToLower(Text.Trim(value));
        } else if names[j].id == id {
          assert Key(names[i]) != Text.ToLower(Text.Trim(value));
        }
      }
    }
  }

  /** The keys of the list, as `names.map((n) => n.name.toLowerCase())`. */
  function Keys(names: seq<Name>): (r: seq<string>)
    ensures |r| == |names|
  {
    seq(|names|, i requires 0 <= i < |names| => Key(names[i]))
  }

  /** `handleSubmit`: the list handed to `onSave`, or the message. */
  function Submit(names: seq<Name>): Result<seq<Name>, NameError> {
    if |names| == 0 then Err(NoNames)
    else if |set k | k in Keys(names)| != |names| then Err(DuplicatesInList)
    else Ok(names)
  }

  /** The list is saved, unchanged, exactly when it is non-empty and has no repeated key. */
  lemma SubmitSpec(names: seq<Name>)
    ensures Submit(names).Ok? <==> |names| > 0 && Distinct(names)
    ensures Submit(names).Ok? ==> Submit(names).value == names
  {
    var keys := Keys(names);
    Seqs.SetSizeNoDuplicates(keys);
    assert Seqs.NoDuplicates(keys) <==> Distinct(names) by {
      assert forall i :: 0 <= i < |names| ==> keys[i] == Key(names[i]);
    }
  }
}
