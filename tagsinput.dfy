/** The list editor of the tag-like fields (`TagsInput`): the rows it shows
    and the new list each handler hands to `onChange`. The handlers only
    build new lists; the caller feeds the result back in as `values`. */
module TagsInput {
  import opened Strs

  /** `values && values.length > 0 ? values : ['']`: a missing or empty list
      shows one blank row. */
  function Display(values: Option<seq<string>>): (d: seq<string>)
    ensures |d| >= 1
    ensures values.Some? && values.value != [] ==> d == values.value
    ensures values.None? || values.value == [] ==> d == [""]
  {
    if values.Some? && |values.value| > 0 then values.value else [""]
  }

  /** `handleChange(index, newValue)`: the shown rows with row `index`
      replaced, then without the rows that are only white space. The
      handler is bound to a shown row, so `index` is one of its indexes. */
  function HandleChange(values: Option<seq<string>>, index: nat, newValue: string): (r: seq<string>)
    requires index < |Display(values)|
    ensures forall v :: v in r ==> NonBlank(v)
    ensures |r| <= |Display(values)|
  {
    Filter(Display(values)[index := newValue], NonBlank)
  }

  /** The result of a change, piece by piece: the surviving rows before the
      edited one, the new text unless it is blank, and the surviving rows
      after it, each in their order. */
  lemma HandleChangeSpec(values: Option<seq<string>>, index: nat, newValue: string)
    requires index < |Display(values)|
    ensures var d := Display(values);
      HandleChange(values, index, newValue) ==
        Filter(d[..index], NonBlank) + (if NonBlank(newValue) then [newValue] else []) + Filter(d[index + 1..], NonBlank)
  {
    var d := Display(values);
    assert d[index := newValue] == d[..index] + [newValue] + d[index + 1..];
    FilterAround(d[..index], newValue, d[index + 1..], NonBlank);
  }

  /** When no row is blank after the edit, the change replaces the row and
      nothing else. */
  lemma HandleChangeReplaces(values: Option<seq<string>>, index: nat, newValue: string)
    requires index < |Display(values)|
    requires NonBlank(newValue)
    requires forall k :: 0 <= k < |Display(values)| && k != index ==> NonBlank(Display(values)[k])
    ensures HandleChange(values, index, newValue) == Display(values)[index := newValue]
  {
    var e := Display(values)[index := newValue];
    FilterKeepsAll(e, NonBlank);
  }

  /** `handleAdd()`: the shown rows and one more blank row. */
  function HandleAdd(values: Option<seq<string>>): (r: seq<string>)
    ensures |r| == |Display(values)| + 1
    ensures r[..|r| - 1] == Display(values) && r[|r| - 1] == ""
  {
    Display(values) + [""]
  }

  /** `handleRemove(index)`: the shown rows without row `index`, or one blank
      row when none is left. */
  function HandleRemove(values: Option<seq<string>>, index: int): (r: seq<string>)
    ensures |r| >= 1
  {
    var rest := DropAt(Display(values), index);
    if |rest| > 0 then rest else [""]
  }

  /** `displayValues.length > 1 && <button …>`: a row has a remove control
      only when more than one row is shown. */
  predicate ShowsRemove(values: Option<seq<string>>) {
    |Display(values)| > 1
  }

  /** With a remove control shown, removing a row takes out exactly that
      row; with a single row, removing it leaves one blank row. */
  lemma HandleRemoveSpec(values: Option<seq<string>>, index: nat)
    requires index < |Display(values)|
    ensures var d := Display(values);
      ShowsRemove(values) ==> HandleRemove(values, index) == d[..index] + d[index + 1..]
    ensures !ShowsRemove(values) ==> HandleRemove(values, index) == [""]
  {
  }

  /** Removing the row just added gives back the rows shown before. */
  lemma RemoveUndoesAdd(values: Option<seq<string>>)
    ensures HandleRemove(Some(HandleAdd(values)), |Display(values)|) == Display(values)
  {
    var d := Display(values);
    var added := HandleAdd(values);
    assert Display(Some(added)) == added;
    assert added[..|d|] == d && added[|d| + 1..] == [];
  }
}
